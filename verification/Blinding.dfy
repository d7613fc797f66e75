/** Blinded ids and the secret two blinded ids share (src/blinding.cpp, src/bchat_encrypt.cpp).

    A point of the prime-order subgroup is modelled by the multiple of the base point that it is, so
    points are numbers below the group order and multiplication by a scalar is multiplication modulo
    the order.  The encodings and hashes are parameters. */
module Blinding {
  import opened Arithmetic
  import opened Bytes
  import opened Options

  /** `negative` is the sign bit of a point's encoding, `toX` its X25519 form, `liftX` the point with a
      clear sign bit that has the given X25519 form; `factor15` and `factor25` are hashes reduced to
      scalars. */
  datatype Curve = Curve(
    order: nat,
    negative: nat -> bool,
    toX: nat -> seq<byte>,
    liftX: seq<byte> -> Option<nat>,
    encode: nat -> seq<byte>,
    decode: seq<byte> -> Option<nat>,
    factor15: seq<byte> -> nat,
    factor25: (seq<byte>, seq<byte>) -> nat)
  {
    function Abs(x: nat): nat
      requires x <= order
    {
      if negative(x) then order - x else x
    }

    /** A point and its negative have one X25519 form and encodings that differ in the sign bit. */
    ghost predicate Mirrors(x: nat)
      requires 0 < x < order
    {
      && negative(x) != negative(order - x)
      && toX(x) == toX(order - x)
      && liftX(toX(x)) == Some(Abs(x))
      && |toX(x)| == 32
      && |encode(x)| == 32 && encode(order - x) == encode(x)[31 := FlipTop(encode(x)[31])]
    }

    ghost predicate Encodes(x: nat) {
      |encode(x)| == 32 && decode(encode(x)) == Some(x)
    }

    ghost predicate Lawful() {
      && order > 2 && order % 2 == 1
      && (forall x :: 0 < x < order ==> Mirrors(x))
      && (forall x :: 0 <= x < order ==> Encodes(x))
      && (forall b :: decode(b).Some? ==> decode(b).value < order)
      && (forall s :: factor15(s) < order)
      && (forall id, s :: factor25(id, s) < order)
    }

    function Times(k: nat, x: nat): (y: nat)
      requires order > 0
      ensures y < order
    {
      k * x % order
    }

    function Negate(k: nat): nat
      requires k < order
    {
      if k == 0 then 0 else order - k
    }

    /** Multiplication of a point by a scalar, which fails where there is no point or it becomes zero. */
    function ScalarMult(k: nat, p: Option<nat>): Option<nat>
      requires order > 0
    {
      if p.None? || Times(k, p.value) == 0 then None else Some(Times(k, p.value))
    }

    // ----- ids

    /** The bchat id of a public key. */
    function BchatId(x: nat): seq<byte> {
      [0x05] + toX(x)
    }

    function Blind15FromId(id: seq<byte>, server: seq<byte>): Option<nat>
      requires order > 0
    {
      if |id| == 33 && id[0] == 0x05 then ScalarMult(factor15(server), liftX(id[1..]))
      else if |id| == 32 then ScalarMult(factor15(server), liftX(id))
      else None
    }

    function Blind25FromId(id: seq<byte>, server: seq<byte>): Option<nat>
      requires order > 0
    {
      if |id| == 33 && id[0] == 0x05 then ScalarMult(factor25(id, server), liftX(id[1..]))
      else if |id| == 32 then ScalarMult(factor25([0x05] + id, server), liftX(id))
      else None
    }

    function Blind15FromEd(x: nat, server: seq<byte>): Option<nat>
      requires order > 0
    {
      ScalarMult(factor15(server), Some(x))
    }

    function Blind25FromEd(x: nat, server: seq<byte>): Option<nat>
      requires 0 < order && x < order
    {
      ScalarMult(factor25(BchatId(x), server), Some(Abs(x)))
    }

    /** The public key of a secret scalar. */
    function PublicKey(a: nat): (x: nat)
      requires order > 0
      ensures x < order
    {
      a % order
    }

    /** The factor of a key pair: negated for a negative key, where ids are built on its absolute value. */
    function KeyFactor(blind25: bool, a: nat, server: seq<byte>): nat
      requires Lawful()
    {
      var x := PublicKey(a);
      if !blind25 then factor15(server)
      else
        var k := factor25(BchatId(x), server);
        if negative(x) then Negate(k) else k
    }

    function BlindedKey(blind25: bool, a: nat, server: seq<byte>): nat
      requires Lawful()
    {
      Times(KeyFactor(blind25, a, server), PublicKey(a))
    }
  }

  /** The key pair of a 0x15 id. */
  method Blind15KeyPair(c: Curve, a0: nat, server: seq<byte>) returns (pub: nat, a: nat, k: nat)
    requires c.Lawful()
    ensures k == c.KeyFactor(false, a0, server) && a == c.Times(k, a0)
    ensures pub == c.BlindedKey(false, a0, server)
  {
    a := a0;
    k := c.factor15(server);
    ModMul(a0, k, c.order);
    a := c.Times(k, a);
    ModMul(k * a0, 1, c.order);
    pub := c.Times(a, 1);
  }

  /** The key pair of a 0x25 id. */
  method Blind25KeyPair(c: Curve, a0: nat, server: seq<byte>) returns (pub: nat, a: nat, k: nat)
    requires c.Lawful()
    ensures k == c.KeyFactor(true, a0, server) && a == c.Times(k, a0)
    ensures pub == c.BlindedKey(true, a0, server)
  {
    a := a0;
    var x := c.PublicKey(a0);
    k := c.factor25(c.BchatId(x), server);
    if c.negative(x) {
      k := c.Negate(k);
    }
    ModMul(a0, k, c.order);
    a := c.Times(k, a);
    ModMul(k * a0, 1, c.order);
    pub := c.Times(a, 1);
  }

  /** Which points the ids are: a 0x15 id is the factor of the server times the key; a 0x25 id is the factor
      of the server and the bchat id, 05 and the X25519 key, times the absolute value of the key. */
  lemma BlindedPoints(c: Curve, x: nat, server: seq<byte>)
    requires c.Lawful() && 0 < x < c.order
    ensures var y := c.factor15(server) * x % c.order; c.Blind15FromEd(x, server) == if y == 0 then None else Some(y)
    ensures var y := c.factor25([0x05] + c.toX(x), server) * (if c.negative(x) then c.order - x else x) % c.order;
            c.Blind25FromEd(x, server) == if y == 0 then None else Some(y)
  {
  }

  /** A bchat id is 32 bytes, or 33 beginning with 05; nothing else has a blinded id. */
  lemma NotABchatId(c: Curve, id: seq<byte>, server: seq<byte>)
    requires c.order > 0 && |id| != 32 && (|id| != 33 || id[0] != 0x05)
    ensures c.Blind15FromId(id, server) == None && c.Blind25FromId(id, server) == None
  {
  }

  // ----- one id, however it is computed

  lemma NegatedProduct(k: nat, x: nat, d: nat)
    requires 0 < d && k <= d && x <= d
    ensures (d - k) * x % d == k * (d - x) % d
    ensures (d - k) * (d - x) % d == k * x % d
  {
    assert (d - k) * x == k * (d - x) + (x - k) * d;
    ModShift(k * (d - x), x - k, d);
    assert (d - k) * (d - x) == k * x + (d - k - x) * d;
    ModShift(k * x, d - k - x, d);
  }

  lemma ZeroTimes(x: nat, d: nat)
    requires d > 0
    ensures 0 * x % d == 0
  {
  }

  /** A 0x25 id is the same from the bchat id, from the Ed25519 key and from the key pair. */
  lemma Blind25Agrees(c: Curve, a: nat, server: seq<byte>)
    requires c.Lawful() && c.PublicKey(a) != 0
    ensures var x, pub := c.PublicKey(a), c.BlindedKey(true, a, server);
            && c.Blind25FromEd(x, server) == (if pub == 0 then None else Some(pub))
            && c.Blind25FromId(c.BchatId(x), server) == c.Blind25FromEd(x, server)
            && c.Blind25FromId(c.toX(x), server) == c.Blind25FromEd(x, server)
  {
    var x := c.PublicKey(a);
    assert c.Mirrors(x);
    assert c.BchatId(x)[1..] == c.toX(x);
    var k := c.factor25(c.BchatId(x), server);
    if c.negative(x) {
      if k == 0 {
        ZeroTimes(x, c.order);
        ZeroTimes(c.order - x, c.order);
      } else {
        NegatedProduct(k, x, c.order);
      }
    }
  }

  lemma OddOrder(y: nat, d: nat)
    requires 0 < y < d && d % 2 == 1
    ensures d - y != y
  {
  }

  lemma Blind15OfAbs(c: Curve, x: nat, server: seq<byte>)
    requires c.Lawful() && 0 < x < c.order
    ensures c.Blind15FromId(c.BchatId(x), server) == c.ScalarMult(c.factor15(server), Some(c.Abs(x)))
  {
    hide Curve.ScalarMult;
    assert c.Mirrors(x);
    assert c.BchatId(x)[1..] == c.toX(x);
  }

  /** A 0x15 id computed from the bchat id is that of the key pair exactly when the Ed25519 key is not
      negative; otherwise it is the negative of it. */
  lemma Blind15Agrees(c: Curve, a: nat, server: seq<byte>)
    requires c.Lawful() && c.PublicKey(a) != 0
    ensures var x, pub := c.PublicKey(a), c.BlindedKey(false, a, server);
            && c.Blind15FromEd(x, server) == (if pub == 0 then None else Some(pub))
            && (pub != 0 ==>
                  && c.Blind15FromId(c.BchatId(x), server) == Some(if c.negative(x) then c.order - pub else pub)
                  && (c.Blind15FromId(c.BchatId(x), server) == Some(pub) <==> !c.negative(x)))
  {
    var x, pub := c.PublicKey(a), c.BlindedKey(false, a, server);
    hide Curve.Lawful, Curve.Blind15FromId;
    var k := c.factor15(server);
    Blind15OfAbs(c, x, server);
    if c.negative(x) && pub != 0 {
      NegativePoint(k, x, c.order);
      OddOrder(pub, c.order);
    }
  }

  lemma NegativePoint(k: nat, x: nat, d: nat)
    requires 0 < d && x <= d && k * x % d != 0
    ensures k * (d - x) % d == d - k * x % d
  {
    var r, q := k * x % d, k * x / d;
    assert k * (d - x) == (k - q - 1) * d + (d - r) by {
      assert k * x == q * d + r;
    }
    DivUnique(k * (d - x), d, k - q - 1, d - r);
  }

  // ----- the shared secret

  /** What is hashed into the key of a message: the shared point, the sender's key, the recipient's. */
  datatype Secret = Secret(point: seq<byte>, sender: seq<byte>, recipient: seq<byte>)

  /** The ids of one kind, which share a prefix byte. */
  function Prefix(blind25: bool): byte {
    if blind25 then 0x25 else 0x15
  }

  predicate SameKind(ownId: seq<byte>, otherId: seq<byte>) {
    && |ownId| == 33 && |otherId| == 33
    && ((ownId[0] == 0x15 && otherId[0] == 0x15) || (ownId[0] == 0x25 && otherId[0] == 0x25))
  }

  /** The point both sides multiply out to: doubly blinded for 0x25 ids only. */
  function SharedPoint(c: Curve, blind25: bool, a: nat, other: Option<nat>, server: seq<byte>): Option<nat>
    requires c.Lawful()
  {
    c.ScalarMult(if blind25 then c.Times(a, c.KeyFactor(true, a, server)) else a, other)
  }

  function SecretOf(c: Curve, a: nat, ownId: seq<byte>, otherId: seq<byte>, server: seq<byte>,
          sending: bool): Option<Secret>
    requires c.Lawful()
  {
    if |server| != 32 || !SameKind(ownId, otherId) then None
    else
      match SharedPoint(c, ownId[0] == 0x25, a, c.decode(otherId[1..]), server)
      case None => None
      case Some(p) =>
        if sending then Some(Secret(c.encode(p), ownId[1..], otherId[1..]))
        else Some(Secret(c.encode(p), otherId[1..], ownId[1..]))
  }

  method BlindedSharedSecret(c: Curve, a: nat, ownId: seq<byte>, otherId: seq<byte>, server: seq<byte>, sending: bool)
    returns (r: Option<Secret>)
    requires c.Lawful()
    ensures r == SecretOf(c, a, ownId, otherId, server, sending)
  {
    if |server| != 32 || |ownId| != 33 || |otherId| != 33 {
      return None;
    }
    var k;
    if ownId[0] == 0x15 && otherId[0] == 0x15 {
      var _, _, k15 := Blind15KeyPair(c, a, server);
      k := k15;
    } else if ownId[0] == 0x25 && otherId[0] == 0x25 {
      var _, _, k25 := Blind25KeyPair(c, a, server);
      k := k25;
    } else {
      return None;
    }
    var ka := a;
    if ownId[0] == 0x25 {
      ka := c.Times(ka, k);
    }
    var shared := c.ScalarMult(ka, c.decode(otherId[1..]));
    if shared.None? {
      return None;
    }
    var sender := if sending then ownId[1..] else otherId[1..];
    var recipient := if sending then otherId[1..] else ownId[1..];
    return Some(Secret(c.encode(shared.value), sender, recipient));
  }

  /** The id that goes with a secret scalar. */
  function IdOf(c: Curve, blind25: bool, a: nat, server: seq<byte>): (id: seq<byte>)
    requires c.Lawful()
    ensures |id| == 33 && id[0] == Prefix(blind25)
    ensures c.decode(id[1..]) == Some(c.BlindedKey(blind25, a, server))
  {
    var pub := c.BlindedKey(blind25, a, server);
    assert c.Encodes(pub);
    var id := [Prefix(blind25)] + c.encode(pub);
    assert id[1..] == c.encode(pub);
    id
  }

  /** Two factors that go with two scalars, multiplied out from either side. */
  lemma Crossed(a: nat, k: nat, b: nat, j: nat, d: nat)
    requires d > 0
    ensures (a * k % d) * (j * (b % d) % d) % d == (b * j % d) * (k * (a % d) % d) % d
  {
    Product(a, k, b, j, d);
    Product(b, j, a, k, d);
    assert a * k * (j * b) == b * j * (k * a) by {
      Commute(a * k, j * b);
    }
  }

  lemma Product(a: nat, k: nat, b: nat, j: nat, d: nat)
    requires d > 0
    ensures (a * k % d) * (j * (b % d) % d) % d == a * k * (j * b) % d
  {
    ModMul(a * k, j * (b % d) % d, d);
    ModMul(j * (b % d), a * k, d);
    ModMul(b, j, d);
    ModMul(j * b, a * k, d);
    Commute(j * b, a * k);
    Commute(b, j);
    assert j * (b % d) % d == j * b % d;
    Commute(a * k, j * b % d);
  }

  /** Both sides arrive at the same point, for both kinds of id and whatever the signs of the keys. */
  lemma PointsAgree(c: Curve, blind25: bool, a: nat, b: nat, server: seq<byte>)
    requires c.Lawful()
    ensures SharedPoint(c, blind25, a, Some(c.BlindedKey(blind25, b, server)), server) ==
            SharedPoint(c, blind25, b, Some(c.BlindedKey(blind25, a, server)), server)
  {
    hide Curve.KeyFactor;
    var k, j := c.KeyFactor(blind25, a, server), c.KeyFactor(blind25, b, server);
    if blind25 {
      Crossed(a, k, b, j, c.order);
    } else {
      SameFactor(c, a, b, server);
      SingleCrossed(a, b, k, c.order);
    }
  }

  lemma SameFactor(c: Curve, a: nat, b: nat, server: seq<byte>)
    requires c.Lawful()
    ensures c.KeyFactor(false, a, server) == c.KeyFactor(false, b, server)
  {
  }

  lemma SingleCrossed(a: nat, b: nat, k: nat, d: nat)
    requires d > 0
    ensures a * (k * (b % d) % d) % d == b * (k * (a % d) % d) % d
  {
    SingleProduct(a, k, b, d);
    SingleProduct(b, k, a, d);
    assert a * (k * b) == b * (k * a);
  }

  lemma SingleProduct(a: nat, k: nat, b: nat, d: nat)
    requires d > 0
    ensures a * (k * (b % d) % d) % d == a * (k * b) % d
  {
    ModMul(b, k, d);
    Commute(b, k);
    ModMul(k * b, a, d);
    Commute(k * b, a);
  }

  /** Which point it is: for 0x15 ids the one factor times both scalars, for 0x25 ids both factors too. */
  lemma SharedPointIs(c: Curve, blind25: bool, a: nat, b: nat, server: seq<byte>)
    requires c.Lawful()
    ensures var k, j := c.KeyFactor(true, a, server), c.KeyFactor(true, b, server);
            var x := if blind25 then a * k * (j * b) % c.order else a * (c.factor15(server) * b) % c.order;
            SharedPoint(c, blind25, a, Some(c.BlindedKey(blind25, b, server)), server) ==
            if x == 0 then None else Some(x)
  {
    if blind25 {
      Product(a, c.KeyFactor(true, a, server), b, c.KeyFactor(true, b, server), c.order);
    } else {
      SingleProduct(a, c.factor15(server), b, c.order);
    }
  }

  /** The secret names the shared point, then the sender's blinded key, then the recipient's, whichever side
      computes it; ids of different kinds, of other sizes or with other prefixes share none. */
  lemma SecretIs(c: Curve, a: nat, senderId: seq<byte>, recipientId: seq<byte>, server: seq<byte>)
    requires c.Lawful()
    ensures var sent := SecretOf(c, a, senderId, recipientId, server, true);
            var received := SecretOf(c, a, recipientId, senderId, server, false);
            && (sent.Some? || received.Some? ==>
                  && |server| == 32 && |senderId| == 33 && |recipientId| == 33
                  && senderId[0] == recipientId[0] && senderId[0] in {0x15, 0x25})
            && (sent.Some? ==> sent.value.sender == senderId[1..] && sent.value.recipient == recipientId[1..])
            && (received.Some? ==>
                  received.value.sender == senderId[1..] && received.value.recipient == recipientId[1..])
  {
  }

  /** The secret of a message is the same for its sender and its recipient. */
  lemma SecretsAgree(c: Curve, blind25: bool, a: nat, b: nat, server: seq<byte>)
    requires c.Lawful()
    ensures var ida, idb := IdOf(c, blind25, a, server), IdOf(c, blind25, b, server);
            SecretOf(c, a, ida, idb, server, true) == SecretOf(c, b, idb, ida, server, false)
  {
    PointsAgree(c, blind25, a, b, server);
  }

  // ----- messages

  /** The hash that makes a key of a secret, and the authenticated encryption under that key. */
  datatype Sealing = Sealing(
    hash: Secret -> seq<byte>,
    seal: (seq<byte>, seq<byte>, seq<byte>) -> seq<byte>,
    open: (seq<byte>, seq<byte>, seq<byte>) -> Option<seq<byte>>)
  {
    ghost predicate Opens() {
      forall key, nonce, text ::
        && |seal(key, nonce, text)| == |text| + 16
        && open(key, nonce, seal(key, nonce, text)) == Some(text)
    }
  }

  const VERSION: byte := 0
  const NONCE: nat := 24
  const MAC: nat := 16

  /** A message to a blinded id, with the sender's own key behind it. */
  function Sealed(c: Curve, s: Sealing, a: nat, server: seq<byte>, recipientId: seq<byte>, message: seq<byte>,
          nonce: seq<byte>): Option<seq<byte>>
    requires c.Lawful()
  {
    if |recipientId| != 33 || recipientId[0] !in {0x15, 0x25} then None
    else
      var ownId := IdOf(c, recipientId[0] == 0x25, a, server);
      match SecretOf(c, a, ownId, recipientId, server, true)
      case None => None
      case Some(secret) =>
        Some([VERSION] + s.seal(s.hash(secret), nonce, message + c.encode(c.PublicKey(a))) + nonce)
  }

  method EncryptForBlindedRecipient(c: Curve, s: Sealing, a: nat, server: seq<byte>, recipientId: seq<byte>,
          message: seq<byte>, nonce: seq<byte>)
    returns (r: Option<seq<byte>>)
    requires c.Lawful() && |nonce| == NONCE
    ensures r == Sealed(c, s, a, server, recipientId, message, nonce)
  {
    if |server| != 32 || |recipientId| != 33 {
      return None;
    }
    var pub: nat;
    if recipientId[0] == 0x15 {
      var pub15, _, _ := Blind15KeyPair(c, a, server);
      pub := pub15;
    } else if recipientId[0] == 0x25 {
      var pub25, _, _ := Blind25KeyPair(c, a, server);
      pub := pub25;
    } else {
      return None;
    }
    var blindedId := recipientId[..1];
    blindedId := blindedId + c.encode(pub);
    assert blindedId == IdOf(c, recipientId[0] == 0x25, a, server);
    var secret := BlindedSharedSecret(c, a, blindedId, recipientId, server, true);
    if secret.None? {
      return None;
    }
    var buf := message;
    buf := buf + c.encode(c.PublicKey(a));
    var ciphertext := [VERSION];
    ciphertext := ciphertext + s.seal(s.hash(secret.value), nonce, buf);
    ciphertext := ciphertext + nonce;
    return Some(ciphertext);
  }

  function FromEd(c: Curve, blind25: bool, x: nat, server: seq<byte>): Option<seq<byte>>
    requires c.Lawful() && x < c.order
  {
    match if blind25 then c.Blind25FromEd(x, server) else c.Blind15FromEd(x, server)
    case None => None
    case Some(p) => Some([Prefix(blind25)] + c.encode(p))
  }

  /** Which of the two ids is one's own decides which role one has. */
  function ReaderSecret(c: Curve, b: nat, server: seq<byte>, senderId: seq<byte>,
          recipientId: seq<byte>): Option<Secret>
    requires c.Lawful() && |recipientId| > 0
  {
    match FromEd(c, recipientId[0] == 0x25, c.PublicKey(b), server)
    case None => None
    case Some(id) =>
      if senderId == id then SecretOf(c, b, senderId, recipientId, server, true)
      else SecretOf(c, b, recipientId, senderId, server, false)
  }

  /** Whether the key inside a message goes with the id it was sent from.  For 0x15 ids the id with the
      top bit of byte 31 changed is let through too. */
  predicate SenderMatches(c: Curve, blind25: bool, x: nat, server: seq<byte>, senderId: seq<byte>)
    requires c.Lawful() && x < c.order
  {
    match FromEd(c, blind25, x, server)
    case None => false
    case Some(id) =>
      || senderId == id
      || (!blind25 && |id| == 33 && senderId == id[31 := FlipTop(id[31])])
  }

  /** The id of the negated point, which differs in the sign bit, is never let through. */
  lemma NegatedSenderRefused(c: Curve, x: nat, server: seq<byte>, p: nat)
    requires c.Lawful() && x < c.order && c.Blind15FromEd(x, server) == Some(p)
    ensures 0 < p < c.order
    ensures FromEd(c, false, x, server) == Some([0x15] + c.encode(p))
    ensures !SenderMatches(c, false, x, server, [0x15] + c.encode(c.order - p))
  {
    assert c.Mirrors(p);
    var id, negated := [0x15] + c.encode(p), [0x15] + c.encode(c.order - p);
    assert negated[32] == FlipTop(id[32]);
    assert id[31 := FlipTop(id[31])][32] == id[32];
  }

  datatype Opened = Opened(message: seq<byte>, senderX: seq<byte>)

  function OpenedWith(c: Curve, s: Sealing, secret: Secret, server: seq<byte>, senderId: seq<byte>,
          blind25: bool, ciphertext: seq<byte>): Option<Opened>
    requires c.Lawful() && |ciphertext| >= NONCE + 1 + MAC
  {
    var size := |ciphertext| - MAC - 1 - NONCE;
    if ciphertext[0] != VERSION || size < 32 then None
    else
      match s.open(s.hash(secret), ciphertext[size + 1 + MAC..], ciphertext[1..size + 1 + MAC])
      case None => None
      case Some(buf) =>
        if |buf| < 32 then None
        else
          match c.decode(buf[|buf| - 32..])
          case None => None
          case Some(x) =>
            if SenderMatches(c, blind25, x, server, senderId) then Some(Opened(buf[..|buf| - 32], c.toX(x))) else None
  }

  function OpenedBy(c: Curve, s: Sealing, b: nat, server: seq<byte>, senderId: seq<byte>,
          recipientId: seq<byte>, ciphertext: seq<byte>): Option<Opened>
    requires c.Lawful() && |recipientId| > 0
  {
    if |ciphertext| < NONCE + 1 + MAC then None
    else
      match ReaderSecret(c, b, server, senderId, recipientId)
      case None => None
      case Some(secret) => OpenedWith(c, s, secret, server, senderId, recipientId[0] == 0x25, ciphertext)
  }

  lemma FromEdIsId(c: Curve, blind25: bool, a: nat, server: seq<byte>)
    requires c.Lawful() && c.PublicKey(a) != 0
    ensures FromEd(c, blind25, c.PublicKey(a), server) ==
            if c.BlindedKey(blind25, a, server) == 0 then None else Some(IdOf(c, blind25, a, server))
  {
    if blind25 {
      Blind25Agrees(c, a, server);
    } else {
      Blind15Agrees(c, a, server);
    }
  }

  /** A shared point that is not zero comes of keys that are not zero. */
  lemma NonZeroKeys(c: Curve, blind25: bool, a: nat, b: nat, server: seq<byte>)
    requires c.Lawful()
    requires SharedPoint(c, blind25, a, Some(c.BlindedKey(blind25, b, server)), server).Some?
    ensures c.BlindedKey(blind25, a, server) != 0 && c.BlindedKey(blind25, b, server) != 0
  {
    PointsAgree(c, blind25, a, b, server);
    ZeroTimes(0, c.order);
  }

  /** The sender's own scalar and the recipient's give the secret the message was sealed with. */
  lemma ReadersAgree(c: Curve, blind25: bool, a: nat, b: nat, server: seq<byte>)
    requires c.Lawful() && c.PublicKey(a) != 0 && c.PublicKey(b) != 0
    requires var ida, idb := IdOf(c, blind25, a, server), IdOf(c, blind25, b, server);
             SecretOf(c, a, ida, idb, server, true).Some?
    ensures var ida, idb := IdOf(c, blind25, a, server), IdOf(c, blind25, b, server);
            && ReaderSecret(c, b, server, ida, idb) == SecretOf(c, a, ida, idb, server, true)
            && ReaderSecret(c, a, server, ida, idb) == SecretOf(c, a, ida, idb, server, true)
  {
    hide Curve.BlindedKey, Curve.KeyFactor, FromEd;
    var ida, idb := IdOf(c, blind25, a, server), IdOf(c, blind25, b, server);
    NonZeroKeys(c, blind25, a, b, server);
    FromEdIsId(c, blind25, a, server);
    FromEdIsId(c, blind25, b, server);
    SecretsAgree(c, blind25, a, b, server);
    PointsAgree(c, blind25, b, b, server);
    PointsAgree(c, blind25, a, b, server);
  }

  /** A message to a blinded id is read back, with the sender's bchat id, by whoever holds the
      recipient's key and by its sender; the sender's id is the one that goes with the sender's key. */
  lemma MessageRoundTrip(c: Curve, s: Sealing, blind25: bool, a: nat, b: nat, server: seq<byte>,
          message: seq<byte>, nonce: seq<byte>)
    requires c.Lawful() && s.Opens() && c.PublicKey(a) != 0 && c.PublicKey(b) != 0 && |nonce| == NONCE
    requires Sealed(c, s, a, server, IdOf(c, blind25, b, server), message, nonce).Some?
    ensures var ida, idb := IdOf(c, blind25, a, server), IdOf(c, blind25, b, server);
            var ciphertext := Sealed(c, s, a, server, idb, message, nonce).value;
            var expected := Some(Opened(message, c.toX(c.PublicKey(a))));
            && OpenedBy(c, s, b, server, ida, idb, ciphertext) == expected
            && OpenedBy(c, s, a, server, ida, idb, ciphertext) == expected
  {
    hide Curve.BlindedKey, Curve.KeyFactor, FromEd, SecretOf, ReaderSecret;
    var ida, idb, x := IdOf(c, blind25, a, server), IdOf(c, blind25, b, server), c.PublicKey(a);
    ReadersAgree(c, blind25, a, b, server);
    var secret := SecretOf(c, a, ida, idb, server, true).value;
    SealedPoint(c, blind25, a, b, server);
    NonZeroKeys(c, blind25, a, b, server);
    FromEdIsId(c, blind25, a, server);
    var text := message + c.encode(x);
    assert c.Encodes(x);
    assert text[..|text| - 32] == message && text[|text| - 32..] == c.encode(x);
    var box := s.seal(s.hash(secret), nonce, text);
    var ciphertext := [VERSION] + box + nonce;
    assert ciphertext[1..|box| + 1] == box && ciphertext[|box| + 1..] == nonce;
  }

  lemma SealedPoint(c: Curve, blind25: bool, a: nat, b: nat, server: seq<byte>)
    requires c.Lawful()
    requires SecretOf(c, a, IdOf(c, blind25, a, server), IdOf(c, blind25, b, server), server, true).Some?
    ensures SharedPoint(c, blind25, a, Some(c.BlindedKey(blind25, b, server)), server).Some?
  {
  }

  /** Opens the box, splits off the sender's key and checks it against the sender's id. */
  method OpenBox(c: Curve, s: Sealing, secret: Secret, server: seq<byte>, senderId: seq<byte>, blind25: bool,
        ciphertext: seq<byte>) returns (r: Option<Opened>)
    requires c.Lawful() && |ciphertext| >= NONCE + 1 + MAC
    ensures r == OpenedWith(c, s, secret, server, senderId, blind25, ciphertext)
  {
    if ciphertext[0] != VERSION {
      return None;
    }
    var size := |ciphertext| - MAC - 1 - NONCE;
    if size < 32 {
      return None;
    }
    var buf := s.open(s.hash(secret), ciphertext[size + 1 + MAC..], ciphertext[1..size + 1 + MAC]);
    if buf.None? || |buf.value| < 32 {
      return None;
    }
    var split := |buf.value| - 32;
    var sender := c.decode(buf.value[split..]);
    if sender.None? {
      return None;
    }
    var matched := MatchSender(c, blind25, sender.value, server, senderId);
    if !matched {
      return None;
    }
    return Some(Opened(buf.value[..split], c.toX(sender.value)));
  }

  method MatchSender(c: Curve, blind25: bool, x: nat, server: seq<byte>, senderId: seq<byte>) returns (matched: bool)
    requires c.Lawful() && x < c.order
    ensures matched <==> SenderMatches(c, blind25, x, server, senderId)
  {
    var extracted := FromEd(c, blind25, x, server);
    if extracted.None? {
      return false;
    }
    matched := senderId == extracted.value;
    if !matched && extracted.value[0] == 0x15 && |extracted.value| == 33 {
      var other := extracted.value[31 := FlipTop(extracted.value[31])];
      matched := senderId == other;
    }
  }

  method DecryptFromBlindedRecipient(c: Curve, s: Sealing, b: nat, server: seq<byte>, senderId: seq<byte>,
        recipientId: seq<byte>, ciphertext: seq<byte>) returns (r: Option<Opened>)
    requires c.Lawful() && |recipientId| > 0
    ensures r == OpenedBy(c, s, b, server, senderId, recipientId, ciphertext)
  {
    hide OpenedWith, SecretOf, FromEd;
    if |ciphertext| < NONCE + 1 + MAC {
      return None;
    }
    var blind25 := recipientId[0] == 0x25;
    var blindedId := FromEd(c, blind25, c.PublicKey(b), server);
    if blindedId.None? {
      return None;
    }
    var secret;
    if senderId == blindedId.value {
      secret := BlindedSharedSecret(c, b, senderId, recipientId, server, true);
    } else {
      secret := BlindedSharedSecret(c, b, recipientId, senderId, server, false);
    }
    if secret.None? {
      return None;
    }
    r := OpenBox(c, s, secret.value, server, senderId, blind25, ciphertext);
  }

  /** What is sent: a zero byte, the box, and the nonce.  The box opens, under the secret of sender and
      recipient, to the message followed by the sender's own public key. */
  lemma SealedForm(c: Curve, s: Sealing, blind25: bool, a: nat, b: nat, server: seq<byte>, message: seq<byte>,
        nonce: seq<byte>)
    requires c.Lawful() && s.Opens() && |nonce| == 24
    ensures var ida, idb := IdOf(c, blind25, a, server), IdOf(c, blind25, b, server);
            var sealed, secret := Sealed(c, s, a, server, idb, message, nonce), SecretOf(c, a, ida, idb, server, true);
            && ida[0] == (if blind25 then 0x25 else 0x15)
            && (sealed.Some? <==> secret.Some?)
            && (sealed.Some? ==>
                  var box := sealed.value[1..|sealed.value| - 24];
                  && |sealed.value| == |message| + 73 && sealed.value[0] == 0
                  && sealed.value[|sealed.value| - 24..] == nonce
                  && s.open(s.hash(secret.value), nonce, box) == Some(message + c.encode(c.PublicKey(a))))
  {
    hide SecretOf, Curve.BlindedKey;
    var ida, idb := IdOf(c, blind25, a, server), IdOf(c, blind25, b, server);
    var secret, text := SecretOf(c, a, ida, idb, server, true), message + c.encode(c.PublicKey(a));
    assert c.Encodes(c.PublicKey(a));
    if secret.Some? {
      var box := s.seal(s.hash(secret.value), nonce, text);
      var sealed := [0] + box + nonce;
      assert Sealed(c, s, a, server, idb, message, nonce) == Some(sealed);
      assert sealed[1..|sealed| - 24] == box && sealed[|sealed| - 24..] == nonce;
    }
  }

  /** No message is sealed for anything but a 0x15 or 0x25 id. */
  lemma SealedRefused(c: Curve, s: Sealing, a: nat, server: seq<byte>, recipientId: seq<byte>, message: seq<byte>,
        nonce: seq<byte>)
    requires c.Lawful()
    requires |server| != 32 || |recipientId| != 33 || (recipientId[0] != 0x15 && recipientId[0] != 0x25)
    ensures Sealed(c, s, a, server, recipientId, message, nonce) == None
  {
  }

  /** Fewer than 73 bytes, or a first byte other than zero, are never opened; and whatever is opened ends in a
      key whose id is the sender's, up to the top bit of byte 31 for 0x15 ids. */
  lemma OpenedMeans(c: Curve, s: Sealing, b: nat, server: seq<byte>, senderId: seq<byte>, recipientId: seq<byte>,
        ciphertext: seq<byte>)
    requires c.Lawful() && |recipientId| > 0 && OpenedBy(c, s, b, server, senderId, recipientId, ciphertext).Some?
    ensures |ciphertext| >= 73 && ciphertext[0] == 0
    ensures var o, secret := OpenedBy(c, s, b, server, senderId, recipientId, ciphertext).value,
              ReaderSecret(c, b, server, senderId, recipientId);
            && secret.Some?
            && var n := |ciphertext| - 24;
               var buf := s.open(s.hash(secret.value), ciphertext[n..], ciphertext[1..n]);
               && buf.Some? && |buf.value| == |o.message| + 32 && buf.value[..|o.message|] == o.message
               && var x := c.decode(buf.value[|o.message|..]);
                  && x.Some? && x.value < c.order && o.senderX == c.toX(x.value)
                  && var id := FromEd(c, recipientId[0] == 0x25, x.value, server);
                     && id.Some?
                     && (senderId == id.value ||
                         (recipientId[0] != 0x25 && |id.value| == 33 &&
                          senderId == id.value[31 := FlipTop(id.value[31])]))
  {
    hide FromEd, ReaderSecret;
  }

  /** The sender's id is let through, and for 0x15 ids the one with the top bit of byte 31 changed; for
      0x25 ids no other is. */
  lemma SendersLetThrough(c: Curve, x: nat, server: seq<byte>)
    requires c.Lawful() && x < c.order
    ensures var id := FromEd(c, false, x, server);
            id.Some? ==>
              && |id.value| == 33 && SenderMatches(c, false, x, server, id.value)
              && SenderMatches(c, false, x, server, id.value[31 := FlipTop(id.value[31])])
    ensures forall senderId ::
              SenderMatches(c, true, x, server, senderId) <==> FromEd(c, true, x, server) == Some(senderId)
  {
    if FromEd(c, false, x, server).Some? {
      assert c.Encodes(c.Blind15FromEd(x, server).value);
    }
  }

  /** For a recipient's 0x15 id that was computed from the bchat id the two sides agree exactly when the
      recipient's Ed25519 key is not negative. */
  lemma Blind15ByIdAgrees(c: Curve, a: nat, b: nat, server: seq<byte>)
    requires c.Lawful() && c.PublicKey(b) != 0
    requires SharedPoint(c, false, b, Some(c.BlindedKey(false, a, server)), server).Some?
    ensures SharedPoint(c, false, a, c.Blind15FromId(c.BchatId(c.PublicKey(b)), server), server)
            == SharedPoint(c, false, b, Some(c.BlindedKey(false, a, server)), server)
            <==> !c.negative(c.PublicKey(b))
  {
    hide Curve.KeyFactor;
    var pub := c.BlindedKey(false, b, server);
    PointsAgree(c, false, a, b, server);
    NonZeroKeys(c, false, a, b, server);
    Blind15Agrees(c, b, server);
    if c.negative(c.PublicKey(b)) {
      NegativePoint(a, pub, c.order);
      OddOrder(c.Times(a, pub), c.order);
    }
  }

  // ----- the assumptions can be met

  function TinyEncoding(x: nat): (e: seq<byte>)
    ensures |e| == 32
  {
    [if x == 0 then 1 else 0] + seq(30, i => 0) + [if x == 2 then 128 else 0]
  }

  /** A group of three points. */
  function TinyCurve(): Curve {
    Curve(3, x => x == 2, x => seq(32, i => 0), id => Some(1), x => TinyEncoding(x),
          e => if e == TinyEncoding(0) then Some(0) else if e == TinyEncoding(1) then Some(1)
               else if e == TinyEncoding(2) then Some(2) else None,
          server => 1, (id, server) => 2)
  }

  lemma TinyCurveLawful()
    ensures TinyCurve().Lawful()
  {
    var c := TinyCurve();
    assert TinyEncoding(0)[0] == 1 && TinyEncoding(1)[0] == 0 && TinyEncoding(2)[0] == 0;
    assert TinyEncoding(1)[31] == 0 && TinyEncoding(2)[31] == 128;
    forall x: nat | x < 3
      ensures c.Encodes(x)
    {
      assert x == 0 || x == 1 || x == 2;
    }
    forall x: nat | 0 < x < 3
      ensures c.Mirrors(x)
    {
      assert x == 1 || x == 2;
    }
  }

  /** A negative key: the 0x15 id from the bchat id is not that of the key pair. */
  lemma NegativeKey(server: seq<byte>)
    ensures var c := TinyCurve();
            && c.Lawful() && c.negative(c.PublicKey(2))
            && c.Blind15FromId(c.BchatId(c.PublicKey(2)), server) == Some(1)
            && c.BlindedKey(false, 2, server) == 2
  {
    TinyCurveLawful();
    Blind15Agrees(TinyCurve(), 2, server);
  }

  function PlainSealing(): Sealing {
    Sealing(secret => [], (key, nonce, text) => text + seq(16, i => 0),
            (key, nonce, box) => if |box| < 16 then None else Some(box[..|box| - 16]))
  }

  lemma PlainSealingOpens()
    ensures PlainSealing().Opens()
  {
    forall text: seq<byte>
      ensures (text + seq(16, i => 0))[..|text|] == text
    {
    }
  }
}
