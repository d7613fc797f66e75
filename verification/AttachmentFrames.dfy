/** What an encrypted attachment holds, independently of how it is read: the frames its bytes
    decrypt to, the text they spell, and the data behind the padding. */
module AttachmentFrames {
  import opened Options
  import opened Bytes
  import opened AttachmentSizes
  import opened SecretStream
  import opened AttachmentStream

  /** The frames of a stream of bytes, when every chunk can be decrypted. */
  function FramesOf<S>(c: Cipher<S>, st: S, body: seq<byte>): Option<seq<Frame>>
    decreases |body|
  {
    if body == [] then Some([])
    else
      var n := ChunkLength(body);
      if n < OVERHEAD then None
      else
        match c.pull(st, body[..n])
        case None => None
        case Some(p) =>
          match FramesOf(c, p.st, body[n..])
          case None => None
          case Some(rest) => Some([Frame(p.plain, p.final)] + rest)
  }

  function ChunkLength(body: seq<byte>): (n: nat)
    ensures n <= |body| && (body != [] ==> n > 0)
  {
    if |body| < TOTAL then |body| else TOTAL
  }

  /** The position of the first byte that is not zero. */
  function PadEnd(text: seq<byte>): (i: nat)
    ensures i <= |text|
  {
    if text == [] || text[0] != 0 then 0 else 1 + PadEnd(text[1..])
  }

  lemma {:induction false} PadEndIsFirst(text: seq<byte>)
    ensures forall j :: 0 <= j < PadEnd(text) ==> text[j] == 0
    ensures PadEnd(text) < |text| ==> text[PadEnd(text)] != 0
  {
    if text == [] || text[0] != 0 {
    } else {
      PadEndIsFirst(text[1..]);
      assert forall j :: 0 < j < PadEnd(text) ==> text[j] == text[1..][j - 1];
    }
  }

  lemma {:induction false} PadEndConcat(a: seq<byte>, b: seq<byte>)
    ensures PadEnd(a + b) == if PadEnd(a) < |a| then PadEnd(a) else |a| + PadEnd(b)
  {
    if a == [] {
      assert a + b == b;
    } else if a[0] == 0 {
      assert (a + b)[1..] == a[1..] + b;
      PadEndConcat(a[1..], b);
    }
  }

  lemma {:induction false} PadEndZeros(n: nat)
    ensures PadEnd(Zeros(n)) == n
  {
    if n <= 0 {
    } else {
      assert Zeros(n)[1..] == Zeros(n - 1);
      PadEndZeros(n - 1);
    }
  }

  /** The data behind the padding; no data when the padding never ends. */
  function Depad(text: seq<byte>): Option<seq<byte>> {
    var i := PadEnd(text);
    if i == |text| then Some([])
    else if text[i] == 1 then Some(text[i + 1..])
    else None
  }

  lemma DropSum<T>(a: seq<T>, b: seq<T>, k: nat)
    requires k <= |a| + |b|
    ensures (a + b)[k..] == if k <= |a| then a[k..] + b else b[k - |a|..]
  {
  }

  lemma DepadIs(text: seq<byte>, i: nat, rest: seq<byte>)
    requires PadEnd(text) == i < |text| && text[i + 1..] == rest
    ensures Depad(text) == if text[i] == 1 then Some(rest) else None
  {
    hide PadEnd;
  }

  lemma NeverPadded(text: seq<byte>)
    requires PadEnd(text) == |text|
    ensures Depad(text) == Some([])
  {
    hide PadEnd;
  }

  lemma PadEndsInFirst(a: seq<byte>, b: seq<byte>, i: nat)
    requires i == PadEnd(a) < |a|
    ensures Depad(a + b) == if a[i] == 1 then Some(a[i + 1..] + b) else None
  {
    hide PadEnd, Depad;
    PadEndConcat(a, b);
    DropSum(a, b, i + 1);
    DepadIs(a + b, i, a[i + 1..] + b);
  }

  lemma PadEndsInSecond(a: seq<byte>, b: seq<byte>, j: nat)
    requires PadEnd(a) == |a| && j == PadEnd(b)
    ensures Depad(a + b) == Depad(b)
  {
    hide PadEnd, Depad;
    PadEndConcat(a, b);
    if j < |b| {
      DropSum(a, b, |a| + j + 1);
      DepadIs(a + b, |a| + j, b[j + 1..]);
      DepadIs(b, j, b[j + 1..]);
    } else {
      NeverPadded(a + b);
      NeverPadded(b);
    }
  }

  /** Where the padding ends within `a`, the data is the rest of `a` and all of `b`. */
  lemma DepadConcat(a: seq<byte>, b: seq<byte>)
    ensures Depad(a + b) == (
              var i := PadEnd(a);
              if i == |a| then Depad(b) else if a[i] == 1 then Some(a[i + 1..] + b) else None)
  {
    hide PadEnd, Depad;
    if PadEnd(a) < |a| {
      PadEndsInFirst(a, b, PadEnd(a));
    } else {
      PadEndsInSecond(a, b, PadEnd(b));
    }
  }

  lemma DepadPadded(padding: nat, data: seq<byte>)
    requires padding >= 1
    ensures PadEnd(Padded(padding, data)) == padding - 1
    ensures Depad(Padded(padding, data)) == Some(data)
  {
    var tail := [1] + data;
    assert Padded(padding, data) == Zeros(padding - 1) + tail;
    PadEndZeros(padding - 1);
    PadEndConcat(Zeros(padding - 1), tail);
    assert Padded(padding, data)[padding..] == data;
  }

  /** FINAL is on the last frame and on no other. */
  ghost predicate FinalLast(fs: seq<Frame>) {
    fs != [] && forall i :: 0 <= i < |fs| ==> (fs[i].final <==> i == |fs| - 1)
  }

  lemma FinalLastCons(f: Frame, rest: seq<Frame>)
    ensures FinalLast([f] + rest) <==> if rest == [] then f.final else !f.final && FinalLast(rest)
  {
    var fs := [f] + rest;
    if rest != [] && !f.final && FinalLast(rest) {
      assert forall i :: 0 < i < |fs| ==> fs[i] == rest[i - 1];
    }
    if FinalLast(fs) && rest != [] {
      assert forall i :: 0 <= i < |rest| ==> rest[i] == fs[i + 1];
      assert fs[0] == f;
    }
    assert fs[0] == f;
  }

  /** Every frame but the last one is full. */
  ghost predicate WellCut(fs: seq<Frame>) {
    forall i :: 0 <= i < |fs| ==>
      if i < |fs| - 1 then |fs[i].plain| == CHUNK else |fs[i].plain| <= CHUNK
  }

  /** Decrypting what was encrypted gives the frames back. */
  lemma {:induction false} FramesOfPushed<S(!new)>(c: Cipher<S>, st: S, fs: seq<Frame>)
    requires Inverts(c) && WellCut(fs)
    ensures FramesOf(c, st, Pushed(c, st, fs)) == Some(fs)
    decreases |fs|
  {
    if fs == [] {
    } else {
      var f := fs[0];
      var (st', chunk) := c.push(st, f.plain, f.final);
      var rest := Pushed(c, st', fs[1..]);
      FramesOfPushed(c, st', fs[1..]);
      var body := chunk + rest;
      assert |fs| == 1 ==> rest == [];
      assert ChunkLength(body) == |chunk|;
      assert body[..|chunk|] == chunk && body[|chunk|..] == rest;
      assert fs == [f] + fs[1..];
    }
  }

  lemma {:induction false} ChunkedShape(text: seq<byte>)
    requires text != []
    ensures WellCut(Chunked(text)) && FinalLast(Chunked(text))
    ensures forall f :: f in Chunked(text) ==> f.plain != []
  {
    if |text| <= CHUNK {
    } else {
      ChunkedShape(text[CHUNK..]);
      var f, rest := Frame(text[..CHUNK], false), Chunked(text[CHUNK..]);
      FinalLastCons(f, rest);
      var fs := [f] + rest;
      assert forall i :: 0 < i < |fs| ==> fs[i] == rest[i - 1];
    }
  }

  /** The frames of an encrypted attachment, whatever the padding and the data. */
  lemma EncryptedFrames<S(!new)>(c: Cipher<S>, nonce: seq<byte>, padding: nat, data: seq<byte>)
    requires Inverts(c) && |nonce| == HEADER && padding >= 1
    ensures var enc := Encrypted(c, nonce, padding, data);
            && |enc| >= 25 && enc[0] == 'S' as int && enc[1..25] == nonce
            && FramesOf(c, c.init(nonce), enc[25..]) == Some(Chunked(Padded(padding, data)))
  {
    hide Inverts;
    var fs := Chunked(Padded(padding, data));
    var enc := Encrypted(c, nonce, padding, data);
    ChunkedShape(Padded(padding, data));
    FramesOfPushed(c, c.init(nonce), fs);
    assert enc[1..25] == nonce;
    assert enc[25..] == Pushed(c, c.init(nonce), fs);
  }
}
