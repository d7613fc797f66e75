/** Messages to communities (src/bchat_protocol.cpp): padded, and signed over their padded form, with
    the signature put into the message that was signed. */
module Community {
  import opened Arithmetic
  import opened Bytes
  import opened Options

  const PADDING: nat := 160
  const TERMINATOR: byte := 0x80
  const SIGNATURE: nat := 64

  /** A terminator and zeros up to a multiple of 160; a whole block of zeros where none were needed. */
  function Pad(payload: seq<byte>): (padded: seq<byte>)
    ensures |padded| % 160 == 0 && |payload| + 2 <= |padded| <= |payload| + 161
    ensures padded[..|payload|] == payload && padded[|payload|] == 0x80
    ensures forall i :: |payload| < i < |padded| ==> padded[i] == 0
  {
    var size := |payload| + 1;
    DivUnique(size + (PADDING - size % PADDING), PADDING, size / PADDING + 1, 0);
    payload + [TERMINATOR] + Zeros(PADDING - size % PADDING)
  }

  /** The zeros at the end are dropped, and a terminator before them. */
  function Unpad(payload: seq<byte>): seq<byte> {
    if payload == [] then []
    else
      var n := |payload| - 1;
      if payload[n] == 0 then Unpad(payload[..n])
      else if payload[n] == TERMINATOR then payload[..n]
      else payload
  }

  method UnpadMessage(payload: seq<byte>) returns (r: seq<byte>)
    ensures r == Unpad(payload)
  {
    var size := |payload|;
    assert payload[..size] == payload;
    while size > 0
      invariant 0 <= size <= |payload|
      invariant Unpad(payload[..size]) == Unpad(payload)
    {
      var ch := payload[size - 1];
      assert payload[..size][..size - 1] == payload[..size - 1];
      if ch != 0 && ch != TERMINATOR {
        return payload[..size];
      }
      size := size - 1;
      if ch == TERMINATOR {
        return payload[..size];
      }
    }
    r := payload[..size];
  }

  lemma {:induction false} UnpadZeros(payload: seq<byte>, n: nat)
    ensures Unpad(payload + Zeros(n)) == Unpad(payload)
  {
    if n == 0 {
      assert payload + Zeros(n) == payload;
    } else {
      var s := payload + Zeros(n);
      assert s[..|s| - 1] == payload + Zeros(n - 1);
      UnpadZeros(payload, n - 1);
    }
  }

  /** Padding is undone, whatever the payload ends in. */
  lemma UnpadPad(payload: seq<byte>)
    ensures Unpad(Pad(payload)) == payload
  {
    UnpadZeros(payload + [TERMINATOR], PADDING - (|payload| + 1) % PADDING);
    assert (payload + [TERMINATOR])[..|payload|] == payload;
  }

  /** What is dropped: the zeros at the end, and one terminator before them; what is left does not end in a
      zero, and not in a terminator either unless one was dropped. */
  lemma {:induction false} UnpadExactly(payload: seq<byte>) returns (n: nat, terminated: bool)
    ensures payload == Unpad(payload) + (if terminated then [0x80] else []) + Zeros(n)
    ensures !terminated ==> Unpad(payload) == [] || Unpad(payload)[|Unpad(payload)| - 1] !in {0, 0x80}
  {
    if payload == [] {
      n, terminated := 0, false;
    } else {
      var m := |payload| - 1;
      if payload[m] == 0 {
        n, terminated := UnpadExactly(payload[..m]);
        assert Zeros(n + 1) == Zeros(n) + [0];
        n := n + 1;
      } else {
        n, terminated := 0, payload[m] == TERMINATOR;
      }
    }
  }

  /** Bytes come out unchanged exactly when they do not end in what looks like padding. */
  lemma {:induction false} UnpadKeeps(payload: seq<byte>)
    ensures |Unpad(payload)| <= |payload|
    ensures Unpad(payload) == payload <==>
            payload == [] || payload[|payload| - 1] !in {0, 0x80}
  {
    if payload == [] {
    } else {
      UnpadKeeps(payload[..|payload| - 1]);
    }
  }

  // ----- messages

  /** A message and the signature it carries, if any; the rest of the message is of any type. */
  datatype Content<+B> = Content(body: B, sig: Option<seq<byte>>)

  datatype Envelope = Envelope(content: seq<byte>, sig: Option<seq<byte>>)

  /** The serialisation of messages.  A reader may accept bytes that a writer would not write. */
  datatype Codec<!B> = Codec(
    parse: seq<byte> -> Option<Content<B>>,
    serialise: Content<B> -> seq<byte>,
    envelope: seq<byte> -> Option<Envelope>)
  {
    ghost predicate ReadsBack(m: Content<B>) {
      parse(serialise(m)) == Some(m)
    }
  }

  /** What is sent for `content`: signed over its padded form when there is a signing key. */
  method Encode<B>(codec: Codec<B>, content: seq<byte>,
          sign: Option<seq<byte> -> seq<byte>>) returns (r: Option<seq<byte>>)
    ensures r == Encoded(codec, content, sign)
  {
    if sign.None? {
      return Some(Pad(content));
    }
    var parsed := codec.parse(content);
    if parsed.None? || parsed.value.sig.Some? {
      return None;
    }
    var buffer := Pad(content);
    var sig := sign.value(buffer);
    var withSig := parsed.value.(sig := Some(sig));
    buffer := codec.serialise(withSig);
    buffer := Pad(buffer);
    return Some(buffer);
  }

  function Encoded<B>(codec: Codec<B>, content: seq<byte>, sign: Option<seq<byte> -> seq<byte>>): Option<seq<byte>> {
    match sign
    case None => Some(Pad(content))
    case Some(signer) =>
      match codec.parse(content)
      case None => None
      case Some(m) =>
        if m.sig.Some? then None else Some(Pad(codec.serialise(m.(sig := Some(signer(Pad(content)))))))
  }

  /** A decoded message: its bytes without padding, and the signature with the bytes it is checked over. */
  datatype Decoded<+B> = Decoded(plaintext: seq<byte>, message: Content<B>, sig: Option<seq<byte>>, checked: seq<byte>)

  function DecodedFrom<B>(codec: Codec<B>, plaintext: seq<byte>, envelope: Option<Envelope>): Option<Decoded<B>> {
    match codec.parse(Unpad(plaintext))
    case None => None
    case Some(m) =>
      var outer := if envelope.Some? then envelope.value.sig else None;
      var sig := if m.sig.Some? then m.sig else outer;
      if m.sig.Some? && outer.Some? then None
      else if sig.Some? && |sig.value| != SIGNATURE then None
      else Some(Decoded(Unpad(plaintext), m, sig,
                        if envelope.Some? then plaintext else Pad(codec.serialise(m.(sig := None)))))
  }

  /** What a payload decodes to, as an envelope or as bare content. */
  function DecodedOf<B>(codec: Codec<B>, payload: seq<byte>): Option<Decoded<B>> {
    match codec.envelope(payload)
    case None => DecodedFrom(codec, payload, None)
    case Some(e) => DecodedFrom(codec, e.content, Some(e))
  }

  method Decode<B>(codec: Codec<B>, payload: seq<byte>) returns (r: Option<Decoded<B>>)
    ensures r == DecodedOf(codec, payload)
  {
    var envelope := codec.envelope(payload);
    var sig, plaintext := None, payload;
    if envelope.Some? {
      plaintext := envelope.value.content;
      sig := envelope.value.sig;
    }
    var unpadded := UnpadMessage(plaintext);
    var content := codec.parse(unpadded);
    if content.None? {
      return None;
    }
    if content.value.sig.Some? {
      if sig.Some? {
        return None;
      }
      sig := content.value.sig;
    }
    if sig.Some? && |sig.value| != SIGNATURE {
      return None;
    }
    var checked := plaintext;
    if envelope.None? {
      var withoutSig := content.value.(sig := None);
      checked := Pad(codec.serialise(withoutSig));
    }
    return Some(Decoded(unpadded, content.value, sig, checked));
  }

  /** The ways in which `content`, signed over its padded form, reaches a decoder: as the encoder sends
      it, in an envelope that carries the signature, or as the encoder sends it in an envelope without one. */
  ghost predicate Carries<B>(codec: Codec<B>, payload: seq<byte>, content: seq<byte>, signer: seq<byte> -> seq<byte>) {
    var encoded := Encoded(codec, content, Some(signer));
    match codec.envelope(payload)
    case None => encoded == Some(payload)
    case Some(e) =>
      if e.sig.Some? then e == Envelope(Pad(content), Some(signer(Pad(content))))
      else encoded == Some(e.content)
  }

  /** On each of these ways the decoder gets the message and its signature.  It checks the signature over
      the bytes that were signed: always when an envelope carries it; never when an envelope does not;
      and without an envelope exactly when the content was written as the serialiser writes it. */
  lemma SignedBytesAgree<B>(codec: Codec<B>, payload: seq<byte>, content: seq<byte>, signer: seq<byte> -> seq<byte>)
    requires codec.parse(content).Some? && codec.parse(content).value.sig.None?
    requires |signer(Pad(content))| == 64
    requires var m := codec.parse(content).value; codec.ReadsBack(m.(sig := Some(signer(Pad(content)))))
    requires Carries(codec, payload, content, signer)
    ensures var m, sig, d := codec.parse(content).value, signer(Pad(content)), DecodedOf(codec, payload);
            && d.Some? && d.value.sig == Some(sig)
            && d.value.message.body == m.body
            && (d.value.checked == Pad(content) <==>
                match codec.envelope(payload)
                case None => codec.serialise(m) == content
                case Some(e) => e.sig.Some?)
  {
    hide Pad, Unpad;
    var m, sig := codec.parse(content).value, signer(Pad(content));
    var signed := codec.serialise(m.(sig := Some(sig)));
    UnpadPad(signed);
    UnpadPad(content);
    UnpadPad(codec.serialise(m));
    assert m.(sig := Some(sig)).(sig := None) == m;
    assert signed != content;
  }

  /** What an envelope around padded content decodes to: refused when both are signed or the signature
      has a wrong size; otherwise whichever signature there is, checked over the padded content as it came. */
  lemma EnvelopeDecoded<B>(codec: Codec<B>, payload: seq<byte>, content: seq<byte>, outer: Option<seq<byte>>)
    requires codec.parse(content).Some? && codec.envelope(payload) == Some(Envelope(Pad(content), outer))
    ensures var m, d := codec.parse(content).value, DecodedOf(codec, payload);
            var sig := if m.sig.Some? then m.sig else outer;
            && (d.Some? <==> (m.sig.None? || outer.None?) && (sig.Some? ==> |sig.value| == 64))
            && (d.Some? ==> d.value == Decoded(content, m, sig, Pad(content)))
  {
    hide Pad, Unpad;
    UnpadPad(content);
  }

  /** Without a signing key any content is sent padded.  With one it is refused exactly when it cannot be
      read or is signed already; otherwise what is sent, unpadded, is the message with the signature over the
      padded content. */
  lemma EncodedIs<B>(codec: Codec<B>, content: seq<byte>, signer: seq<byte> -> seq<byte>)
    ensures Encoded(codec, content, None) == Some(Pad(content))
    ensures var m, sent := codec.parse(content), Encoded(codec, content, Some(signer));
            && (sent.None? <==> m.None? || m.value.sig.Some?)
            && (sent.Some? ==> Unpad(sent.value) == codec.serialise(Content(m.value.body, Some(signer(Pad(content))))))
  {
    hide Pad, Unpad;
    if codec.parse(content).Some? {
      UnpadPad(codec.serialise(Content(codec.parse(content).value.body, Some(signer(Pad(content))))));
    }
  }

  /** Bare content is refused exactly when it cannot be read or its signature is not 64 bytes long. */
  lemma BareDecoded<B>(codec: Codec<B>, payload: seq<byte>)
    requires codec.envelope(payload).None?
    ensures var m, d := codec.parse(Unpad(payload)), DecodedOf(codec, payload);
            && (d.None? <==> m.None? || (m.value.sig.Some? && |m.value.sig.value| != 64))
            && (d.Some? ==>
                  && d.value.message == m.value && d.value.sig == m.value.sig
                  && d.value.plaintext == Unpad(payload))
  {
  }

  /** An unsigned message that cannot be taken for an envelope comes back byte for byte. */
  lemma UnsignedRoundTrip<B>(codec: Codec<B>, payload: seq<byte>, content: seq<byte>)
    requires codec.parse(content).Some? && codec.parse(content).value.sig.None?
    requires Encoded(codec, content, None) == Some(payload) && codec.envelope(payload).None?
    ensures var d := DecodedOf(codec, payload);
            d.Some? && d.value.plaintext == content && d.value.sig == None
            && d.value.message == codec.parse(content).value
  {
    hide Pad, Unpad;
    UnpadPad(content);
  }

  // ----- a signature that is not checked over what was signed

  /** Messages of bytes: a marker, the signature if there is one, and the body.  There are two markers for
      messages without a signature, one of which is only read; an envelope without a signature has a marker
      of its own. */
  function PlainCodec(): Codec<seq<byte>> {
    Codec(
      (bytes: seq<byte>) =>
        if |bytes| >= 1 && (bytes[0] == 1 || bytes[0] == 4) then Some(Content(bytes[1..], None))
        else if |bytes| >= 1 + SIGNATURE && bytes[0] == 2 then
          Some(Content(bytes[1 + SIGNATURE..], Some(bytes[1..1 + SIGNATURE])))
        else None,
      (m: Content<seq<byte>>) => if m.sig.None? then [1] + m.body else [2] + m.sig.value + m.body,
      (bytes: seq<byte>) => if |bytes| >= 1 && bytes[0] == 3 then Some(Envelope(bytes[1..], None)) else None)
  }

  lemma PlainCodecReadsBack(m: Content<seq<byte>>)
    requires m.sig.None? || |m.sig.value| == SIGNATURE
    ensures PlainCodec().ReadsBack(m)
  {
    var bytes := PlainCodec().serialise(m);
    if m.sig.None? {
      assert bytes[1..] == m.body;
    } else {
      assert bytes[1..1 + SIGNATURE] == m.sig.value && bytes[1 + SIGNATURE..] == m.body;
    }
  }

  /** Canonical content, signed, in an envelope that carries no signature: the signature is taken, and
      checked over bytes that contain it. */
  lemma SignatureNotChecked(content: seq<byte>, signer: seq<byte> -> seq<byte>, payload: seq<byte>)
    requires content == [1] && signer(Pad(content)) == Zeros(SIGNATURE)
    requires payload == [3] + Pad([2] + Zeros(SIGNATURE))
    ensures var codec := PlainCodec();
            && codec.parse(content).Some? && codec.serialise(codec.parse(content).value) == content
            && Carries(codec, payload, content, signer)
            && DecodedOf(codec, payload).Some? && DecodedOf(codec, payload).value.checked != Pad(content)
  {
    hide Pad, Unpad;
    var codec, m := PlainCodec(), Content([], None);
    assert content[1..] == [] && [1] + [] == content;
    PlainCodecReadsBack(m.(sig := Some(Zeros(SIGNATURE))));
    assert [2] + Zeros(SIGNATURE) + [] == [2] + Zeros(SIGNATURE);
    assert payload[1..] == Pad([2] + Zeros(SIGNATURE));
    SignedBytesAgree(codec, payload, content, signer);
  }

  /** Content that is not written as the serialiser writes it: without an envelope the signature is checked
      over other bytes than those that were signed. */
  lemma NotCanonical(content: seq<byte>, signer: seq<byte> -> seq<byte>, payload: seq<byte>)
    requires content == [4] && signer(Pad(content)) == Zeros(SIGNATURE)
    requires payload == Pad([2] + Zeros(SIGNATURE))
    ensures var codec := PlainCodec();
            && codec.envelope(payload).None? && Carries(codec, payload, content, signer)
            && DecodedOf(codec, payload).Some? && DecodedOf(codec, payload).value.checked != Pad(content)
  {
    var codec, m := PlainCodec(), Content([], None);
    assert payload[0] == 2;
    hide Pad, Unpad;
    assert content[1..] == [] && [1] + [] == [1];
    PlainCodecReadsBack(m.(sig := Some(Zeros(SIGNATURE))));
    assert [2] + Zeros(SIGNATURE) + [] == [2] + Zeros(SIGNATURE);
    SignedBytesAgree(codec, payload, content, signer);
  }
}
