/** The encrypted form of an attachment: the byte 'S', a header, and the padded data cut into
    chunks that are pushed through the stream cipher (`encrypt_impl` and the file writer). */
module AttachmentStream {
  import opened Bytes
  import opened AttachmentSizes
  import opened SecretStream

  datatype Frame = Frame(plain: seq<byte>, final: bool)

  /** The plaintext of the stream: zeros, a one, and the data. */
  function Padded(padding: nat, data: seq<byte>): seq<byte>
    requires padding >= 1
  {
    Zeros(padding - 1) + [1] + data
  }

  /** Cutting into chunks; only the last one is FINAL. */
  function Chunked(text: seq<byte>): (fs: seq<Frame>)
    ensures fs != []
  {
    if |text| <= CHUNK then [Frame(text, true)]
    else [Frame(text[..CHUNK], false)] + Chunked(text[CHUNK..])
  }

  function Text(fs: seq<Frame>): seq<byte> {
    if fs == [] then [] else fs[0].plain + Text(fs[1..])
  }

  function Pushed<S>(c: Cipher<S>, st: S, fs: seq<Frame>): seq<byte> {
    if fs == [] then []
    else
      var (st', chunk) := c.push(st, fs[0].plain, fs[0].final);
      chunk + Pushed(c, st', fs[1..])
  }

  function StateAfter<S>(c: Cipher<S>, st: S, fs: seq<Frame>): S {
    if fs == [] then st else StateAfter(c, c.push(st, fs[0].plain, fs[0].final).0, fs[1..])
  }

  /** Everything encryption writes. */
  function Encrypted<S>(c: Cipher<S>, nonce: seq<byte>, padding: nat, data: seq<byte>): seq<byte>
    requires padding >= 1
  {
    ['S' as int] + nonce + Pushed(c, c.init(nonce), Chunked(Padded(padding, data)))
  }

  lemma {:induction false} PushedSnoc<S>(c: Cipher<S>, st: S, fs: seq<Frame>, f: Frame)
    ensures Pushed(c, st, fs + [f]) == Pushed(c, st, fs) + c.push(StateAfter(c, st, fs), f.plain, f.final).1
    ensures StateAfter(c, st, fs + [f]) == c.push(StateAfter(c, st, fs), f.plain, f.final).0
    decreases |fs|
  {
    if fs == [] {
      assert fs + [f] == [f];
      assert Pushed(c, st, [f]) == c.push(st, f.plain, f.final).1 + [];
    } else {
      var (st', chunk) := c.push(st, fs[0].plain, fs[0].final);
      assert (fs + [f])[1..] == fs[1..] + [f];
      PushedSnoc(c, st', fs[1..], f);
    }
  }

  lemma PushedNone<S>(c: Cipher<S>, st: S)
    ensures Pushed(c, st, []) == [] && StateAfter(c, st, []) == st
  {
  }

  /** The size of the stream for `n` bytes of plaintext. */
  function StreamSize(n: nat): nat {
    n + Pieces(n, CHUNK) * OVERHEAD
  }

  lemma StreamSizeStep(n: nat)
    ensures n > CHUNK ==> StreamSize(n) == TOTAL + StreamSize(n - CHUNK)
    ensures 1 <= n <= CHUNK ==> StreamSize(n) == n + OVERHEAD
  {
    if n > CHUNK {
      ChunkBounds(n - CHUNK);
      ChunkCount(n, Pieces(n - CHUNK, CHUNK) + 1);
    } else if n >= 1 {
      ChunkCount(n, 1);
    }
  }

  lemma {:induction false} ChunkedText(text: seq<byte>)
    ensures Text(Chunked(text)) == text
  {
    if |text| > CHUNK {
      ChunkedText(text[CHUNK..]);
      assert Chunked(text)[1..] == Chunked(text[CHUNK..]);
      assert text == text[..CHUNK] + text[CHUNK..];
    } else {
      assert Chunked(text)[1..] == [];
      assert text + [] == text;
    }
  }

  // ----- writing into a buffer of exactly the right size

  method WriteAt(out: array<byte>, pos: nat, chunk: seq<byte>)
    requires pos + |chunk| <= out.Length
    modifies out
    ensures out[..pos + |chunk|] == old(out[..pos]) + chunk
  {
    for i := 0 to |chunk|
      invariant out[..pos] == old(out[..pos])
      invariant out[pos..pos + i] == chunk[..i]
    {
      out[pos + i] := chunk[i];
      assert out[pos..pos + i + 1] == out[pos..pos + i] + [chunk[i]];
    }
    assert out[..pos + |chunk|] == out[..pos] + out[pos..pos + |chunk|];
    assert chunk[..|chunk|] == chunk;
  }

  /** Pushes one chunk and writes it behind what is there. */
  method PushChunk<S(!new)>(out: array<byte>, pos: nat, c: Cipher<S>, st: S, f: Frame, ghost st0: S,
          ghost done: seq<Frame>)
    returns (st': S, pos': nat)
    requires Inverts(c) && pos + |f.plain| + OVERHEAD <= out.Length
    requires st == StateAfter(c, st0, done)
    modifies out
    ensures pos' == pos + |f.plain| + OVERHEAD
    ensures st' == StateAfter(c, st0, done + [f])
    ensures forall head :: old(out[..pos]) == head + Pushed(c, st0, done) ==>
              out[..pos'] == head + Pushed(c, st0, done + [f])
  {
    var (next, chunk) := c.push(st, f.plain, f.final);
    PushedSnoc(c, st0, done, f);
    WriteAt(out, pos, chunk);
    st', pos' := next, pos + |chunk|;
    forall head | old(out[..pos]) == head + Pushed(c, st0, done)
      ensures out[..pos'] == head + Pushed(c, st0, done + [f])
    {
      assert head + Pushed(c, st0, done) + chunk == head + (Pushed(c, st0, done) + chunk);
    }
  }

  // ----- the padding comes first

  /** A full chunk of zeros, with more padding in the next one. */
  lemma PaddingChunk(remaining: nat, data: seq<byte>)
    requires remaining > CHUNK
    ensures Chunked(Padded(remaining, data)) == [Frame(Zeros(CHUNK), false)] + Chunked(Padded(remaining - CHUNK, data))
    ensures StreamSize(remaining + |data|) == TOTAL + StreamSize(remaining - CHUNK + |data|)
  {
    var text := Padded(remaining, data);
    assert text[..CHUNK] == Zeros(CHUNK);
    assert text[CHUNK..] == Padded(remaining - CHUNK, data);
    StreamSizeStep(remaining + |data|);
  }

  /** The last chunk of padding, filled up with `take` bytes of data. */
  lemma LastPaddingChunk(remaining: nat, data: seq<byte>, take: nat)
    requires 1 <= remaining <= CHUNK && take <= |data|
    requires take == if CHUNK - remaining < |data| then CHUNK - remaining else |data|
    ensures take < |data| ==>
              && Chunked(Padded(remaining, data)) ==
                 [Frame(Padded(remaining, data[..take]), false)] + Chunked(data[take..])
              && StreamSize(remaining + |data|) == TOTAL + StreamSize(|data| - take)
    ensures take == |data| ==>
              && Chunked(Padded(remaining, data)) == [Frame(Padded(remaining, data[..take]), true)]
              && StreamSize(remaining + |data|) == remaining + take + OVERHEAD
  {
    var text := Padded(remaining, data);
    StreamSizeStep(remaining + |data|);
    if take < |data| {
      assert text[..CHUNK] == Padded(remaining, data[..take]);
      assert text[CHUNK..] == data[take..];
    } else {
      assert data[..take] == data;
    }
  }

  /** A chunk of data after the padding. */
  lemma DataChunk(data: seq<byte>, pos: nat, end: nat)
    requires pos < |data| && end == if pos + CHUNK < |data| then pos + CHUNK else |data|
    ensures end < |data| ==>
              && Chunked(data[pos..]) == [Frame(data[pos..end], false)] + Chunked(data[end..])
              && StreamSize(|data| - pos) == TOTAL + StreamSize(|data| - end)
    ensures end == |data| ==>
              && Chunked(data[pos..]) == [Frame(data[pos..end], true)]
              && StreamSize(|data| - pos) == end - pos + OVERHEAD
  {
    StreamSizeStep(|data| - pos);
    if end < |data| {
      assert data[pos..][..CHUNK] == data[pos..end];
      assert data[pos..][CHUNK..] == data[end..];
    } else {
      assert data[pos..end] == data[pos..];
    }
  }

  /** What is still to be written while padding remains, and afterwards. */
  ghost function StillToCome(remaining: nat, data: seq<byte>, inpos: nat): seq<Frame>
    requires inpos <= |data|
  {
    if remaining > 0 then Chunked(Padded(remaining, data))
    else if inpos < |data| then Chunked(data[inpos..]) else []
  }

  ghost function SizeToCome(remaining: nat, data: seq<byte>, inpos: nat): nat
    requires inpos <= |data|
  {
    StreamSize(remaining + |data| - inpos)
  }

  lemma BufferSize(n: nat)
    requires Padding(n) >= 1
    ensures EncryptedSize(n) == 25 + StreamSize(Padding(n) + n)
  {
  }

  /** Encryption into memory.  The buffer of `EncryptedSize` bytes is filled to its last byte. */
  method EncryptImpl<S(!new)>(out: array<byte>, data: seq<byte>, c: Cipher<S>, nonce: seq<byte>)
    requires Inverts(c) && |nonce| == HEADER && Padding(|data|) >= 1 && out.Length == EncryptedSize(|data|)
    modifies out
    ensures out[..] == Encrypted(c, nonce, Padding(|data|), data)
  {
    hide Padding, EncryptedSize, StreamSize, Chunked, Pushed, StateAfter, Inverts;
    var padding: nat := Padding(|data|);
    BufferSize(|data|);
    ghost var head := ['S' as int] + nonce;
    WriteAt(out, 0, ['S' as int] + nonce);
    var st := c.init(nonce);
    ghost var st0, target := st, Chunked(Padded(padding, data));
    ghost var frames: seq<Frame> := [];
    PushedNone(c, st0);
    var outpos: nat, inpos: nat, remaining: nat, done := 25, 0, padding, false;
    assert head + Pushed(c, st0, frames) == head;
    while remaining > 0
      invariant outpos <= out.Length && inpos <= |data|
      invariant out[..outpos] == head + Pushed(c, st0, frames) && st == StateAfter(c, st0, frames)
      invariant frames + StillToCome(remaining, data, inpos) == target
      invariant remaining > 0 ==> inpos == 0 && !done
      invariant done <==> remaining == 0 && inpos == |data|
      invariant out.Length == outpos + if done then 0 else SizeToCome(remaining, data, inpos)
    {
      var buf, tag := [], false;
      if remaining > CHUNK {
        PaddingChunk(remaining, data);
        buf := Zeros(CHUNK);
        remaining := remaining - CHUNK;
      } else {
        var take := if CHUNK - remaining < |data| then CHUNK - remaining else |data|;
        LastPaddingChunk(remaining, data, take);
        buf := Zeros(remaining - 1) + [1] + data[..take];
        inpos, remaining := take, 0;
        if inpos == |data| {
          tag, done := true, true;
        }
      }
      ghost var f := Frame(buf, tag);
      assert frames + [f] + StillToCome(remaining, data, inpos) == target;
      st, outpos := PushChunk(out, outpos, c, st, Frame(buf, tag), st0, frames);
      frames := frames + [f];
    }
    while !done
      invariant outpos <= out.Length && inpos <= |data|
      invariant out[..outpos] == head + Pushed(c, st0, frames) && st == StateAfter(c, st0, frames)
      invariant frames + StillToCome(0, data, inpos) == target
      invariant done <==> inpos == |data|
      invariant out.Length == outpos + if done then 0 else SizeToCome(0, data, inpos)
      decreases |data| - inpos
    {
      var end := if inpos + CHUNK < |data| then inpos + CHUNK else |data|;
      DataChunk(data, inpos, end);
      var f := Frame(data[inpos..end], end == |data|);
      inpos := end;
      assert frames + [f] + StillToCome(0, data, inpos) == target;
      st, outpos := PushChunk(out, outpos, c, st, f, st0, frames);
      frames := frames + [f];
      done := end == |data|;
    }
    assert frames + [] == frames;
    assert out[..] == out[..outpos];
  }

  lemma PaddingOfNothing(n: nat)
    requires n == 0
    ensures Padding(n) <= CHUNK
  {
    TinySize(n);
  }

  /** Pushes one chunk and appends it to the file. */
  method AppendChunk<S>(written: seq<byte>, c: Cipher<S>, st: S, f: Frame, ghost head: seq<byte>, ghost st0: S,
          ghost done: seq<Frame>)
    returns (st': S, written': seq<byte>)
    requires written == head + Pushed(c, st0, done) && st == StateAfter(c, st0, done)
    ensures written' == head + Pushed(c, st0, done + [f]) && st' == StateAfter(c, st0, done + [f])
  {
    hide Pushed, StateAfter;
    var (next, chunk) := c.push(st, f.plain, f.final);
    PushedSnoc(c, st0, done, f);
    assert head + Pushed(c, st0, done) + chunk == head + (Pushed(c, st0, done) + chunk);
    st', written' := next, written + chunk;
  }

  /** Encryption straight into a file, which takes the FINAL tag from what is left of the data alone:
      for empty data that is right only because the padding then fits one chunk. */
  method EncryptToFile<S>(data: seq<byte>, c: Cipher<S>, nonce: seq<byte>) returns (written: seq<byte>)
    requires |nonce| == HEADER && Padding(|data|) >= 1
    ensures written == Encrypted(c, nonce, Padding(|data|), data)
  {
    hide Padding, EncryptedSize, StreamSize, Chunked, Pushed, StateAfter;
    var padding: nat := Padding(|data|);
    if |data| == 0 {
      PaddingOfNothing(|data|);
    }
    ghost var head := ['S' as int] + nonce;
    written := ['S' as int] + nonce;
    var st := c.init(nonce);
    ghost var st0, target := st, Chunked(Padded(padding, data));
    ghost var frames: seq<Frame> := [];
    PushedNone(c, st0);
    assert head + Pushed(c, st0, frames) == head;
    var inpos: nat, remaining: nat := 0, padding;
    while remaining > 0
      invariant inpos <= |data| && (remaining > 0 ==> inpos == 0) && (|data| == 0 ==> remaining <= CHUNK)
      invariant written == head + Pushed(c, st0, frames) && st == StateAfter(c, st0, frames)
      invariant frames + StillToCome(remaining, data, inpos) == target
    {
      var buf := [];
      if remaining > CHUNK {
        PaddingChunk(remaining, data);
        buf := Zeros(CHUNK);
        remaining := remaining - CHUNK;
      } else {
        var take := if CHUNK - remaining < |data| then CHUNK - remaining else |data|;
        LastPaddingChunk(remaining, data, take);
        buf := Zeros(remaining - 1) + [1] + data[..take];
        inpos, remaining := take, 0;
      }
      var f := Frame(buf, !(inpos < |data|));
      assert frames + [f] + StillToCome(remaining, data, inpos) == target;
      st, written := AppendChunk(written, c, st, f, head, st0, frames);
      frames := frames + [f];
    }
    while inpos < |data|
      invariant inpos <= |data|
      invariant written == head + Pushed(c, st0, frames) && st == StateAfter(c, st0, frames)
      invariant frames + StillToCome(0, data, inpos) == target
    {
      var end := if inpos + CHUNK < |data| then inpos + CHUNK else |data|;
      DataChunk(data, inpos, end);
      var f := Frame(data[inpos..end], !(end < |data|));
      inpos := end;
      assert frames + [f] + StillToCome(0, data, inpos) == target;
      st, written := AppendChunk(written, c, st, f, head, st0, frames);
      frames := frames + [f];
    }
    assert frames + [] == frames;
  }
}
