/** The streaming decryptor (`attachment::Decryptor`): an object that is handed the encrypted bytes
    in pieces of any size.  It acts as if all bytes had come at once. */
module AttachmentDecryptor {
  import opened Options
  import opened Bytes
  import opened AttachmentSizes
  import opened SecretStream
  import opened AttachmentStream
  import opened AttachmentFrames

  const PREFIX: nat := 1 + HEADER

  /** The fields of a decryptor.  `output` lists the spans the output callback was called with. */
  datatype State<!S> = State(
    st: S, buf: seq<byte>, header: bool, depadded: bool, failed: bool, hitFinal: bool, output: seq<seq<byte>>)

  /** A decryptor that has seen nothing; its cipher state is not set yet. */
  function Fresh<S>(unset: S): State<S> {
    State(unset, [], false, false, false, false, [])
  }

  ghost predicate Sound<S>(s: State<S>) {
    if s.failed then s.buf == [] else |s.buf| < if s.header then TOTAL else PREFIX
  }

  function AfterHeader<S>(c: Cipher<S>, s: State<S>, hdr: seq<byte>): State<S>
    requires |hdr| == PREFIX
  {
    if hdr[0] != 'S' as int then s.(failed := true) else s.(st := c.init(hdr[1..]), header := true)
  }

  function AfterChunk<S>(c: Cipher<S>, s: State<S>, chunk: seq<byte>): State<S> {
    if s.hitFinal || |chunk| < OVERHEAD then s.(failed := true)
    else
      match c.pull(s.st, chunk)
      case None => s.(failed := true)
      case Some(p) => AfterPlain(s.(st := p.st, hitFinal := p.final), p.plain)
  }

  function AfterPlain<S>(s: State<S>, plain: seq<byte>): State<S> {
    var i := PadEnd(plain);
    if s.depadded then s.(output := s.output + [plain])
    else if i == |plain| then s
    else if plain[i] != 1 then s.(failed := true)
    else s.(depadded := true, output := s.output + if i + 1 == |plain| then [] else [plain[i + 1..]])
  }

  // ----- the bytes all at once

  /** All the whole chunks of `bytes`; what is left is kept. */
  function Eat<S>(c: Cipher<S>, s: State<S>, bytes: seq<byte>): State<S>
    decreases |bytes|
  {
    if |bytes| < TOTAL then s.(buf := bytes)
    else
      var s' := AfterChunk(c, s, bytes[..TOTAL]);
      if s'.failed then s' else Eat(c, s', bytes[TOTAL..])
  }

  /** What a decryptor becomes when it is handed `bytes`. */
  function Feed<S>(c: Cipher<S>, s: State<S>, bytes: seq<byte>): State<S> {
    var all := s.buf + bytes;
    if s.failed then s
    else if s.header then Eat(c, s.(buf := []), all)
    else if |all| < PREFIX then s.(buf := all)
    else
      var s' := AfterHeader(c, s.(buf := []), all[..PREFIX]);
      if s'.failed then s' else Eat(c, s', all[PREFIX..])
  }

  function Finish<S>(c: Cipher<S>, s: State<S>): State<S> {
    if s.failed then s
    else
      var s' := if s.buf == [] then s else AfterChunk(c, s, s.buf).(buf := []);
      if s'.failed || s'.hitFinal then s' else s'.(failed := true)
  }

  // ----- split invariance

  lemma {:induction false} EatSound<S>(c: Cipher<S>, s: State<S>, bytes: seq<byte>)
    requires s.header && !s.failed && s.buf == []
    ensures Sound(Eat(c, s, bytes))
    decreases |bytes|
  {
    if |bytes| < TOTAL {
    } else {
      var s' := AfterChunk(c, s, bytes[..TOTAL]);
      if !s'.failed {
        EatSound(c, s', bytes[TOTAL..]);
      }
    }
  }

  lemma FeedSound<S>(c: Cipher<S>, s: State<S>, bytes: seq<byte>)
    requires Sound(s)
    ensures Sound(Feed(c, s, bytes))
  {
    hide Eat;
    var all := s.buf + bytes;
    if !s.failed {
      if s.header {
        EatSound(c, s.(buf := []), all);
      } else if |all| >= PREFIX {
        var s' := AfterHeader(c, s.(buf := []), all[..PREFIX]);
        if !s'.failed {
          EatSound(c, s', all[PREFIX..]);
        }
      }
    }
  }

  lemma {:induction false} EatSplit<S>(c: Cipher<S>, s: State<S>, a: seq<byte>, b: seq<byte>)
    requires s.header && !s.failed && s.buf == []
    ensures Feed(c, Eat(c, s, a), b) == Eat(c, s, a + b)
    decreases |a|
  {
    if |a| >= TOTAL {
      var s' := AfterChunk(c, s, a[..TOTAL]);
      assert (a + b)[..TOTAL] == a[..TOTAL];
      if !s'.failed {
        assert (a + b)[TOTAL..] == a[TOTAL..] + b;
        EatSplit(c, s', a[TOTAL..], b);
      }
    } else {
      assert s.(buf := a).(buf := []) == s;
    }
  }

  /** Bytes handed over in two pieces do what they do in one. */
  lemma FeedSplit<S>(c: Cipher<S>, s: State<S>, a: seq<byte>, b: seq<byte>)
    requires Sound(s)
    ensures Feed(c, Feed(c, s, a), b) == Feed(c, s, a + b)
  {
    hide Eat, AfterHeader;
    if !s.failed {
      var all := s.buf + a;
      assert s.buf + (a + b) == all + b;
      var s0 := s.(buf := []);
      if s.header {
        EatSplit(c, s0, all, b);
      } else if |all| >= PREFIX {
        assert (all + b)[..PREFIX] == all[..PREFIX];
        var s' := HeaderRead(c, s0, all[..PREFIX]);
        if !s'.failed {
          assert (all + b)[PREFIX..] == all[PREFIX..] + b;
          EatSplit(c, s', all[PREFIX..], b);
        }
      } else {
        assert s.(buf := all).(buf := []) == s0;
      }
    }
  }

  lemma HeaderRead<S>(c: Cipher<S>, s: State<S>, hdr: seq<byte>) returns (s': State<S>)
    requires |hdr| == PREFIX && s.buf == [] && !s.failed
    ensures s' == AfterHeader(c, s, hdr) && s'.buf == [] && (s'.failed || s'.header)
  {
    s' := AfterHeader(c, s, hdr);
  }

  function FeedAll<S>(c: Cipher<S>, s: State<S>, pieces: seq<seq<byte>>): State<S>
    decreases |pieces|
  {
    if pieces == [] then s else FeedAll(c, Feed(c, s, pieces[0]), pieces[1..])
  }

  function Joined(pieces: seq<seq<byte>>): seq<byte> {
    if pieces == [] then [] else pieces[0] + Joined(pieces[1..])
  }

  /** However the bytes are cut up, the decryptor ends in the same state, having called the output
      callback with the same spans. */
  lemma {:induction false} SplitInvariance<S>(c: Cipher<S>, s: State<S>, pieces: seq<seq<byte>>)
    requires Sound(s)
    ensures FeedAll(c, s, pieces) == Feed(c, s, Joined(pieces))
    decreases |pieces|
  {
    hide Eat, AfterHeader;
    if pieces == [] {
      FeedNothing(c, s);
    } else {
      FeedSound(c, s, pieces[0]);
      SplitInvariance(c, Feed(c, s, pieces[0]), pieces[1..]);
      FeedSplit(c, s, pieces[0], Joined(pieces[1..]));
    }
  }

  lemma FeedNothing<S>(c: Cipher<S>, s: State<S>)
    requires Sound(s)
    ensures Feed(c, s, []) == s
  {
    assert s.buf + [] == s.buf;
    if !s.failed {
      assert s.(buf := []).(buf := s.buf) == s;
    }
  }

  // ----- what is accepted, and what comes out

  /** The outcome of a finished decryptor: the bytes it has put out, unless it failed. */
  function Result<S>(s: State<S>): Option<seq<byte>> {
    if s.failed then None else Some(Joined(s.output))
  }

  /** What the decryptor is to put out in the end if the plaintext still to come is `text`. */
  function Combined<S>(s: State<S>, text: seq<byte>): Option<seq<byte>> {
    match if s.depadded then Some(text) else Depad(text)
    case None => None
    case Some(data) => Some(Joined(s.output) + data)
  }

  lemma {:induction false} JoinedSnoc(pieces: seq<seq<byte>>, last: seq<byte>)
    ensures Joined(pieces + [last]) == Joined(pieces) + last
  {
    if pieces == [] {
      assert Joined([last]) == last + [];
      assert pieces + [last] == [last];
    } else {
      assert (pieces + [last])[1..] == pieces[1..] + [last];
      JoinedSnoc(pieces[1..], last);
    }
  }

  lemma PlainStep<S>(s: State<S>, plain: seq<byte>, text: seq<byte>)
    requires !s.failed
    ensures var s' := AfterPlain(s, plain);
            Combined(s, plain + text) == if s'.failed then None else Combined(s', text)
  {
    hide Depad, PadEnd, Joined;
    var i := PadEnd(plain);
    DepadConcat(plain, text);
    if s.depadded {
      JoinedSnoc(s.output, plain);
      assert Joined(s.output) + plain + text == Joined(s.output) + (plain + text);
    } else if i < |plain| && plain[i] == 1 {
      var d := plain[i + 1..];
      JoinedSnoc(s.output, d);
      assert s.output + [] == s.output;
      assert Joined(s.output) + d + text == Joined(s.output) + (d + text);
      assert d == [] ==> d + text == text;
    }
  }

  /** The frames of the rest of the stream decide: FINAL on the last frame alone and good padding. */
  ghost function Expected<S>(c: Cipher<S>, s: State<S>, body: seq<byte>): Option<seq<byte>> {
    if s.hitFinal then if body == [] then Some(Joined(s.output)) else None
    else
      match FramesOf(c, s.st, body)
      case None => None
      case Some(fs) => if FinalLast(fs) then Combined(s, Text(fs)) else None
  }

  /** One more chunk, whole or last. */
  lemma FinishStep<S>(c: Cipher<S>, s: State<S>, body: seq<byte>)
    requires !s.failed && s.buf == [] && body != []
    ensures var s', n := AfterChunk(c, s, body[..ChunkLength(body)]), ChunkLength(body);
            Result(Finish(c, Eat(c, s, body))) ==
            if s'.failed then None else Result(Finish(c, Eat(c, s', body[n..])))
  {
    hide AfterPlain;
    if |body| < TOTAL {
      assert body[..|body|] == body && body[|body|..] == [];
      var s' := AfterChunk(c, s, body);
      BufferAside(c, s, body, body);
      ChunkKeepsBuffer(c, s, body);
      assert s'.failed || Eat(c, s', []) == s';
    }
  }

  lemma ExpectedStep<S>(c: Cipher<S>, s: State<S>, body: seq<byte>)
    requires !s.failed && body != []
    ensures var s', n := AfterChunk(c, s, body[..ChunkLength(body)]), ChunkLength(body);
            Expected(c, s, body) == if s'.failed then None else Expected(c, s', body[n..])
  {
    hide AfterPlain, Combined;
    var n := ChunkLength(body);
    if !s.hitFinal && n >= OVERHEAD {
      match c.pull(s.st, body[..n])
      case None =>
      case Some(p) =>
        var s0 := s.(st := p.st, hitFinal := p.final);
        var rest, f := FramesOf(c, p.st, body[n..]), Frame(p.plain, p.final);
        PlainKeeps(s0, p.plain);
        if rest.Some? {
          FinalLastCons(f, rest.value);
          assert ([f] + rest.value)[1..] == rest.value;
          PlainStep(s0, p.plain, Text(rest.value));
          SameCombined(s, s0, p.plain + Text(rest.value));
          LastCombined(AfterPlain(s0, p.plain));
        }
    }
  }

  lemma PlainKeeps<S>(s: State<S>, plain: seq<byte>)
    ensures AfterPlain(s, plain).st == s.st && AfterPlain(s, plain).hitFinal == s.hitFinal
  {
  }

  lemma SameCombined<S>(s: State<S>, s': State<S>, text: seq<byte>)
    requires s.depadded == s'.depadded && s.output == s'.output
    ensures Combined(s, text) == Combined(s', text)
  {
  }

  lemma LastCombined<S>(s: State<S>)
    ensures Combined(s, []) == Some(Joined(s.output))
  {
    assert Joined(s.output) + [] == Joined(s.output);
  }

  lemma {:induction false} Streamed<S>(c: Cipher<S>, s: State<S>, body: seq<byte>)
    requires !s.failed && s.buf == []
    ensures Result(Finish(c, Eat(c, s, body))) == Expected(c, s, body)
    decreases |body|
  {
    if body == [] {
    } else {
      hide Expected, Eat, Finish, AfterPlain;
      FinishStep(c, s, body);
      ExpectedStep(c, s, body);
      var n := ChunkLength(body);
      var s' := AfterChunk(c, s, body[..n]);
      if !s'.failed {
        ChunkKeepsBuffer(c, s, body[..n]);
        Streamed(c, s', body[n..]);
      }
    }
  }

  lemma ChunkKeepsBuffer<S>(c: Cipher<S>, s: State<S>, chunk: seq<byte>)
    ensures AfterChunk(c, s, chunk).buf == s.buf
  {
  }

  /** The data of an encrypted attachment, for a reader that sees all its frames at once. */
  ghost function StreamedData<S>(c: Cipher<S>, st: S, body: seq<byte>): Option<seq<byte>> {
    match FramesOf(c, st, body)
    case None => None
    case Some(fs) => if FinalLast(fs) then Depad(Text(fs)) else None
  }

  /** A new decryptor accepts exactly the streams whose chunks decrypt, whose last frame and no other
      is FINAL, and whose padding is zeros up to a one or to the end; it puts out the data.  Bytes too
      few for a header are taken for a last chunk, decrypted in the unset cipher state. */
  lemma DecryptorResult<S>(c: Cipher<S>, unset: S, enc: seq<byte>)
    ensures Result(Finish(c, Feed(c, Fresh(unset), enc))) ==
            if |enc| < PREFIX then StreamedData(c, unset, enc)
            else if enc[0] != 'S' as int then None
            else StreamedData(c, c.init(enc[1..PREFIX]), enc[PREFIX..])
  {
    hide Eat, Finish, AfterChunk, FramesOf;
    var s := Fresh(unset);
    assert s.buf + enc == enc;
    if |enc| < PREFIX {
      Streamed(c, s, enc);
      FreshCombined(c, s, enc);
      ShortEat(c, s, enc);
    } else if enc[0] == 'S' as int {
      var s' := s.(st := c.init(enc[1..PREFIX]), header := true);
      assert enc[..PREFIX][1..] == enc[1..PREFIX];
      Streamed(c, s', enc[PREFIX..]);
      FreshCombined(c, s', enc[PREFIX..]);
    } else {
      FailedFinish(c, s.(failed := true));
    }
  }

  lemma FailedFinish<S>(c: Cipher<S>, s: State<S>)
    requires s.failed
    ensures Result(Finish(c, s)) == None
  {
  }

  lemma ShortEat<S>(c: Cipher<S>, s: State<S>, bytes: seq<byte>)
    requires |bytes| < TOTAL
    ensures Eat(c, s, bytes) == s.(buf := bytes)
  {
  }

  /** The buffer plays no part in processing a chunk. */
  lemma BufferAside<S>(c: Cipher<S>, s: State<S>, b: seq<byte>, chunk: seq<byte>)
    ensures AfterChunk(c, s.(buf := b), chunk) == AfterChunk(c, s, chunk).(buf := b)
  {
  }

  lemma ChunkKeepsHeader<S>(c: Cipher<S>, s: State<S>, chunk: seq<byte>)
    ensures AfterChunk(c, s, chunk).header == s.header
  {
  }

  lemma EatFirst<S>(c: Cipher<S>, s: State<S>, a: seq<byte>, b: seq<byte>)
    requires |a| <= TOTAL && (|a| < TOTAL ==> b == [])
    ensures Eat(c, s, a + b) ==
            if |a| < TOTAL then s.(buf := a)
            else var s' := AfterChunk(c, s, a); if s'.failed then s' else Eat(c, s', b)
  {
    if |a| < TOTAL {
      assert a + b == a;
    } else {
      assert (a + b)[..TOTAL] == a && (a + b)[TOTAL..] == b;
    }
  }

  lemma FreshCombined<S>(c: Cipher<S>, s: State<S>, body: seq<byte>)
    requires !s.hitFinal && !s.depadded && s.output == []
    ensures Expected(c, s, body) == StreamedData(c, s.st, body)
  {
    hide FramesOf, Depad;
    if FramesOf(c, s.st, body).Some? {
      match Depad(Text(FramesOf(c, s.st, body).value))
      case None =>
      case Some(data) =>
        assert Joined([]) + data == data;
    }
  }

  /** Whatever was encrypted comes out again, however the encrypted bytes are cut up. */
  lemma DecryptorRoundTrip<S(!new)>(c: Cipher<S>, unset: S, nonce: seq<byte>, padding: nat, data: seq<byte>,
          pieces: seq<seq<byte>>)
    requires Inverts(c) && |nonce| == HEADER && padding >= 1
    requires Joined(pieces) == Encrypted(c, nonce, padding, data)
    ensures Result(Finish(c, FeedAll(c, Fresh(unset), pieces))) == Some(data)
  {
    hide Feed, Finish, FeedAll, Encrypted, Inverts, Chunked, Joined, FramesOf, Depad, PadEnd;
    var text := Padded(padding, data);
    SplitInvariance(c, Fresh(unset), pieces);
    EncryptedFrames(c, nonce, padding, data);
    DecryptorResult(c, unset, Joined(pieces));
    ChunkedShape(text);
    ChunkedText(text);
    DepadPadded(padding, data);
  }

  /** The output callback is never called with nothing. */
  ghost predicate SpansHold<S>(s: State<S>) {
    forall i :: 0 <= i < |s.output| ==> s.output[i] != []
  }

  lemma ChunkSpans<S(!new)>(c: Cipher<S>, s: State<S>, chunk: seq<byte>)
    requires PullCosts(c) && SpansHold(s) && |chunk| > OVERHEAD
    ensures SpansHold(AfterChunk(c, s, chunk))
  {
  }

  lemma {:induction false} EatSpans<S(!new)>(c: Cipher<S>, s: State<S>, bytes: seq<byte>)
    requires PullCosts(c) && SpansHold(s)
    ensures SpansHold(Eat(c, s, bytes))
    decreases |bytes|
  {
    hide AfterChunk, PullCosts, SpansHold;
    if |bytes| < TOTAL {
      SameSpans(s, s.(buf := bytes));
    } else {
      ChunkSpans(c, s, bytes[..TOTAL]);
      EatSpans(c, AfterChunk(c, s, bytes[..TOTAL]), bytes[TOTAL..]);
    }
  }

  lemma SameSpans<S>(s: State<S>, s': State<S>)
    requires SpansHold(s) && s'.output == s.output
    ensures SpansHold(s')
  {
  }

  /** Whatever bytes come, in whatever pieces, each call of the output callback brings some data; only a last
      chunk that is nothing but its tag makes an empty one, at the end. */
  lemma FeedSpans<S(!new)>(c: Cipher<S>, s: State<S>, bytes: seq<byte>)
    requires PullCosts(c) && SpansHold(s)
    ensures SpansHold(Feed(c, s, bytes))
    ensures |Feed(c, s, bytes).buf| != OVERHEAD ==> SpansHold(Finish(c, Feed(c, s, bytes)))
  {
    var all, s0 := s.buf + bytes, s.(buf := []);
    if !s.failed {
      if s.header {
        EatSpans(c, s0, all);
      } else if |all| >= PREFIX {
        EatSpans(c, AfterHeader(c, s0, all[..PREFIX]), all[PREFIX..]);
      }
    }
    var f := Feed(c, s, bytes);
    if |f.buf| > OVERHEAD {
      ChunkSpans(c, f, f.buf);
    }
  }

  lemma AfterFinal<S>(c: Cipher<S>, s: State<S>, chunk: seq<byte>)
    requires s.hitFinal
    ensures AfterChunk(c, s, chunk) == s.(failed := true)
  {
  }

  /** After a successful end nothing is refused outright: the end can be reached again, and any further
      byte makes it fail, without putting anything out. */
  lemma AfterFinish<S>(c: Cipher<S>, s0: State<S>, bytes: seq<byte>)
    requires var s := Finish(c, s0); s.header && !s.failed
    ensures var s := Finish(c, s0);
            var e := Finish(c, Feed(c, s, bytes));
            && (e.failed <==> bytes != [])
            && e.output == s.output
  {
    var s := Finish(c, s0);
    assert s.hitFinal && s.buf == [];
    hide AfterChunk;
    assert s.buf + bytes == bytes;
    if |bytes| < TOTAL {
      AfterFinal(c, s.(buf := bytes), bytes);
    } else {
      AfterFinal(c, s, bytes[..TOTAL]);
    }
  }

  // ----- the object

  class Decryptor<S> {
    const cipher: Cipher<S>
    var st: S
    var buf: seq<byte>
    var header: bool
    var depadded: bool
    var failed: bool
    var hitFinal: bool
    var output: seq<seq<byte>>

    ghost function Snapshot(): State<S>
      reads this
    {
      State(st, buf, header, depadded, failed, hitFinal, output)
    }

    ghost predicate Valid()
      reads this
    {
      Sound(Snapshot())
    }

    constructor (cipher: Cipher<S>, unset: S)
      ensures this.cipher == cipher && Snapshot() == Fresh(unset) && Valid()
    {
      this.cipher, st := cipher, unset;
      buf, header, depadded, failed, hitFinal, output := [], false, false, false, false, [];
    }

    method ProcessHeader(hdr: seq<byte>)
      requires |hdr| == PREFIX && !header
      modifies this
      ensures Snapshot() == AfterHeader(cipher, old(Snapshot()), hdr)
    {
      if hdr[0] != 'S' as int {
        failed := true;
        return;
      }
      st := cipher.init(hdr[1..]);
      header := true;
    }

    method ProcessChunk(chunk: seq<byte>, isFinal: bool)
      requires (isFinal || |chunk| == TOTAL) && |chunk| <= TOTAL
      modifies this
      ensures Snapshot() == AfterChunk(cipher, old(Snapshot()), chunk)
    {
      if hitFinal {
        failed := true;
        return;
      }
      if |chunk| < OVERHEAD {
        failed := true;
        return;
      }
      var pulled := cipher.pull(st, chunk);
      if pulled.None? {
        failed := true;
        return;
      }
      var plain := pulled.value.plain;
      st := pulled.value.st;
      if pulled.value.final {
        hitFinal := true;
      }
      if !depadded {
        var i := PadEnd(plain);
        if i != |plain| {
          if plain[i] != 1 {
            failed := true;
            return;
          }
          depadded := true;
          if i + 1 != |plain| {
            output := output + [plain[i + 1..]];
          } else {
            assert output + [] == output;
          }
        }
        return;
      }
      output := output + [plain];
    }

    /** Fills the buffer up to `target` from the front of `data`. */
    method StealInto(target: nat, data: seq<byte>) returns (full: bool, rest: seq<byte>)
      requires |buf| < target
      modifies this`buf
      ensures buf + rest == old(buf) + data && |buf| <= target
      ensures full <==> |buf| == target
      ensures !full ==> rest == []
    {
      var steal := if target - |buf| < |data| then target - |buf| else |data|;
      buf := buf + data[..steal];
      rest := data[steal..];
      full := |buf| == target;
    }

    /** Completes the chunk or header whose beginning is in the buffer, if there is one. */
    method DrainBuffer(data: seq<byte>) returns (more: bool, rest: seq<byte>)
      requires Valid() && !failed
      modifies this
      ensures Valid()
      ensures more ==> !failed && buf == [] && Feed(cipher, Snapshot(), rest) == Feed(cipher, old(Snapshot()), data)
      ensures !more ==> Snapshot() == Feed(cipher, old(Snapshot()), data)
    {
      hide Eat, AfterChunk;
      more, rest := true, data;
      if buf != [] {
        ghost var all, s0 := buf + data, old(Snapshot()).(buf := []);
        var full;
        if !header {
          full, rest := StealInto(PREFIX, data);
          if !full {
            assert buf + [] == buf;
            return false, rest;
          }
          assert all[..PREFIX] == buf && all[PREFIX..] == rest;
          ProcessHeader(buf[..PREFIX]);
          assert buf[..PREFIX] == buf;
        } else {
          full, rest := StealInto(TOTAL, data);
          EatFirst(cipher, s0, buf, rest);
          if !full {
            assert buf + [] == buf;
            assert Snapshot() == s0.(buf := all);
            return false, rest;
          }
          BufferAside(cipher, s0, buf, buf);
          ChunkKeepsBuffer(cipher, s0, buf);
          ChunkKeepsHeader(cipher, s0, buf);
          ProcessChunk(buf, false);
        }
        buf := [];
        assert [] + rest == rest;
        more := !failed;
      }
    }

    /** More encrypted bytes; answers whether all is well so far. */
    method Update(encData: seq<byte>) returns (ok: bool)
      requires Valid()
      modifies this
      ensures Valid() && Snapshot() == Feed(cipher, old(Snapshot()), encData)
      ensures ok <==> !failed
    {
      FeedSound(cipher, old(Snapshot()), encData);
      if failed {
        return false;
      }
      hide Eat, AfterPlain, AfterChunk;
      var more, data := DrainBuffer(encData);
      if !more {
        return !failed;
      }
      ghost var end := Feed(cipher, Snapshot(), data);
      assert [] + data == data;
      if !header {
        if |data| >= PREFIX {
          ProcessHeader(data[..PREFIX]);
          if failed {
            return false;
          }
          data := data[PREFIX..];
        } else {
          buf := data;
          return true;
        }
      }
      while |data| >= TOTAL
        invariant header && !failed && buf == []
        invariant Eat(cipher, Snapshot(), data) == end
      {
        EatFirst(cipher, Snapshot(), data[..TOTAL], data[TOTAL..]);
        assert data[..TOTAL] + data[TOTAL..] == data;
        ChunkKeepsBuffer(cipher, Snapshot(), data[..TOTAL]);
        ChunkKeepsHeader(cipher, Snapshot(), data[..TOTAL]);
        ProcessChunk(data[..TOTAL], false);
        if failed {
          return false;
        }
        data := data[TOTAL..];
      }
      ShortEat(cipher, Snapshot(), data);
      if data != [] {
        buf := data;
      }
      return true;
    }

    /** The end of the encrypted bytes. */
    method Finalize() returns (ok: bool)
      requires Valid()
      modifies this
      ensures Valid() && Snapshot() == Finish(cipher, old(Snapshot()))
      ensures ok <==> !failed
    {
      if failed {
        return false;
      }
      if buf != [] {
        ProcessChunk(buf, true);
        buf := [];
      }
      if failed {
        return false;
      }
      if !hitFinal {
        failed := true;
        return false;
      }
      return true;
    }
  }
}
