/** Decryption in one go, into a buffer of the caller (`attachment::decrypt`): what is accepted, how it
    compares with the streaming decryptor, and when the buffer it asks for is large enough. */
module AttachmentDecrypt {
  import opened Arithmetic
  import opened Options
  import opened Bytes
  import opened AttachmentSizes
  import opened SecretStream
  import opened AttachmentStream
  import opened AttachmentFrames
  import opened AttachmentDecryptor

  /** How reading ends: accepted or not, and all the data that came out until then. */
  datatype Reading = Reading(ok: bool, data: seq<byte>)

  /** Chunks of data behind `acc`, up to the FINAL one. */
  function ReadData<S>(c: Cipher<S>, st: S, body: seq<byte>, acc: seq<byte>): Reading
    decreases |body|, 0
  {
    if |body| <= OVERHEAD then Reading(false, acc)
    else
      var n := ChunkLength(body);
      match c.pull(st, body[..n])
      case None => Reading(false, acc)
      case Some(p) => AfterData(c, p, body[n..], acc + p.plain)
  }

  function AfterData<S>(c: Cipher<S>, p: Pulled<S>, rest: seq<byte>, acc: seq<byte>): Reading
    decreases |rest|, 1
  {
    if p.final then Reading(rest == [], acc)
    else if rest == [] then Reading(false, acc)
    else ReadData(c, p.st, rest, acc)
  }

  /** Chunks of padding are skipped up to the one in which the padding ends. */
  function ReadPadding<S>(c: Cipher<S>, st: S, body: seq<byte>): Reading
    decreases |body|
  {
    if |body| <= OVERHEAD then Reading(false, [])
    else
      var n := ChunkLength(body);
      match c.pull(st, body[..n])
      case None => Reading(false, [])
      case Some(p) =>
        var i := PadEnd(p.plain);
        if i == |p.plain| then ReadPadding(c, p.st, body[n..])
        else if p.plain[i] != 1 then Reading(false, [])
        else AfterData(c, p, body[n..], p.plain[i + 1..])
  }

  // ----- what is accepted

  ghost predicate NoneEmpty(fs: seq<Frame>) {
    forall i :: 0 <= i < |fs| ==> fs[i].plain != []
  }

  lemma NoneEmptyCons(f: Frame, rest: seq<Frame>)
    ensures NoneEmpty([f] + rest) <==> f.plain != [] && NoneEmpty(rest)
  {
    var fs := [f] + rest;
    assert fs[0] == f;
    assert forall i :: 0 <= i < |rest| ==> rest[i] == fs[i + 1];
    assert forall i :: 0 < i < |fs| ==> fs[i] == rest[i - 1];
  }

  /** How many frames at the beginning are zeros only. */
  function BlankFrames(fs: seq<Frame>): (k: nat)
    ensures k <= |fs|
  {
    if fs == [] || PadEnd(fs[0].plain) < |fs[0].plain| then 0 else 1 + BlankFrames(fs[1..])
  }

  ghost function DataFrames<S>(c: Cipher<S>, st: S, body: seq<byte>, acc: seq<byte>): Option<seq<byte>> {
    match FramesOf(c, st, body)
    case None => None
    case Some(fs) => if FinalLast(fs) && NoneEmpty(fs) then Some(acc + Text(fs)) else None
  }

  function Accepted(r: Reading): Option<seq<byte>> {
    if r.ok then Some(r.data) else None
  }

  /** The frames of a stream, from its first frame and those of the rest. */
  lemma FirstFrame<S(!new)>(c: Cipher<S>, st: S, body: seq<byte>)
    requires PullCosts(c) && body != []
    ensures var n := ChunkLength(body);
            match if n < OVERHEAD then None else c.pull(st, body[..n])
            case None => FramesOf(c, st, body) == None
            case Some(p) =>
              && |p.plain| == n - OVERHEAD
              && match FramesOf(c, p.st, body[n..])
                 case None => FramesOf(c, st, body) == None
                 case Some(rest) => FramesOf(c, st, body) == Some([Frame(p.plain, p.final)] + rest)
  {
  }

  lemma {:induction false} ReadDataFrames<S(!new)>(c: Cipher<S>, st: S, body: seq<byte>, acc: seq<byte>)
    requires PullCosts(c) && body != []
    ensures Accepted(ReadData(c, st, body, acc)) == DataFrames(c, st, body, acc)
    decreases |body|, 0
  {
    hide PullCosts, FramesOf;
    FirstFrame(c, st, body);
    var n := ChunkLength(body);
    if n >= OVERHEAD && c.pull(st, body[..n]).Some? {
      var p, rest := c.pull(st, body[..n]).value, body[n..];
      AfterDataFrames(c, p, rest, acc + p.plain);
      if FramesOf(c, p.st, rest).Some? {
        var fs := FramesOf(c, p.st, rest).value;
        ConsFrames(Frame(p.plain, p.final), fs, acc);
      }
    }
  }

  lemma ConsFrames(f: Frame, fs: seq<Frame>, acc: seq<byte>)
    ensures FinalLast([f] + fs) <==> if fs == [] then f.final else !f.final && FinalLast(fs)
    ensures NoneEmpty([f] + fs) <==> f.plain != [] && NoneEmpty(fs)
    ensures Text([f] + fs) == f.plain + Text(fs)
    ensures acc + Text([f] + fs) == acc + f.plain + Text(fs)
  {
    FinalLastCons(f, fs);
    NoneEmptyCons(f, fs);
    assert ([f] + fs)[1..] == fs;
    assert acc + (f.plain + Text(fs)) == acc + f.plain + Text(fs);
  }

  /** After a chunk: FINAL and nothing more, or not FINAL and more frames of data. */
  lemma {:induction false} AfterDataFrames<S(!new)>(c: Cipher<S>, p: Pulled<S>, rest: seq<byte>, acc: seq<byte>)
    requires PullCosts(c)
    ensures Accepted(AfterData(c, p, rest, acc)) ==
            match FramesOf(c, p.st, rest)
            case None => None
            case Some(fs) =>
              var good := if fs == [] then p.final else !p.final && FinalLast(fs);
              if NoneEmpty(fs) && good then Some(acc + Text(fs)) else None
    decreases |rest|, 1
  {
    hide PullCosts;
    if rest == [] {
      assert acc + Text([]) == acc;
    } else if !p.final {
      ReadDataFrames(c, p.st, rest, acc);
    }
  }

  /** Accepted are exactly the streams whose chunks decrypt and hold something, whose padding ends in a
      one, and whose last frame is the only FINAL one among those from that one on. */
  ghost predicate Readable(fs: seq<Frame>) {
    && NoneEmpty(fs)
    && BlankFrames(fs) < |fs|
    && FinalLast(fs[BlankFrames(fs)..])
  }

  ghost function OneShotData<S>(c: Cipher<S>, st: S, body: seq<byte>): Option<seq<byte>> {
    match FramesOf(c, st, body)
    case None => None
    case Some(fs) => if Readable(fs) then Depad(Text(fs)) else None
  }

  lemma ReadableCons(f: Frame, fs: seq<Frame>)
    ensures Readable([f] + fs) <==>
            && f.plain != []
            && if PadEnd(f.plain) == |f.plain| then Readable(fs)
               else NoneEmpty(fs) && FinalLast([f] + fs)
  {
    hide FinalLast, PadEnd;
    NoneEmptyCons(f, fs);
    var gs := [f] + fs;
    assert gs[0] == f && gs[1..] == fs;
    if PadEnd(f.plain) == |f.plain| {
      assert gs[1 + BlankFrames(fs)..] == fs[BlankFrames(fs)..];
    } else {
      assert gs[0..] == gs;
    }
  }

  lemma {:induction false} OneShotFrames<S(!new)>(c: Cipher<S>, st: S, body: seq<byte>)
    requires PullCosts(c)
    ensures Accepted(ReadPadding(c, st, body)) == OneShotData(c, st, body)
    decreases |body|
  {
    if body == [] {
    } else {
      hide PullCosts, FramesOf, Depad, PadEnd, AfterData, Readable, FinalLast, NoneEmpty;
      FirstFrame(c, st, body);
      var n := ChunkLength(body);
      if n >= OVERHEAD && c.pull(st, body[..n]).Some? {
        var p, rest := c.pull(st, body[..n]).value, body[n..];
        var f, i := Frame(p.plain, p.final), PadEnd(p.plain);
        if FramesOf(c, p.st, rest).Some? {
          var fs := FramesOf(c, p.st, rest).value;
          ReadableCons(f, fs);
          ConsFrames(f, fs, []);
          DepadConcat(p.plain, Text(fs));
        }
        if n > OVERHEAD {
          OneShotFrames(c, p.st, rest);
          if i < |p.plain| {
            AfterDataFrames(c, p, rest, p.plain[i + 1..]);
          }
        }
      }
    }
  }

  // ----- against the streaming decryptor

  lemma {:induction false} BlankText(fs: seq<Frame>)
    ensures PadEnd(Text(fs)) == |Text(fs)| <==> BlankFrames(fs) == |fs|
  {
    if fs == [] {
    } else {
      BlankText(fs[1..]);
      PadEndConcat(fs[0].plain, Text(fs[1..]));
    }
  }

  ghost predicate NoneFinal(fs: seq<Frame>) {
    forall i :: 0 <= i < |fs| ==> !fs[i].final
  }

  /** FINAL on the last frame alone means the same on the frames from some point on, when none before
      is FINAL. */
  lemma FinalLastSuffix(fs: seq<Frame>, k: nat)
    requires k < |fs|
    ensures FinalLast(fs) <==> FinalLast(fs[k..]) && NoneFinal(fs[..k])
  {
    if FinalLast(fs) {
      assert forall i :: 0 <= i < |fs[k..]| ==> fs[k..][i] == fs[k + i];
    }
    if FinalLast(fs[k..]) && NoneFinal(fs[..k]) {
      assert forall i :: k <= i < |fs| ==> fs[i] == fs[k..][i - k];
      assert forall i :: 0 <= i < k ==> fs[i] == fs[..k][i];
    }
  }

  /** The two decryptors never put out different data.  What streaming accepts is refused here just
      when there is an empty frame or the padding never ends; what is accepted here is refused by
      streaming just when a frame of zeros is tagged FINAL. */
  lemma Agreement<S(!new)>(c: Cipher<S>, st: S, body: seq<byte>)
    requires PullCosts(c)
    ensures var one, streamed := Accepted(ReadPadding(c, st, body)), StreamedData(c, st, body);
            && (one.Some? && streamed.Some? ==> one == streamed)
            && match FramesOf(c, st, body)
               case None => one.None? && streamed.None?
               case Some(fs) =>
                 && (streamed.Some? ==> (one.Some? <==> NoneEmpty(fs) && PadEnd(Text(fs)) < |Text(fs)|))
                 && (one.Some? ==> (streamed.Some? <==> NoneFinal(fs[..BlankFrames(fs)])))
  {
    hide PullCosts, ReadPadding, FramesOf, Depad, PadEnd, Text, FinalLast, NoneEmpty, NoneFinal;
    OneShotFrames(c, st, body);
    if FramesOf(c, st, body).Some? {
      var fs := FramesOf(c, st, body).value;
      BlankText(fs);
      if BlankFrames(fs) < |fs| {
        FinalLastSuffix(fs, BlankFrames(fs));
      }
    }
  }

  /** A pushed stream of well-cut frames, for both decryptors. */
  lemma OfFrames<S(!new)>(c: Cipher<S>, st: S, fs: seq<Frame>)
    requires Inverts(c) && PullCosts(c) && WellCut(fs)
    ensures StreamedData(c, st, Pushed(c, st, fs)) == if FinalLast(fs) then Depad(Text(fs)) else None
    ensures Accepted(ReadPadding(c, st, Pushed(c, st, fs))) == if Readable(fs) then Depad(Text(fs)) else None
  {
    hide Inverts, PullCosts, WellCut, FinalLast, Readable, Depad, ReadPadding, FramesOf, Pushed;
    FramesOfPushed(c, st, fs);
    OneShotFrames(c, st, Pushed(c, st, fs));
  }

  lemma TextOfTwo(fs: seq<Frame>)
    requires |fs| == 2
    ensures Text(fs) == fs[0].plain + fs[1].plain
  {
    assert Text(fs[1..][1..]) == [];
    assert Text(fs[1..]) == fs[1].plain + [];
  }

  /** Padding that never ends: streaming accepts it as no data, and here it is refused. */
  lemma EndlessPadding<S(!new)>(c: Cipher<S>, st: S, fs: seq<Frame>)
    requires Inverts(c) && PullCosts(c) && fs == [Frame([0], true)]
    ensures StreamedData(c, st, Pushed(c, st, fs)) == Some([])
    ensures !ReadPadding(c, st, Pushed(c, st, fs)).ok
  {
    hide Inverts, PullCosts, ReadPadding, Pushed, FramesOf;
    OfFrames(c, st, fs);
    assert fs[1..] == [] && Text(fs) == [0] + [];
    assert PadEnd([0]) == 1;
    assert BlankFrames(fs) == 1;
  }

  /** An empty last frame: streaming accepts it, and here it is refused. */
  lemma EmptyLastFrame<S(!new)>(c: Cipher<S>, st: S, fs: seq<Frame>)
    requires Inverts(c) && PullCosts(c)
    requires fs == [Frame([1] + Zeros(CHUNK - 1), false), Frame([], true)]
    ensures StreamedData(c, st, Pushed(c, st, fs)) == Some(Zeros(CHUNK - 1))
    ensures !ReadPadding(c, st, Pushed(c, st, fs)).ok
  {
    hide Inverts, PullCosts, ReadPadding, Pushed, FramesOf;
    var plain := [1] + Zeros(CHUNK - 1);
    OfFrames(c, st, fs);
    assert fs[1..] == [Frame([], true)] && fs[1..][1..] == [];
    TextOfTwo(fs);
    assert plain + [] == plain;
    assert PadEnd(plain) == 0 && plain[1..] == Zeros(CHUNK - 1);
    assert fs[1].plain == [];
  }

  /** A frame of zeros tagged FINAL before the data: here it is accepted, and streaming refuses it. */
  lemma EarlyFinal<S(!new)>(c: Cipher<S>, st: S, fs: seq<Frame>)
    requires Inverts(c) && PullCosts(c)
    requires fs == [Frame(Zeros(CHUNK), true), Frame([1], true)]
    ensures Accepted(ReadPadding(c, st, Pushed(c, st, fs))) == Some([])
    ensures StreamedData(c, st, Pushed(c, st, fs)) == None
  {
    hide Inverts, PullCosts, ReadPadding, Pushed, FramesOf;
    OfFrames(c, st, fs);
    assert fs[1..] == [Frame([1], true)] && fs[1..][1..] == [];
    PadEndZeros(CHUNK);
    assert PadEnd([1]) == 0;
    assert BlankFrames(fs[1..]) == 0 && BlankFrames(fs) == 1;
    TextOfTwo(fs);
    assert Zeros(CHUNK) + [1] == Padded(CHUNK + 1, []);
    DepadPadded(CHUNK + 1, []);
    assert fs[0].final;
  }

  // ----- the buffer

  /** How many bytes of plaintext a stream of `m` bytes can give at most. */
  function Room(m: nat): nat {
    if m < TOTAL then if m <= OVERHEAD then 0 else m - OVERHEAD
    else CHUNK + Room(m - TOTAL)
  }

  lemma {:induction false} RoomIs(m: nat, k: nat, y: nat)
    requires m == k * TOTAL + y && y < TOTAL
    ensures Room(m) == k * CHUNK + if y <= OVERHEAD then 0 else y - OVERHEAD
    decreases k
  {
    if k <= 0 {
    } else {
      RoomIs(m - TOTAL, k - 1, y);
    }
  }

  /** The buffer size that is asked for leaves room for everything except the byte that ends the
      padding, unless less than a whole tag follows the last full chunk. */
  lemma MaxSizeRoom(size: nat)
    requires size < 0x1_0000_0000_0000_0000 - TOTAL && DecryptedMaxSize(size).Some?
    ensures size >= 26
    ensures var max, room, y := DecryptedMaxSize(size).value, Room(size - 25), (size - 25) % TOTAL;
            max == if y == 1 then room else if 2 <= y < OVERHEAD then room + y - 18 else room - 1
  {
    hide DecryptedMaxSize, Room;
    if size < 43 {
      SmallMaxSize(size);
    }
    var k, y := (size - 25) / TOTAL, (size - 25) % TOTAL;
    DivMod(size - 25, TOTAL);
    RoomIs(size - 25, k, y);
    if size >= 43 {
      if y >= 2 {
        MaxSizeOf(size, k, y - 1);
      } else {
        MaxSizeOf(size, k - 1, y - 1 + TOTAL);
      }
    }
  }

  lemma RoomStep(body: seq<byte>)
    requires |body| > OVERHEAD
    ensures var n := ChunkLength(body); Room(|body|) == n - OVERHEAD + Room(|body| - n)
  {
  }

  /** Reading data never loses any, and gives no more than there is room for. */
  lemma {:induction false} ReadDataSize<S(!new)>(c: Cipher<S>, st: S, body: seq<byte>, acc: seq<byte>)
    requires PullCosts(c)
    ensures |acc| <= |ReadData(c, st, body, acc).data| <= |acc| + Room(|body|)
    decreases |body|, 0
  {
    hide PullCosts, Room, AfterData;
    var n := ChunkLength(body);
    if |body| > OVERHEAD && c.pull(st, body[..n]).Some? {
      var p := c.pull(st, body[..n]).value;
      FirstFrame(c, st, body);
      RoomStep(body);
      AfterDataSize(c, p, body[n..], acc + p.plain);
    }
  }

  lemma {:induction false} AfterDataSize<S(!new)>(c: Cipher<S>, p: Pulled<S>, rest: seq<byte>, acc: seq<byte>)
    requires PullCosts(c)
    ensures |acc| <= |AfterData(c, p, rest, acc).data| <= |acc| + Room(|rest|)
    decreases |rest|, 1
  {
    hide PullCosts, Room, ReadData;
    if !p.final && rest != [] {
      ReadDataSize(c, p.st, rest, acc);
    }
  }

  /** The byte that ends the padding is not data. */
  lemma {:induction false} ReadPaddingSize<S(!new)>(c: Cipher<S>, st: S, body: seq<byte>)
    requires PullCosts(c)
    ensures var data := ReadPadding(c, st, body).data; data == [] || |data| + 1 <= Room(|body|)
    decreases |body|
  {
    hide PullCosts, Room, AfterData, PadEnd;
    var n := ChunkLength(body);
    if |body| > OVERHEAD && c.pull(st, body[..n]).Some? {
      var p := c.pull(st, body[..n]).value;
      FirstFrame(c, st, body);
      RoomStep(body);
      var i := PadEnd(p.plain);
      if i == |p.plain| {
        ReadPaddingSize(c, p.st, body[n..]);
      } else {
        AfterDataSize(c, p, body[n..], p.plain[i + 1..]);
      }
    }
  }

  /** Whether the buffer that is asked for is large enough for every stream of this size. */
  predicate BufferEnough(size: nat)
    requires size >= 25
  {
    !(2 <= (size - 25) % TOTAL < OVERHEAD)
  }

  lemma DataFitsBuffer<S(!new)>(c: Cipher<S>, st: S, body: seq<byte>, size: nat)
    requires PullCosts(c) && |body| + 25 == size < 0x1_0000_0000_0000_0000 - TOTAL
    requires DecryptedMaxSize(size).Some? && BufferEnough(size)
    ensures |ReadPadding(c, st, body).data| <= DecryptedMaxSize(size).value
  {
    hide PullCosts, ReadPadding, Room, DecryptedMaxSize;
    MaxSizeRoom(size);
    ReadPaddingSize(c, st, body);
  }

  // ----- streams for which the buffer is not large enough

  function ZeroFrames(k: nat): seq<Frame> {
    if k == 0 then [] else [Frame(Zeros(CHUNK), false)] + ZeroFrames(k - 1)
  }

  lemma {:induction false} ZeroFramesSize<S(!new)>(c: Cipher<S>, st: S, k: nat)
    requires Inverts(c)
    ensures |Pushed(c, st, ZeroFrames(k))| == k * TOTAL
  {
    if k <= 0 {
    } else {
      var f := Frame(Zeros(CHUNK), false);
      assert ZeroFrames(k)[1..] == ZeroFrames(k - 1);
      ZeroFramesSize(c, c.push(st, f.plain, f.final).0, k - 1);
    }
  }

  /** Reading goes through all full chunks of data before it finds that the rest is too short. */
  lemma {:induction false} ReadsZeroFrames<S(!new)>(c: Cipher<S>, st: S, k: nat, tail: seq<byte>, acc: seq<byte>)
    requires Inverts(c) && 1 <= |tail| <= OVERHEAD
    ensures |ReadData(c, st, Pushed(c, st, ZeroFrames(k)) + tail, acc).data| == |acc| + k * CHUNK
    decreases k
  {
    if k == 0 {
      assert Pushed(c, st, []) + tail == tail;
    } else {
      var f := Frame(Zeros(CHUNK), false);
      var (st', chunk) := c.push(st, f.plain, f.final);
      assert ZeroFrames(k)[1..] == ZeroFrames(k - 1);
      var rest := Pushed(c, st', ZeroFrames(k - 1)) + tail;
      var body := Pushed(c, st, ZeroFrames(k)) + tail;
      assert body == chunk + rest;
      assert body[..TOTAL] == chunk && body[TOTAL..] == rest;
      ReadsZeroFrames(c, st', k - 1, tail, acc + f.plain);
    }
  }

  /** A stream of `k` full chunks and a short rest, whose padding is one byte. */
  function Overfull<S>(c: Cipher<S>, st: S, k: nat, tail: seq<byte>): seq<byte> {
    Pushed(c, st, [Frame([1] + Zeros(CHUNK - 1), false)] + ZeroFrames(k)) + tail
  }

  lemma OverfullReads<S(!new)>(c: Cipher<S>, st: S, k: nat, tail: seq<byte>)
    requires Inverts(c) && 1 <= |tail| <= OVERHEAD
    ensures |Overfull(c, st, k, tail)| == (k + 1) * TOTAL + |tail|
    ensures |ReadPadding(c, st, Overfull(c, st, k, tail)).data| == (k + 1) * CHUNK - 1
  {
    var plain := [1] + Zeros(CHUNK - 1);
    var (st', chunk) := c.push(st, plain, false);
    var fs := [Frame(plain, false)] + ZeroFrames(k);
    assert fs[0] == Frame(plain, false) && fs[1..] == ZeroFrames(k);
    ZeroFramesSize(c, st', k);
    var rest := Pushed(c, st', ZeroFrames(k)) + tail;
    var body := Overfull(c, st, k, tail);
    assert body == chunk + rest;
    assert body[..TOTAL] == chunk && body[TOTAL..] == rest;
    assert PadEnd(plain) == 0;
    assert plain[1..] == Zeros(CHUNK - 1);
    ReadsZeroFrames(c, st', k, tail, plain[1..]);
  }

  /** The size that is asked for is enough for every stream of that size exactly when the bytes after
      the last full chunk are none, one, or at least a whole tag; whatever the cipher and its state. */
  lemma RoomEnoughExactly<S(!new)>(c: Cipher<S>, st: S, size: nat)
    requires Inverts(c) && PullCosts(c)
    requires size < 0x1_0000_0000_0000_0000 - TOTAL && DecryptedMaxSize(size).Some?
    ensures size >= 25
    ensures BufferEnough(size) <==>
            forall body: seq<byte> :: |body| == size - 25 ==>
              |ReadPadding(c, st, body).data| <= DecryptedMaxSize(size).value
  {
    hide ReadPadding, DecryptedMaxSize, Inverts, PullCosts, Room;
    MaxSizeRoom(size);
    if BufferEnough(size) {
      forall body: seq<byte> | |body| == size - 25
        ensures |ReadPadding(c, st, body).data| <= DecryptedMaxSize(size).value
      {
        DataFitsBuffer(c, st, body, size);
      }
    } else {
      var body := OverfullOf(c, st, size);
      assert |body| == size - 25;
    }
  }

  /** A stream of the given size that decrypts to more than the buffer holds. */
  lemma OverfullOf<S(!new)>(c: Cipher<S>, st: S, size: nat) returns (body: seq<byte>)
    requires Inverts(c)
    requires 25 <= size < 0x1_0000_0000_0000_0000 - TOTAL && DecryptedMaxSize(size).Some? && !BufferEnough(size)
    ensures |body| == size - 25 && |ReadPadding(c, st, body).data| > DecryptedMaxSize(size).value
  {
    hide ReadPadding, DecryptedMaxSize, Inverts, Room;
    var k, y := (size - 25) / TOTAL, (size - 25) % TOTAL;
    DivMod(size - 25, TOTAL);
    MaxSizeRoom(size);
    RoomIs(size - 25, k, y);
    NotTooShort(size);
    body := Overfull(c, st, k - 1, Zeros(y));
    OverfullReads(c, st, k - 1, Zeros(y));
  }

  lemma NotTooShort(size: nat)
    requires 25 <= size && DecryptedMaxSize.requires(size) && DecryptedMaxSize(size).Some? && !BufferEnough(size)
    ensures size >= 25 + TOTAL
  {
    hide DecryptedMaxSize;
    if size < 43 {
      SmallMaxSize(size);
    }
  }

  // ----- the call

  /** Refused with an error, written past the end of the buffer, or so many bytes of data. */
  datatype Outcome = Refused | Overrun | Decrypted(size: nat)

  ghost function ReadingOf<S>(c: Cipher<S>, enc: seq<byte>): Reading
    requires |enc| >= 25
  {
    ReadPadding(c, c.init(enc[1..25]), enc[25..])
  }

  ghost function OutcomeOf<S>(c: Cipher<S>, enc: seq<byte>, room: nat): Outcome
    requires |enc| < 0x1_0000_0000_0000_0000 - TOTAL
  {
    if DecryptedMaxSize(|enc|).None? then Refused
    else
      MaxSizeRoom(|enc|);
      if enc[0] != 'S' as int || room < DecryptedMaxSize(|enc|).value then Refused
      else
        var reading := ReadingOf(c, enc);
        if |reading.data| > room then Overrun
        else if reading.ok then Decrypted(|reading.data|) else Refused
  }

  /** What is refused without being decrypted: too few bytes, a first byte other than 'S', and a buffer
      smaller than the size that is asked for. */
  lemma RefusedAtOnce<S>(c: Cipher<S>, enc: seq<byte>, room: nat)
    requires |enc| < 0x1_0000_0000_0000_0000 - TOTAL
    ensures |enc| < 26 ==> OutcomeOf(c, enc, room) == Refused
    ensures enc != [] && enc[0] != 0x53 ==> OutcomeOf(c, enc, room) == Refused
    ensures |enc| >= 43 && room < |enc| - 26 - Pieces(|enc| - 26, 32785) * 17 ==> OutcomeOf(c, enc, room) == Refused
  {
    hide ReadPadding, DecryptedMaxSize;
    MaxSizeIs(|enc|);
    if |enc| < 43 {
      SmallMaxSize(|enc|);
    }
  }

  /** No stream of a good size overruns a buffer of the size that is asked for. */
  lemma NoOverrun<S(!new)>(c: Cipher<S>, enc: seq<byte>, room: nat)
    requires PullCosts(c) && 25 <= |enc| < 0x1_0000_0000_0000_0000 - TOTAL && BufferEnough(|enc|)
    ensures !OutcomeOf(c, enc, room).Overrun?
  {
    hide PullCosts, ReadPadding, DecryptedMaxSize;
    if DecryptedMaxSize(|enc|).Some? {
      DataFitsBuffer(c, c.init(enc[1..25]), enc[25..], |enc|);
    }
  }

  /** At the call: a buffer of the size that is asked for is never overrun exactly when that size is
      one of the good ones. */
  lemma BufferEnoughExactly<S(!new)>(c: Cipher<S>, size: nat)
    requires Inverts(c) && PullCosts(c)
    requires size < 0x1_0000_0000_0000_0000 - TOTAL && DecryptedMaxSize(size).Some?
    ensures size >= 25
    ensures BufferEnough(size) <==>
            forall enc: seq<byte> :: |enc| == size ==> !OutcomeOf(c, enc, DecryptedMaxSize(size).value).Overrun?
  {
    hide ReadPadding, DecryptedMaxSize, Inverts, PullCosts;
    MaxSizeRoom(size);
    if BufferEnough(size) {
      forall enc: seq<byte> | |enc| == size
        ensures !OutcomeOf(c, enc, DecryptedMaxSize(size).value).Overrun?
      {
        NoOverrun(c, enc, DecryptedMaxSize(size).value);
      }
    } else {
      var nonce := Zeros(HEADER);
      var body := OverfullOf(c, c.init(nonce), size);
      var enc := ['S' as int] + nonce + body;
      assert enc[1..25] == nonce && enc[25..] == body;
      assert OutcomeOf(c, enc, DecryptedMaxSize(size).value).Overrun?;
    }
  }

  /** The frames of a readable stream hold something, so a tag and more follows the last full chunk. */
  lemma {:induction false} WholeFrames<S(!new)>(c: Cipher<S>, st: S, body: seq<byte>, k: nat, y: nat)
    requires PullCosts(c) && |body| == k * TOTAL + y && y < TOTAL
    requires FramesOf(c, st, body).Some? && NoneEmpty(FramesOf(c, st, body).value)
    ensures y == 0 || y > OVERHEAD
    decreases k
  {
    hide PullCosts, NoneEmpty;
    if body == [] {
    } else {
      FirstFrame(c, st, body);
      var n := ChunkLength(body);
      var p := c.pull(st, body[..n]).value;
      NoneEmptyCons(Frame(p.plain, p.final), FramesOf(c, p.st, body[n..]).value);
      if k > 0 {
        WholeFrames(c, p.st, body[n..], k - 1, y);
      }
    }
  }

  /** What is readable never overruns the buffer, whatever its size. */
  lemma ReadableFits<S(!new)>(c: Cipher<S>, st: S, body: seq<byte>)
    requires PullCosts(c) && |body| < 0x1_0000_0000_0000_0000 - TOTAL - 25 && ReadPadding(c, st, body).ok
    ensures DecryptedMaxSize(|body| + 25).Some?
    ensures |ReadPadding(c, st, body).data| <= DecryptedMaxSize(|body| + 25).value
  {
    hide PullCosts, FramesOf, NoneEmpty, Depad;
    OneShotFrames(c, st, body);
    var k, y := |body| / TOTAL, |body| % TOTAL;
    DivMod(|body|, TOTAL);
    WholeFrames(c, st, body, k, y);
    ReadableIsLong(c, st, body);
    LongHasMaxSize(|body| + 25);
    DataFitsBuffer(c, st, body, |body| + 25);
  }

  lemma ReadableIsLong<S>(c: Cipher<S>, st: S, body: seq<byte>)
    requires ReadPadding(c, st, body).ok
    ensures |body| > OVERHEAD
  {
  }

  lemma LongHasMaxSize(size: nat)
    requires 43 <= size < 0x1_0000_0000_0000_0000 - TOTAL
    ensures DecryptedMaxSize(size).Some?
  {
    var k, y := (size - 27) / TOTAL, (size - 27) % TOTAL;
    DivMod(size - 27, TOTAL);
    MaxSizeOf(size, k, y + 1);
  }

  /** Encrypting and decrypting into a buffer of the size that is asked for gives the data back. */
  lemma OneShotRoundTrip<S(!new)>(c: Cipher<S>, nonce: seq<byte>, padding: nat, data: seq<byte>, room: nat)
    requires Inverts(c) && PullCosts(c) && |nonce| == HEADER && padding >= 1
    requires |Encrypted(c, nonce, padding, data)| < 0x1_0000_0000_0000_0000 - TOTAL
    ensures var enc := Encrypted(c, nonce, padding, data);
            && DecryptedMaxSize(|enc|).Some?
            && (room >= DecryptedMaxSize(|enc|).value ==>
                  OutcomeOf(c, enc, room) == Decrypted(|data|) && ReadingOf(c, enc).data == data)
  {
    hide Inverts, PullCosts, ReadPadding, DecryptedMaxSize, Encrypted, Chunked;
    hide FramesOf, PadEnd, Depad, FinalLast, NoneEmpty;
    var enc, text := Encrypted(c, nonce, padding, data), Padded(padding, data);
    EncryptedFrames(c, nonce, padding, data);
    OneShotFrames(c, c.init(nonce), enc[25..]);
    var fs := Chunked(text);
    ChunkedShape(text);
    ChunkedText(text);
    DepadPadded(padding, data);
    BlankText(fs);
    PaddedReadable(fs);
    ReadableFits(c, c.init(nonce), enc[25..]);
  }

  lemma PaddedReadable(fs: seq<Frame>)
    requires FinalLast(fs) && BlankFrames(fs) < |fs|
    requires forall f :: f in fs ==> f.plain != []
    ensures Readable(fs)
  {
    FinalLastSuffix(fs, BlankFrames(fs));
    assert forall i :: 0 <= i < |fs| ==> fs[i] in fs;
  }

  lemma SliceChunk(enc: seq<byte>, pos: nat)
    requires pos <= |enc|
    ensures var n := ChunkLength(enc[pos..]);
            && pos + n <= |enc|
            && enc[pos..][..n] == enc[pos..pos + n]
            && enc[pos..][n..] == enc[pos + n..]
  {
  }

  /** Skips chunks of padding up to the one in which the padding ends: that chunk, as it
      was pulled, and the position behind it.  Nothing when the stream is refused. */
  method SkipPadding<S(!new)>(enc: seq<byte>, c: Cipher<S>, st0: S) returns (r: Option<Pulled<S>>, pos: nat, first: nat)
    requires |enc| >= 25
    ensures r.None? ==> ReadPadding(c, st0, enc[25..]) == Reading(false, [])
    ensures r.Some? ==>
              && 25 <= pos <= |enc| && first <= |r.value.plain|
              && ReadPadding(c, st0, enc[25..]) == AfterData(c, r.value, enc[pos..], r.value.plain[first..])
  {
    hide AfterData, PadEnd;
    var st := st0;
    pos, first := 25, 0;
    while true
      invariant 25 <= pos <= |enc|
      invariant ReadPadding(c, st, enc[pos..]) == ReadPadding(c, st0, enc[25..])
      decreases |enc| - pos
    {
      if pos + OVERHEAD >= |enc| {
        return None, pos, first;
      }
      var n := if |enc| - pos - OVERHEAD < CHUNK then |enc| - pos - OVERHEAD else CHUNK;
      var pulled := c.pull(st, enc[pos..pos + n + OVERHEAD]);
      SliceChunk(enc, pos);
      if pulled.None? {
        return None, pos, first;
      }
      var plain := pulled.value.plain;
      pos := pos + n + OVERHEAD;
      var padend := PadEnd(plain);
      if padend != |plain| {
        if plain[padend] != 1 {
          return None, pos, first;
        }
        return pulled, pos, padend + 1;
      }
      st := pulled.value.st;
    }
  }

  /** Decrypts `enc` into the caller's buffer. */
  method DecryptInto<S(!new)>(enc: seq<byte>, c: Cipher<S>, out: array<byte>) returns (r: Outcome)
    requires PullCosts(c) && |enc| < 0x1_0000_0000_0000_0000 - TOTAL
    modifies out
    ensures r == OutcomeOf(c, enc, out.Length)
    ensures r.Decrypted? ==> |enc| >= 25 && r.size <= out.Length && out[..r.size] == ReadingOf(c, enc).data
  {
    hide PullCosts, DecryptedMaxSize, ReadPadding, AfterData, ReadData;
    var max := DecryptedMaxSize(|enc|);
    if max.None? {
      return Refused;
    }
    MaxSizeRoom(|enc|);
    if enc[0] != 'S' as int {
      return Refused;
    }
    if out.Length < max.value {
      return Refused;
    }
    var found, pos, first := SkipPadding(enc, c, c.init(enc[1..25]));
    if found.None? {
      return Refused;
    }
    var p := found.value;
    r := CopyData(enc, c, out, p, pos, p.plain[first..]);
  }

  /** Copies the first data, then decrypts the remaining chunks behind it. */
  method CopyData<S(!new)>(enc: seq<byte>, c: Cipher<S>, out: array<byte>, p0: Pulled<S>, pos0: nat, initial: seq<byte>)
    returns (r: Outcome)
    requires PullCosts(c) && pos0 <= |enc|
    modifies out
    ensures var reading := AfterData(c, p0, enc[pos0..], initial);
            && r == (if |reading.data| > out.Length then Overrun
                     else if reading.ok then Decrypted(|reading.data|) else Refused)
            && (r.Decrypted? ==> out[..r.size] == reading.data)
  {
    hide PullCosts, ReadData;
    ghost var goal := AfterData(c, p0, enc[pos0..], initial);
    AfterDataSize(c, p0, enc[pos0..], initial);
    if |initial| > out.Length {
      return Overrun;
    }
    WriteAt(out, 0, initial);
    assert out[..|initial|] == initial;
    var decrypted: nat, pos: nat, p := |initial|, pos0, p0;
    while !p.final
      invariant decrypted <= out.Length && pos <= |enc|
      invariant AfterData(c, p, enc[pos..], out[..decrypted]) == goal
      decreases |enc| - pos
    {
      if pos == |enc| {
        return Refused;
      }
      SliceChunk(enc, pos);
      DataStep(c, p.st, enc[pos..], out[..decrypted]);
      if pos + OVERHEAD >= |enc| {
        return Refused;
      }
      var n := if |enc| - pos - OVERHEAD < CHUNK then |enc| - pos - OVERHEAD else CHUNK;
      var pulled := c.pull(p.st, enc[pos..pos + n + OVERHEAD]);
      if pulled.None? {
        return Refused;
      }
      p, pos := pulled.value, pos + n + OVERHEAD;
      AfterDataSize(c, p, enc[pos..], out[..decrypted] + p.plain);
      if decrypted + |p.plain| > out.Length {
        return Overrun;
      }
      WriteAt(out, decrypted, p.plain);
      decrypted := decrypted + |p.plain|;
    }
    if pos != |enc| {
      return Refused;
    }
    return Decrypted(decrypted);
  }

  lemma DataStep<S>(c: Cipher<S>, st: S, body: seq<byte>, acc: seq<byte>)
    ensures ReadData(c, st, body, acc) ==
            if |body| <= OVERHEAD || c.pull(st, body[..ChunkLength(body)]).None? then Reading(false, acc)
            else
              var p := c.pull(st, body[..ChunkLength(body)]).value;
              AfterData(c, p, body[ChunkLength(body)..], acc + p.plain)
  {
  }
}
