/** Sizes of padded and encrypted attachments (src/attachments.cpp).  `size_t` is modelled as an
    unbounded integer, except in `DecryptedMaxSize`, whose result relies on wrap-around. */
module AttachmentSizes {
  import opened Arithmetic
  import opened Options

  const HEADER: nat := 24
  const CHUNK: nat := 32768
  const OVERHEAD: nat := 17
  const TOTAL: nat := 32785

  /** How many pieces of at most `size` make up `n`. */
  function Pieces(n: nat, size: nat): nat
    requires size > 0
  {
    (n + size - 1) / size
  }

  predicate IsPowerOfTwo(p: nat) {
    p == 1 || (p >= 2 && p % 2 == 0 && IsPowerOfTwo(p / 2))
  }

  /** The largest power of two not above `x`. */
  function BitFloor(x: nat): (p: nat)
    requires x >= 1
    ensures p <= x < 2 * p && IsPowerOfTwo(p)
  {
    if x == 1 then 1 else 2 * BitFloor(x / 2)
  }

  lemma {:induction false} PowersApart(p: nat, q: nat)
    requires IsPowerOfTwo(p) && IsPowerOfTwo(q) && p < 2 * q
    ensures p <= q
  {
    if q <= 1 || p <= 1 {
    } else {
      PowersApart(p / 2, q / 2);
    }
  }

  /** The size before rounding: prefix, header, data, one byte of padding and the stream tags. */
  function RawSize(n: nat): nat {
    n + 1 + HEADER + 1 + Pieces(n, CHUNK) * OVERHEAD
  }

  lemma Powers()
    ensures IsPowerOfTwo(4096) && IsPowerOfTwo(8192) && IsPowerOfTwo(16384)
    ensures IsPowerOfTwo(32768) && IsPowerOfTwo(131072) && IsPowerOfTwo(262144)
  {
    assert IsPowerOfTwo(8) && IsPowerOfTwo(64) && IsPowerOfTwo(512);
  }

  lemma Twice(p: nat)
    requires IsPowerOfTwo(p)
    ensures IsPowerOfTwo(2 * p)
  {
    assert 2 * p / 2 == p;
  }

  lemma TimesThirtyTwo(p: nat)
    requires IsPowerOfTwo(p)
    ensures IsPowerOfTwo(32 * p)
  {
    hide IsPowerOfTwo;
    Twice(p);
    Twice(2 * p);
    Twice(4 * p);
    Twice(8 * p);
    Twice(16 * p);
  }

  /** Shifting a power of two right by five bits. */
  lemma ShiftFive(p: nat)
    requires IsPowerOfTwo(p) && p >= 32
    ensures p == 32 * (p / 32) && IsPowerOfTwo(p / 32)
  {
    assert IsPowerOfTwo(p / 2) && p == 2 * (p / 2);
    assert IsPowerOfTwo(p / 4) && p == 4 * (p / 4) by { assert p / 2 / 2 == p / 4; }
    assert IsPowerOfTwo(p / 8) && p == 8 * (p / 8) by { assert p / 4 / 2 == p / 8; }
    assert IsPowerOfTwo(p / 16) && p == 16 * (p / 16) by { assert p / 8 / 2 == p / 16; }
    assert p / 16 / 2 == p / 32;
  }

  /** A 32nd of the size's highest power of two, and at least 4096. */
  function PadFactor(n: nat): (f: nat)
    ensures f >= 4096 && IsPowerOfTwo(f)
    ensures var m := if RawSize(n) < 131072 then 131072 else RawSize(n); 32 * f <= m < 64 * f
  {
    hide Pieces, IsPowerOfTwo, BitFloor;
    var raw := RawSize(n);
    var p := BitFloor(if raw < 131072 then 131072 else raw);
    Powers();
    PowersApart(131072, p);
    ShiftFive(p);
    p / 32
  }

  function RoundUp(x: nat, f: nat): (r: nat)
    requires f > 0
    ensures x <= r < x + f && r % f == 0
  {
    var q := (x + f - 1) / f;
    assert x + f - 1 == q * f + (x + f - 1) % f;
    DivUnique(q * f, f, q, 0);
    q * f
  }

  /** The raw size rounded up to a multiple of the pad factor. */
  function RoundedSize(n: nat): (r: nat)
    ensures RawSize(n) <= r < RawSize(n) + PadFactor(n) && r % PadFactor(n) == 0
  {
    hide PadFactor, RawSize, RoundUp;
    RoundUp(RawSize(n), PadFactor(n))
  }

  /** The number of padding bytes; the tags that the padding itself adds are taken out of it. */
  function Padding(n: nat): int {
    var padding := RoundedSize(n) - RawSize(n) + 1;
    var full := padding / TOTAL * OVERHEAD;
    var free := Pieces(n, CHUNK) * CHUNK - n;
    padding - (if padding >= TOTAL then full else 0) - (if padding % TOTAL > free then OVERHEAD else 0)
  }

  /** Even where the padding comes out negative, data and padding together do not. */
  lemma PaddedNonNegative(n: nat)
    ensures n + Padding(n) >= 0
  {
    hide PadFactor, RoundedSize, RawSize;
    var p := RoundedSize(n) - RawSize(n) + 1;
    DivMod(p, TOTAL);
    ChunkBounds(n);
    if n < OVERHEAD {
      TinySize(n);
    }
  }

  function EncryptedSize(n: nat): int {
    PaddedNonNegative(n);
    var padded: nat := n + Padding(n);
    1 + HEADER + padded + Pieces(padded, CHUNK) * OVERHEAD
  }

  // ----- div and mod

  /** The number of chunks is `c` exactly between the two chunk boundaries. */
  lemma ChunkCount(x: int, c: nat)
    requires (c == 0 && x == 0) || (c >= 1 && (c - 1) * CHUNK < x <= c * CHUNK)
    ensures Pieces(x, CHUNK) == c
  {
    if c == 0 {
      assert x + CHUNK - 1 == 0 * CHUNK + (CHUNK - 1);
      DivUnique(x + CHUNK - 1, CHUNK, 0, CHUNK - 1);
    } else {
      DivUnique(x + CHUNK - 1, CHUNK, c, x + CHUNK - 1 - c * CHUNK);
    }
  }

  lemma ChunkBounds(n: nat)
    ensures var c := Pieces(n, CHUNK); n <= c * CHUNK < n + CHUNK && (c == 0 <==> n == 0)
  {
    var c := Pieces(n, CHUNK);
    assert n + CHUNK - 1 == c * CHUNK + (n + CHUNK - 1) % CHUNK;
  }

  // ----- the padding formula is exact

  /** A stream of whole chunks and one last chunk can have every size except those that would end
      within the tag of the last chunk. */
  predicate Fits(n: nat) {
    var m := (RoundedSize(n) - 1 - HEADER) % TOTAL;
    !(1 <= m <= OVERHEAD)
  }

  lemma PaddingCases(n: nat, q: nat, r: nat, free: nat)
    requires RoundedSize(n) - RawSize(n) + 1 == q * TOTAL + r && r < TOTAL
    requires free == Pieces(n, CHUNK) * CHUNK - n
    ensures Padding(n) == q * CHUNK + r - (if r > free then OVERHEAD else 0)
  {
    var p := RoundedSize(n) - RawSize(n) + 1;
    hide PadFactor, RoundedSize, RawSize, Pieces;
    DivUnique(p, TOTAL, q, r);
    assert p < TOTAL ==> q == 0;
  }

  lemma FitsCases(n: nat, q: nat, r: nat, free: nat)
    requires RoundedSize(n) - RawSize(n) + 1 == q * TOTAL + r && r < TOTAL
    requires free == Pieces(n, CHUNK) * CHUNK - n && free < CHUNK
    ensures Fits(n) <==> r <= free || r > free + OVERHEAD
  {
    hide PadFactor, RoundedSize, Pieces;
    var c := Pieces(n, CHUNK);
    var m := RoundedSize(n) - 1 - HEADER;
    assert m == (c + q) * TOTAL + r - free;
    if r >= free {
      DivUnique(m, TOTAL, c + q, r - free);
    } else {
      assert m == (c + q - 1) * TOTAL + (TOTAL + r - free);
      DivUnique(m, TOTAL, c + q - 1, TOTAL + r - free);
    }
  }

  /** With the compensation for tags the encrypted size is exactly the rounded size, with at least
      one byte of padding, exactly for the sizes that fit.  Otherwise it is 17 bytes short. */
  lemma PaddingExact(n: nat)
    ensures Fits(n) <==> Padding(n) >= 1 && EncryptedSize(n) == RoundedSize(n)
    ensures !Fits(n) ==> EncryptedSize(n) == RoundedSize(n) - OVERHEAD
  {
    hide PadFactor, RoundedSize, Fits, Padding;
    var c := Pieces(n, CHUNK);
    ChunkBounds(n);
    var p0 := RoundedSize(n) - RawSize(n) + 1;
    var q, r, free := p0 / TOTAL, p0 % TOTAL, c * CHUNK - n;
    PaddingCases(n, q, r, free);
    FitsCases(n, q, r, free);
    if n == 0 { TinySize(n); }
    PaddedNonNegative(n);
    var x := n + Padding(n);
    if r <= free {
      ChunkCount(x, c + q);
    } else if r > free + OVERHEAD {
      ChunkCount(x, c + q + 1);
    } else {
      ChunkCount(x, c + q);
    }
  }

  /** Sizes of up to 16 bytes are padded to 4096. */
  lemma TinySize(n: nat)
    requires n < OVERHEAD
    ensures RoundedSize(n) == 4096 && RawSize(n) <= 59
  {
    hide PadFactor, IsPowerOfTwo;
    ChunkCount(n, if n == 0 then 0 else 1);
    Powers();
    PowersApart(PadFactor(n), 4096);
    assert PadFactor(n) == 4096;
  }

  // ----- which sizes fit

  /** When a small multiple of the factor falls just short of whole encrypted chunks, no multiple of the
      factor that is a padded size ends within a tag. */
  lemma NeverInTag(f: nat, j: nat, c: nat, s: nat, m: nat)
    requires f >= 4096 && 1 <= j <= 64 && c >= 1 && s >= 1
    requires c * f == m * TOTAL - s && 64 * s + 42 * c < TOTAL
    ensures !(1 <= (f * j - 25) % TOTAL <= OVERHEAD)
  {
    var v := f * j - 25;
    assert v >= 0 by { MulAtLeast(j, f); Commute(f, j); }
    var q, u := v / TOTAL, v % TOTAL;
    DivMod(v, TOTAL);
    if 1 <= u <= OVERHEAD {
      var t := u + 25;
      ShortOf(f, j, c, s, m, q, t);
      assert 0 < c * t + s * j < TOTAL by {
        Below(c, t, 42);
        Below(s, j, 64);
      }
      NotMultiple(c * t + s * j, m * j - c * q);
    }
  }

  lemma Below(x: nat, y: nat, bound: nat)
    requires x >= 1 && 1 <= y <= bound
    ensures 1 <= x * y <= x * bound
  {
  }

  /** What is left of `c` padded sizes and of `j` shortfalls makes whole encrypted chunks. */
  lemma ShortOf(f: nat, j: nat, c: nat, s: nat, m: nat, q: nat, t: nat)
    requires c * f == m * TOTAL - s && f * j == q * TOTAL + t
    ensures c * t + s * j == (m * j - c * q) * TOTAL
  {
    assert c * (f * j) == c * f * j;
    assert c * (q * TOTAL + t) == c * q * TOTAL + c * t;
    assert (m * TOTAL - s) * j == m * j * TOTAL - s * j;
    assert (m * j - c * q) * TOTAL == m * j * TOTAL - c * q * TOTAL;
  }

  lemma NotMultiple(x: int, k: int)
    requires x == k * TOTAL
    ensures !(0 < x < TOTAL)
  {
  }

  /** The one factor with a multiple that does: 39 times two to the 35. */
  lemma OneInTag(f: nat, j: nat)
    requires f == 0x8_0000_0000 && 1 <= j <= 64
    ensures 1 <= (f * j - 25) % TOTAL <= OVERHEAD <==> j == 39
  {
    var v := f * j - 25;
    var q, u := v / TOTAL, v % TOTAL;
    DivMod(v, TOTAL);
    if 1 <= u <= OVERHEAD {
      var t, m := u + 25, 40_873_259;
      assert 39 * f == m * TOTAL + 37;
      assert 39 * t - 37 * j == (m * j - 39 * q) * TOTAL;
      NotMultiple(39 * t - 37 * j, m * j - 39 * q);
      NotMultiple(37 * j - 39 * t, 39 * q - m * j);
    }
    if j == 39 {
      DivUnique(v, TOTAL, 40_873_259, 12);
    }
  }

  /** A power of two above another is at least its double, which is one too. */
  lemma NextPower(f: nat, p: nat)
    requires IsPowerOfTwo(f) && IsPowerOfTwo(p) && f > p
    ensures f >= 2 * p && IsPowerOfTwo(2 * p)
  {
    if f < 2 * p {
      PowersApart(f, p);
    }
  }

  const LONE: nat := 1_340_029_796_352

  ghost predicate InTagOnlyAt(f: nat, j: nat) {
    1 <= (f * j - 25) % TOTAL <= OVERHEAD <==> f * j == LONE
  }

  lemma NotLone(f: nat, j: nat, c: nat, s: nat, m: nat)
    requires f >= 4096 && 1 <= j <= 64 && c >= 1 && s >= 1
    requires c * f == m * TOTAL - s && 64 * s + 42 * c < TOTAL
    ensures InTagOnlyAt(f, j)
  {
    NeverInTag(f, j, c, s, m);
    if f * j == LONE {
      DivUnique(f * j - 25, TOTAL, 40_873_259, 12);
    }
  }

  lemma LoneFactor(f: nat, j: nat)
    requires f == 0x8_0000_0000 && 1 <= j <= 64
    ensures InTagOnlyAt(f, j)
  {
    OneInTag(f, j);
  }

  // The small multiples, factor by factor.

  lemma Factors12(f: nat, j: nat, start: nat)
    requires IsPowerOfTwo(f) && f >= start && start == 0x1000 && IsPowerOfTwo(start) && 1 <= j <= 64
    ensures InTagOnlyAt(f, j) || (f >= 0x10_0000 && IsPowerOfTwo(0x10_0000))
  {
    hide IsPowerOfTwo, InTagOnlyAt;
    if f == 0x1000 { NotLone(f, j, 8, 17, 1); return; }
    NextPower(f, 0x1000);
    if f == 0x2000 { NotLone(f, j, 4, 17, 1); return; }
    NextPower(f, 0x2000);
    if f == 0x4000 { NotLone(f, j, 2, 17, 1); return; }
    NextPower(f, 0x4000);
    if f == 0x8000 { NotLone(f, j, 1, 17, 1); return; }
    NextPower(f, 0x8000);
    if f == 0x1_0000 { NotLone(f, j, 1, 34, 2); return; }
    NextPower(f, 0x1_0000);
    if f == 0x2_0000 { NotLone(f, j, 1, 68, 4); return; }
    NextPower(f, 0x2_0000);
    if f == 0x4_0000 { NotLone(f, j, 1, 136, 8); return; }
    NextPower(f, 0x4_0000);
    if f == 0x8_0000 { NotLone(f, j, 1, 272, 16); return; }
    NextPower(f, 0x8_0000);
  }

  lemma Factors20(f: nat, j: nat, start: nat)
    requires IsPowerOfTwo(f) && f >= start && start == 0x10_0000 && IsPowerOfTwo(start) && 1 <= j <= 64
    ensures InTagOnlyAt(f, j) || (f >= 0x1000_0000 && IsPowerOfTwo(0x1000_0000))
  {
    hide IsPowerOfTwo, InTagOnlyAt;
    if f == 0x10_0000 { NotLone(f, j, 61, 399, 1951); return; }
    NextPower(f, 0x10_0000);
    if f == 0x20_0000 { NotLone(f, j, 151, 363, 9659); return; }
    NextPower(f, 0x20_0000);
    if f == 0x40_0000 { NotLone(f, j, 196, 291, 25075); return; }
    NextPower(f, 0x40_0000);
    if f == 0x80_0000 { NotLone(f, j, 98, 291, 25075); return; }
    NextPower(f, 0x80_0000);
    if f == 0x100_0000 { NotLone(f, j, 49, 291, 25075); return; }
    NextPower(f, 0x100_0000);
    if f == 0x200_0000 { NotLone(f, j, 81, 293, 82901); return; }
    NextPower(f, 0x200_0000);
    if f == 0x400_0000 { NotLone(f, j, 97, 297, 198553); return; }
    NextPower(f, 0x400_0000);
    if f == 0x800_0000 { NotLone(f, j, 105, 305, 429857); return; }
    NextPower(f, 0x800_0000);
  }

  lemma Factors28(f: nat, j: nat, start: nat)
    requires IsPowerOfTwo(f) && f >= start && start == 0x1000_0000 && IsPowerOfTwo(start) && 1 <= j <= 64
    ensures InTagOnlyAt(f, j) || (f >= 0x10_0000_0000 && IsPowerOfTwo(0x10_0000_0000))
  {
    hide IsPowerOfTwo, InTagOnlyAt;
    if f == 0x1000_0000 { NotLone(f, j, 109, 321, 892465); return; }
    NextPower(f, 0x1000_0000);
    if f == 0x2000_0000 { NotLone(f, j, 111, 353, 1817681); return; }
    NextPower(f, 0x2000_0000);
    if f == 0x4000_0000 { NotLone(f, j, 112, 417, 3668113); return; }
    NextPower(f, 0x4000_0000);
    if f == 0x8000_0000 { NotLone(f, j, 56, 417, 3668113); return; }
    NextPower(f, 0x8000_0000);
    if f == 0x1_0000_0000 { NotLone(f, j, 28, 417, 3668113); return; }
    NextPower(f, 0x1_0000_0000);
    if f == 0x2_0000_0000 { NotLone(f, j, 14, 417, 3668113); return; }
    NextPower(f, 0x2_0000_0000);
    if f == 0x4_0000_0000 { NotLone(f, j, 7, 417, 3668113); return; }
    NextPower(f, 0x4_0000_0000);
    if f == 0x8_0000_0000 { LoneFactor(f, j); return; }
    NextPower(f, 0x8_0000_0000);
  }

  lemma Factors36(f: nat, j: nat, start: nat)
    requires IsPowerOfTwo(f) && f >= start && start == 0x10_0000_0000 && IsPowerOfTwo(start) && 1 <= j <= 64
    ensures InTagOnlyAt(f, j) || (f >= 0x1000_0000_0000 && IsPowerOfTwo(0x1000_0000_0000))
  {
    hide IsPowerOfTwo, InTagOnlyAt;
    if f == 0x10_0000_0000 { NotLone(f, j, 296, 279, 620435111); return; }
    NextPower(f, 0x10_0000_0000);
    if f == 0x20_0000_0000 { NotLone(f, j, 109, 427, 456942075); return; }
    NextPower(f, 0x20_0000_0000);
    if f == 0x40_0000_0000 { NotLone(f, j, 74, 279, 620435111); return; }
    NextPower(f, 0x40_0000_0000);
    if f == 0x80_0000_0000 { NotLone(f, j, 37, 279, 620435111); return; }
    NextPower(f, 0x80_0000_0000);
    if f == 0x100_0000_0000 { NotLone(f, j, 75, 245, 2515277477); return; }
    NextPower(f, 0x100_0000_0000);
    if f == 0x200_0000_0000 { NotLone(f, j, 94, 177, 6304962209); return; }
    NextPower(f, 0x200_0000_0000);
    if f == 0x400_0000_0000 { NotLone(f, j, 47, 177, 6304962209); return; }
    NextPower(f, 0x400_0000_0000);
    if f == 0x800_0000_0000 { NotLone(f, j, 47, 354, 12609924418); return; }
    NextPower(f, 0x800_0000_0000);
  }

  lemma Factors44(f: nat, j: nat, start: nat)
    requires IsPowerOfTwo(f) && f >= start && start == 0x1000_0000_0000 && IsPowerOfTwo(start) && 1 <= j <= 64
    ensures InTagOnlyAt(f, j) || (f >= 0x10_0000_0000_0000 && IsPowerOfTwo(0x10_0000_0000_0000))
  {
    hide IsPowerOfTwo, InTagOnlyAt;
    if f == 0x1000_0000_0000 { NotLone(f, j, 207, 328, 111074653384); return; }
    NextPower(f, 0x1000_0000_0000);
    if f == 0x2000_0000_0000 { NotLone(f, j, 287, 276, 308004111316); return; }
    NextPower(f, 0x2000_0000_0000);
    if f == 0x4000_0000_0000 { NotLone(f, j, 317, 267, 680399326043); return; }
    NextPower(f, 0x4000_0000_0000);
    if f == 0x8000_0000_0000 { NotLone(f, j, 332, 249, 1425189755497); return; }
    NextPower(f, 0x8000_0000_0000);
    if f == 0x1_0000_0000_0000 { NotLone(f, j, 166, 249, 1425189755497); return; }
    NextPower(f, 0x1_0000_0000_0000);
    if f == 0x2_0000_0000_0000 { NotLone(f, j, 83, 249, 1425189755497); return; }
    NextPower(f, 0x2_0000_0000_0000);
    if f == 0x4_0000_0000_0000 { NotLone(f, j, 127, 367, 4361424071039); return; }
    NextPower(f, 0x4_0000_0000_0000);
    if f == 0x8_0000_0000_0000 { NotLone(f, j, 193, 341, 13255981822213); return; }
    NextPower(f, 0x8_0000_0000_0000);
  }

  lemma Factors52(f: nat, j: nat, start: nat)
    requires IsPowerOfTwo(f) && f >= start && start == 0x10_0000_0000_0000 && IsPowerOfTwo(start) && 1 <= j <= 64
    ensures InTagOnlyAt(f, j) || (f >= 0x800_0000_0000_0000 && IsPowerOfTwo(0x800_0000_0000_0000))
  {
    hide IsPowerOfTwo, InTagOnlyAt;
    if f == 0x10_0000_0000_0000 { NotLone(f, j, 226, 289, 31045097324561); return; }
    NextPower(f, 0x10_0000_0000_0000);
    if f == 0x20_0000_0000_0000 { NotLone(f, j, 113, 289, 31045097324561); return; }
    NextPower(f, 0x20_0000_0000_0000);
    if f == 0x40_0000_0000_0000 { NotLone(f, j, 62, 27, 34067186444651); return; }
    NextPower(f, 0x40_0000_0000_0000);
    if f == 0x80_0000_0000_0000 { NotLone(f, j, 31, 27, 34067186444651); return; }
    NextPower(f, 0x80_0000_0000_0000);
    if f == 0x100_0000_0000_0000 { NotLone(f, j, 31, 54, 68134372889302); return; }
    NextPower(f, 0x100_0000_0000_0000);
    if f == 0x200_0000_0000_0000 { NotLone(f, j, 31, 108, 136268745778604); return; }
    NextPower(f, 0x200_0000_0000_0000);
    if f == 0x400_0000_0000_0000 { NotLone(f, j, 31, 216, 272537491557208); return; }
    NextPower(f, 0x400_0000_0000_0000);
  }

  lemma MultipleBound(r: nat, f: nat, j: nat)
    requires f > 0 && r == f * j && 0 < r < 65 * f
    ensures 1 <= j <= 64
  {
    assert (j - 64) * f == f * j - 64 * f;
    if j >= 65 {
      MulAtLeast(j - 64, f);
    }
  }

  /** The rounded size is at most 64 times the pad factor. */
  lemma RoundedMultiple(n: nat) returns (j: nat)
    ensures RoundedSize(n) == PadFactor(n) * j && 1 <= j <= 64
  {
    hide RawSize, PadFactor, RoundedSize, IsPowerOfTwo;
    RawPositive(n);
    j := RoundedSize(n) / PadFactor(n);
    assert RoundedSize(n) < 65 * PadFactor(n);
    MultipleBound(RoundedSize(n), PadFactor(n), j);
  }

  lemma RawPositive(n: nat)
    ensures RawSize(n) > 0
  {
  }

  /** Among all sizes below 2^64 exactly one rounded size does not fit. */
  lemma FitsExactly(n: nat)
    requires RoundedSize(n) < 0x1_0000_0000_0000_0000
    ensures Fits(n) <==> RoundedSize(n) != LONE
  {
    hide RawSize, PadFactor, RoundedSize, IsPowerOfTwo;
    var f := PadFactor(n);
    var j := RoundedMultiple(n);
    Powers();
    Factors12(f, j, 0x1000);
    if f >= 0x10_0000 && IsPowerOfTwo(0x10_0000) {
      Factors20(f, j, 0x10_0000);
    }
    if f >= 0x1000_0000 && IsPowerOfTwo(0x1000_0000) {
      Factors28(f, j, 0x1000_0000);
    }
    if f >= 0x10_0000_0000 && IsPowerOfTwo(0x10_0000_0000) {
      Factors36(f, j, 0x10_0000_0000);
    }
    if f >= 0x1000_0000_0000 && IsPowerOfTwo(0x1000_0000_0000) {
      Factors44(f, j, 0x1000_0000_0000);
    }
    if f >= 0x10_0000_0000_0000 && IsPowerOfTwo(0x10_0000_0000_0000) {
      Factors52(f, j, 0x10_0000_0000_0000);
    }
  }

  /** Computes the rounded size from the number of chunks and the pad factor. */
  lemma RoundedIs(n: nat, c: nat, f: nat, j: nat)
    requires c >= 1 && (c - 1) * CHUNK < n <= c * CHUNK
    requires var raw := n + 26 + c * OVERHEAD;
             131072 <= raw && IsPowerOfTwo(f) && 32 * f <= raw < 64 * f && raw <= f * j < raw + f
    ensures RawSize(n) == n + 26 + c * OVERHEAD && RoundedSize(n) == f * j
  {
    hide IsPowerOfTwo, RoundedSize, PadFactor;
    ChunkCount(n, c);
    PowersApart(PadFactor(n), f);
    PowersApart(f, PadFactor(n));
    var r := RoundedSize(n);
    var q := r / f;
    assert r == f * q;
    SameMultiple(f, q, j);
  }

  lemma SameMultiple(f: nat, q: nat, j: nat)
    requires f > 0 && f * q < f * j + f && f * j < f * q + f
    ensures q == j
  {
    assert (q - j) * f == f * q - f * j;
    if q > j { MulAtLeast(q - j, f); }
    if j > q { MulAtLeast(j - q, f); }
  }

  /** Sizes between 8 and 16 MB are padded to multiples of 262144. */
  lemma RegularSize(n: nat, c: nat, j: nat)
    requires c >= 1 && (c - 1) * CHUNK < n <= c * CHUNK && 8_388_608 <= n < 16_000_000
    requires n + 26 + c * OVERHEAD <= 262_144 * j < n + 26 + c * OVERHEAD + 262_144
    ensures RawSize(n) == n + 26 + c * OVERHEAD && RoundedSize(n) == 262_144 * j && EncryptedSize(n) == 262_144 * j
  {
    hide Fits, Padding, RoundedSize, EncryptedSize, RawSize, IsPowerOfTwo;
    Powers();
    RoundedIs(n, c, 262_144, j);
    FitsExactly(n);
    PaddingExact(n);
  }

  /** The documented limit: the largest attachment padded to the same size as one of 10 MB. */
  lemma MaxRegularSize(typical: nat, max: nat)
    requires typical == 10_000_000 && max == 10_218_286
    ensures EncryptedSize(typical) == 10_223_616 && EncryptedSize(max) == 10_223_616 && Padding(max) == 1
    ensures EncryptedSize(max + 1) == 10_485_760
  {
    hide Padding, RoundedSize, EncryptedSize, RawSize, Pieces;
    RegularSize(typical, 306, 39);
    RegularSize(max, 312, 39);
    RegularSize(max + 1, 312, 40);
    ChunkCount(max, 312);
    PaddingCases(max, 0, 1, 312 * CHUNK - max);
  }

  lemma TeraSize(n: nat, c: nat)
    requires c >= 1 && (c - 1) * CHUNK < n <= c * CHUNK && 1_320_000_000_000 <= n
    requires 1_340_029_796_352 - 34_359_738_368 < n + 26 + c * OVERHEAD <= 1_340_029_796_352
    ensures RawSize(n) == n + 26 + c * OVERHEAD && RoundedSize(n) == 1_340_029_796_352 && !Fits(n)
  {
    hide Padding, RoundedSize, EncryptedSize, RawSize, IsPowerOfTwo, Pieces;
    TeraFactor();
    RoundedIs(n, c, 34_359_738_368, 39);
    DivUnique(1_340_029_796_352 - 25, TOTAL, 40_873_259, 12);
  }

  /** Beyond the terabyte the formula does fail: the first size ends 17 bytes short of the rounded
      size, and the second would get no padding byte at all. */
  lemma SizesThatDoNotFit(n: nat, m: nat)
    requires n == 1_320_000_000_000 && m == 1_339_334_950_907
    ensures !Fits(n) && EncryptedSize(n) == RoundedSize(n) - OVERHEAD
    ensures !Fits(m) && Padding(m) == 0
  {
    hide Padding, RoundedSize, EncryptedSize, RawSize, Fits, Pieces;
    TeraSize(n, 40_283_204);
    PaddingExact(n);
    TeraSize(m, 40_873_259);
    ChunkCount(m, 40_873_259);
    PaddingCases(m, 0, 17, 5);
  }

  lemma TeraFactor()
    ensures IsPowerOfTwo(34_359_738_368)
  {
    hide IsPowerOfTwo;
    Powers();
    TimesThirtyTwo(32_768);
    TimesThirtyTwo(1_048_576);
    TimesThirtyTwo(33_554_432);
    TimesThirtyTwo(1_073_741_824);
  }

  // ----- decrypted_max_size

  function Wrap(x: int): nat {
    x % 0x1_0000_0000_0000_0000
  }

  /** The largest plaintext an encrypted attachment of this size can hold; nothing when too short. */
  function DecryptedMaxSize(size: nat): Option<nat>
    requires size < 0x1_0000_0000_0000_0000
  {
    var sz := Wrap(size - 1 - 1 - HEADER);
    var overhead := Wrap(sz + TOTAL - 1) / TOTAL * OVERHEAD;
    var result := Wrap(sz - overhead);
    if result > size then None else Some(result)
  }

  lemma MaxSizeOf(size: nat, k: nat, y: nat)
    requires 43 <= size < 0x1_0000_0000_0000_0000 - TOTAL
    requires size - 26 == k * TOTAL + y && 1 <= y <= TOTAL
    ensures DecryptedMaxSize(size) == Some(size - 26 - (k + 1) * OVERHEAD)
  {
    DivUnique(size - 26 + TOTAL - 1, TOTAL, k + 1, y - 1);
  }

  lemma SmallMaxSize(size: nat)
    requires size < 43
    ensures DecryptedMaxSize(size) == if size == 26 then Some(0) else None
  {
  }

  /** Sizes too small for one chunk with a byte of padding are refused by way of the wrap-around, except for
      26; from 43 on every tag is taken off, and the byte that ends the padding. */
  lemma MaxSizeIs(size: nat)
    requires size < 0x1_0000_0000_0000_0000 - TOTAL
    ensures size == 26 ==> DecryptedMaxSize(size) == Some(0)
    ensures size < 43 && size != 26 ==> DecryptedMaxSize(size) == None
    ensures size >= 43 ==> DecryptedMaxSize(size) == Some(size - 26 - Pieces(size - 26, TOTAL) * OVERHEAD)
  {
    hide DecryptedMaxSize;
    if size < 43 {
      SmallMaxSize(size);
    } else {
      var k, y := (size - 27) / TOTAL, (size - 27) % TOTAL;
      DivMod(size - 27, TOTAL);
      MaxSizeOf(size, k, y + 1);
      DivUnique(size - 26 + TOTAL - 1, TOTAL, k + 1, y);
    }
  }

  /** The buffer that is asked for holds exactly the data and the padding without its terminator. */
  lemma MaxSizeExact(n: nat)
    requires Padding(n) >= 1 && EncryptedSize(n) < 0x1_0000_0000_0000_0000 - TOTAL
    ensures DecryptedMaxSize(EncryptedSize(n)) == Some(n + Padding(n) - 1)
  {
    var x: nat := n + Padding(n);
    var c := Pieces(x, CHUNK);
    ChunkBounds(x);
    MaxSizeOf(EncryptedSize(n), c - 1, x - (c - 1) * CHUNK + 16);
  }
}
