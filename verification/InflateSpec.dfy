/**
 A pure decoder for DEFLATE (RFC 1951) and its zlib wrapper (RFC 1950).  It reads one
 infinite-precision bit string from the front and returns how decoding ends together with
 everything produced, without buffers, tables or calls to resume.
 */
module InflateSpec {
  import opened Bits
  import opened Huffman
  import opened Sequences
  import HuffTable
  import Adler32

  /**
   How a stream ends.  Undefined marks streams outside section 3.2 of RFC 1951 that the
   decoder under study does not detect: symbols 286 and 287, distance codes 30 and 31, a
   distance reaching before the first output byte, and code sets with at most one symbol.
   */
  datatype Outcome =
    | Done(out: seq<byte>)
    | Mismatch(out: seq<byte>)
    | Failed(out: seq<byte>)
    | Starved(out: seq<byte>)
    | Undefined

  /** What stays fixed inside a block: the container and the final-block bit. */
  datatype Frame = Frame(zlib: bool, final: bool)

  const LENGTH_BASE: seq<nat> := [3, 4, 5, 6, 7, 8, 9, 10, 11, 13, 15, 17, 19, 23, 27, 31, 35, 43, 51, 59, 67, 83,
                                  99, 115, 131, 163, 195, 227, 258]
  const LENGTH_EXTRA: seq<nat> := [0, 0, 0, 0, 0, 0, 0, 0, 1, 1, 1, 1, 2, 2, 2, 2, 3, 3, 3, 3, 4, 4, 4, 4, 5, 5, 5, 5, 0]
  const DIST_BASE: seq<nat> := [1, 2, 3, 4, 5, 7, 9, 13, 17, 25, 33, 49, 65, 97, 129, 193, 257, 385, 513, 769, 1025,
                                1537, 2049, 3073, 4097, 6145, 8193, 12289, 16385, 24577]
  const DIST_EXTRA: seq<nat> := [0, 0, 0, 0, 1, 1, 2, 2, 3, 3, 4, 4, 5, 5, 6, 6, 7, 7, 8, 8, 9, 9, 10, 10, 11, 11, 12,
                                 12, 13, 13]
  const CODE_LENGTH_ORDER: seq<nat> := [16, 17, 18, 0, 8, 7, 9, 6, 10, 5, 11, 4, 12, 3, 13, 2, 14, 1, 15]
  const SIZE_BITS: seq<nat> := [5, 5, 4]
  const SIZE_MIN: seq<nat> := [257, 1, 4]
  const REPEAT_BITS: seq<nat> := [2, 3, 7]
  const REPEAT_MIN: seq<nat> := [3, 3, 11]
  const WINDOW: nat := 32768

  /** The symbol whose length is the k-th to be sent. */
  function ClSlot(k: nat): (i: nat)
    requires k < 19
    ensures i < 19
  {
    CODE_LENGTH_ORDER[k]
  }

  function LengthBase(i: nat): nat
    requires i < 29
  {
    LENGTH_BASE[i]
  }

  function LengthExtra(i: nat): nat
    requires i < 29
  {
    LENGTH_EXTRA[i]
  }

  function DistBase(i: nat): nat
    requires i < 30
  {
    DIST_BASE[i]
  }

  function DistExtra(i: nat): nat
    requires i < 30
  {
    DIST_EXTRA[i]
  }

  // ---- reading elements -----------------------------------------------------

  function Byte(bits: seq<bool>): (b: byte)
    requires |bits| >= 8
  {
    assert Pow2(8) == 256;
    Value(bits[..8])
  }

  function Word(lo: byte, hi: byte): nat {
    (lo as int) + 256 * (hi as int)
  }

  /** Skips to the next byte boundary; the stream is a whole number of bytes. */
  function Align(bits: seq<bool>): (r: seq<bool>)
    ensures |r| % 8 == 0 && |r| <= |bits|
  {
    bits[|bits| % 8..]
  }

  datatype Decoded = Symbol(sym: nat) | NeedMore

  /** The symbol whose code the bit string starts with. */
  ghost function Decode(lens: CodeLengths, bits: seq<bool>): (d: Decoded)
    ensures d.Symbol? ==> Used(lens, d.sym) && Code(lens, d.sym) <= bits
    ensures d.NeedMore? ==> forall s: nat | Used(lens, s) :: !(Code(lens, s) <= bits)
  {
    if s: nat :| Used(lens, s) && Code(lens, s) <= bits then Symbol(s) else NeedMore
  }

  /** Copying n bytes from distance d back, byte by byte, so that a match may overlap itself. */
  function CopyMatch(hist: seq<byte>, d: nat, n: nat): (r: seq<byte>)
    requires 1 <= d <= |hist|
    ensures |r| == |hist| + n && hist <= r
    decreases n
  {
    if n == 0 then hist else CopyMatch(hist + [hist[|hist| - d]], d, n - 1)
  }

  /** Section 3.2.6. */
  function FixedLiterals(): (r: CodeLengths)
    ensures |r| == 288
  {
    Repeat(8, 144) + Repeat(9, 112) + Repeat(7, 24) + Repeat(8, 8)
  }

  function FixedDistances(): (r: CodeLengths)
    ensures |r| == 32
  {
    Repeat(5, 32)
  }

  /** Whether the decoder may build tables from a code set, must refuse it, or is not modelled. */
  datatype CodeSet = Usable | Refused | Unmodelled

  function Classify(lens: CodeLengths): CodeSet {
    if Complete(lens) then Usable
    else if HuffTable.UsedUpTo(lens, MAX_CODE_LENGTH) > 1 then Refused
    else Unmodelled
  }

  // ---- container ------------------------------------------------------------

  ghost function Inflate(zlib: bool, stream: seq<byte>): Outcome {
    if zlib then ZlibHeader(StreamBits(stream)) else Blocks(false, StreamBits(stream), [])
  }

  /** Section 2.2 of RFC 1950. */
  ghost function ZlibHeader(bits: seq<bool>): Outcome {
    if |bits| < 8 then Starved([]) else ZlibFlags(Byte(bits), bits[8..])
  }

  predicate BadZlibHeader(cmf: byte, flg: byte) {
    || (cmf * 256 + flg) % 31 != 0
    || flg / 32 % 2 == 1
    || cmf % 16 != 8
    || cmf / 16 > 7
  }

  ghost function ZlibFlags(cmf: byte, bits: seq<bool>): Outcome {
    if |bits| < 8 then Starved([])
    else if BadZlibHeader(cmf, Byte(bits)) then Failed([])
    else Blocks(true, bits[8..], [])
  }

  /** After the last block: the checksum, most significant byte first, if there is a container. */
  ghost function Finish(zlib: bool, bits: seq<bool>, hist: seq<byte>): Outcome {
    if zlib then Checksum(0, 0, Align(bits), hist) else Done(hist)
  }

  ghost function Checksum(n: nat, sum: nat, bits: seq<bool>, hist: seq<byte>): Outcome
    requires n <= 4
    decreases 4 - n
  {
    if n == 4 then if sum == Adler32.Adler(hist) then Done(hist) else Mismatch(hist)
    else if |bits| < 8 then Starved(hist)
    else Checksum(n + 1, sum * 256 + Byte(bits), bits[8..], hist)
  }

  // ---- blocks (section 3.2.3) -------------------------------------------------

  ghost function Blocks(zlib: bool, bits: seq<bool>, hist: seq<byte>): Outcome
    decreases |bits|, 0
  {
    if |bits| < 3 then Starved(hist)
    else
      var f := Frame(zlib, bits[0]);
      var kind := Value(bits[1..3]);
      var rest := bits[3..];
      if kind == 0 then StoredHeader(f, [], Align(rest), hist)
      else if kind == 1 then Symbols(f, FixedLiterals(), FixedDistances(), rest, hist)
      else if kind == 2 then Sizes(f, [], rest, hist)
      else Failed(hist)
  }

  ghost function EndOfBlock(f: Frame, bits: seq<bool>, hist: seq<byte>): Outcome
    decreases |bits|, 1
  {
    if f.final then Finish(f.zlib, bits, hist) else Blocks(f.zlib, bits, hist)
  }

  // ---- stored blocks (section 3.2.4) ------------------------------------------

  /** LEN and NLEN, of which the bytes in header are already read. */
  ghost function StoredHeader(f: Frame, header: seq<byte>, bits: seq<bool>, hist: seq<byte>): Outcome
    requires |header| <= 4
    decreases |bits|, 3
  {
    if |header| == 4 then
      var len := Word(header[0], header[1]);
      if len + Word(header[2], header[3]) == 65535 then Stored(f, len, bits, hist) else Failed(hist)
    else if |bits| < 8 then Starved(hist)
    else StoredHeader(f, header + [Byte(bits)], bits[8..], hist)
  }

  ghost function Stored(f: Frame, n: nat, bits: seq<bool>, hist: seq<byte>): Outcome
    decreases |bits|, 2
  {
    if n == 0 then EndOfBlock(f, bits, hist)
    else if |bits| < 8 then Starved(hist)
    else Stored(f, n - 1, bits[8..], hist + [Byte(bits)])
  }

  // ---- code tables of a dynamic block (section 3.2.7) ---------------------------

  ghost predicate SizesOk(sizes: seq<nat>) {
    && |sizes| <= 3
    && (|sizes| > 0 ==> 257 <= sizes[0] <= 288)
    && (|sizes| > 1 ==> 1 <= sizes[1] <= 32)
    && (|sizes| > 2 ==> 4 <= sizes[2] <= 19)
  }

  /** HLIT, HDIST and HCLEN. */
  ghost function Sizes(f: Frame, sizes: seq<nat>, bits: seq<bool>, hist: seq<byte>): Outcome
    requires SizesOk(sizes)
    decreases |bits|, 4
  {
    if |sizes| == 3 then
      CodeLengthLengths(f, sizes[0], sizes[1], sizes[2], 0, Repeat(0, 19), bits, hist)
    else
      var n := SIZE_BITS[|sizes|];
      if |bits| < n then Starved(hist)
      else
        SizeInRange(bits, |sizes|);
        Sizes(f, sizes + [SIZE_MIN[|sizes|] + Value(bits[..n])], bits[n..], hist)
  }

  lemma SizeInRange(bits: seq<bool>, i: nat)
    requires i < 3 && |bits| >= SIZE_BITS[i]
    ensures Value(bits[..SIZE_BITS[i]]) < if i == 2 then 16 else 32
  {
    assert Pow2(5) == 32 && Pow2(4) == 16;
  }

  /** The lengths of the code length code, of which k are read into cl. */
  ghost function CodeLengthLengths(f: Frame, nlit: nat, ndist: nat, ncl: nat, k: nat, cl: CodeLengths,
                                   bits: seq<bool>, hist: seq<byte>): Outcome
    requires k <= ncl <= 19 == |cl| && nlit >= 1
    decreases |bits|, 3
  {
    if k == ncl then
      match Classify(cl)
      case Refused => Failed(hist)
      case Unmodelled => Undefined
      case Usable => Lengths(f, nlit, ndist, cl, [], bits, hist)
    else if |bits| < 3 then Starved(hist)
    else
      assert Pow2(3) == 8;
      CodeLengthLengths(f, nlit, ndist, ncl, k + 1, cl[ClSlot(k) := Value(bits[..3])], bits[3..], hist)
  }

  /** The literal and distance code lengths, of which acc are read. */
  ghost function Lengths(f: Frame, nlit: nat, ndist: nat, cl: CodeLengths, acc: CodeLengths,
                         bits: seq<bool>, hist: seq<byte>): Outcome
    requires |cl| == 19 && nlit >= 1
    decreases |bits|, 2
  {
    if |acc| > nlit + ndist then Failed(hist)
    else if |acc| == nlit + ndist then Tables(f, acc[..nlit], acc[nlit..], bits, hist)
    else
      match Decode(cl, bits)
      case NeedMore => Starved(hist)
      case Symbol(s) =>
        var rest := bits[cl[s]..];
        if s < 16 then Lengths(f, nlit, ndist, cl, acc + [s], rest, hist)
        else if s == 16 && acc == [] then Failed(hist)
        else RepeatLength(f, nlit, ndist, cl, acc, s, rest, hist)
  }

  ghost function RepeatLength(f: Frame, nlit: nat, ndist: nat, cl: CodeLengths, acc: CodeLengths, s: nat,
                              bits: seq<bool>, hist: seq<byte>): Outcome
    requires |cl| == 19 && nlit >= 1 && 16 <= s <= 18 && (s == 16 ==> acc != [])
    decreases |bits|, 3
  {
    var n := REPEAT_BITS[s - 16];
    if |bits| < n then Starved(hist)
    else
      var v := if s == 16 then acc[|acc| - 1] else 0;
      Lengths(f, nlit, ndist, cl, acc + Repeat(v, REPEAT_MIN[s - 16] + Value(bits[..n])), bits[n..], hist)
  }

  ghost function Tables(f: Frame, lit: CodeLengths, dist: CodeLengths, bits: seq<bool>, hist: seq<byte>): Outcome
    decreases |bits|, 1
  {
    if Classify(dist).Refused? then Failed(hist)
    else if Classify(dist).Unmodelled? then Undefined
    else if Classify(lit).Refused? then Failed(hist)
    else if Classify(lit).Unmodelled? then Undefined
    else Symbols(f, lit, dist, bits, hist)
  }

  // ---- compressed data (section 3.2.5) ------------------------------------------

  ghost function Symbols(f: Frame, lit: CodeLengths, dist: CodeLengths, bits: seq<bool>, hist: seq<byte>): Outcome
    decreases |bits|, 0
  {
    match Decode(lit, bits)
    case NeedMore => Starved(hist)
    case Symbol(s) =>
      var rest := bits[lit[s]..];
      if s < 256 then Symbols(f, lit, dist, rest, hist + [s])
      else if s == 256 then EndOfBlock(f, rest, hist)
      else if s > 285 then Undefined
      else MatchLength(f, lit, dist, LengthBase(s - 257), LengthExtra(s - 257), rest, hist)
  }

  /** The extra bits of a length, then the distance. */
  ghost function MatchLength(f: Frame, lit: CodeLengths, dist: CodeLengths, base: nat, extra: nat,
                             bits: seq<bool>, hist: seq<byte>): Outcome
    decreases |bits|, 3
  {
    if |bits| < extra then Starved(hist)
    else MatchDistance(f, lit, dist, base + Value(bits[..extra]), bits[extra..], hist)
  }

  ghost function MatchDistance(f: Frame, lit: CodeLengths, dist: CodeLengths, len: nat,
                               bits: seq<bool>, hist: seq<byte>): Outcome
    decreases |bits|, 2
  {
    match Decode(dist, bits)
    case NeedMore => Starved(hist)
    case Symbol(s) =>
      if s >= 30 then Undefined
      else DistanceExtra(f, lit, dist, len, DistBase(s), DistExtra(s), bits[dist[s]..], hist)
  }

  ghost function DistanceExtra(f: Frame, lit: CodeLengths, dist: CodeLengths, len: nat, base: nat, extra: nat,
                               bits: seq<bool>, hist: seq<byte>): Outcome
    decreases |bits|, 1
  {
    if |bits| < extra then Starved(hist)
    else
      var d := base + Value(bits[..extra]);
      if d < 1 || d > |hist| then Undefined
      else Symbols(f, lit, dist, bits[extra..], CopyMatch(hist, d, len))
  }

  // ---- facts about the decoder ----------------------------------------------

  /** Prefix freedom makes the decoded symbol unique. */
  lemma DecodeIs(lens: CodeLengths, bits: seq<bool>, s: nat)
    requires Complete(lens) && Used(lens, s) && Code(lens, s) <= bits
    ensures Decode(lens, bits) == Symbol(s)
  {
    var d := Decode(lens, bits);
    assert d.Symbol?;
    HuffTable.Comparable(lens, if lens[s] <= lens[d.sym] then s else d.sym, if lens[s] <= lens[d.sym] then d.sym else s,
      if lens[s] <= lens[d.sym] then Code(lens, s) else Code(lens, d.sym), bits);
  }

  lemma {:induction false} CountConcat(a: CodeLengths, b: CodeLengths, l: nat)
    ensures Count(a + b, l) == Count(a, l) + Count(b, l)
  {
    if b == [] {
      assert a + b == a;
    } else {
      assert (a + b)[..|a + b| - 1] == a + b[..|b| - 1];
      CountConcat(a, b[..|b| - 1], l);
    }
  }

  lemma {:induction false} CountRepeat(v: CodeLength, n: nat, l: nat)
    ensures Count(Repeat(v, n), l) == if l == v then n else 0
  {
    if n != 0 {
      assert Repeat(v, n)[..n - 1] == Repeat(v, n - 1);
      CountRepeat(v, n - 1, l);
    }
  }

  lemma FixedLiteralCount(l: nat)
    ensures Count(FixedLiterals(), l) == if l == 7 then 24 else if l == 8 then 152 else if l == 9 then 112 else 0
  {
    var a, b, c, d := Repeat(8, 144), Repeat(9, 112), Repeat(7, 24), Repeat(8, 8);
    CountConcat(a + b + c, d, l);
    CountConcat(a + b, c, l);
    CountConcat(a, b, l);
    CountRepeat(8, 144, l);
    CountRepeat(9, 112, l);
    CountRepeat(7, 24, l);
    CountRepeat(8, 8, l);
  }

  /** Lengths nobody uses only shift the first code. */
  lemma {:induction false} FirstCodeShift(lens: CodeLengths, l: nat, m: nat)
    requires 1 <= l <= m
    requires forall i | l <= i < m :: Count(lens, i) == 0
    ensures FirstCode(lens, m) == FirstCode(lens, l) * Pow2(m - l)
  {
    if l < m {
      FirstCodeShift(lens, l, m - 1);
      ProductOfDouble(FirstCode(lens, l), Pow2(m - 1 - l));
      assert Pow2(m - l) == 2 * Pow2(m - 1 - l);
    }
  }

  /** Where the codes of each length start. */
  lemma FixedFirstCodes()
    ensures FirstCode(FixedLiterals(), 7) == 0 && FirstCode(FixedLiterals(), 8) == 48
    ensures FirstCode(FixedLiterals(), 9) == 400 && FirstCode(FixedLiterals(), 10) == 1024
  {
    hide Count, FixedLiterals;
    var lens := FixedLiterals();
    forall l: nat
      ensures Count(lens, l) == if l == 7 then 24 else if l == 8 then 152 else if l == 9 then 112 else 0
    {
      FixedLiteralCount(l);
    }
    FirstCodeShift(lens, 1, 7);
  }

  lemma FixedLiteralsComplete()
    ensures Complete(FixedLiterals())
  {
    hide Count, FixedLiterals;
    FixedFirstCodes();
    forall l: nat
      ensures l >= 10 ==> Count(FixedLiterals(), l) == 0
    {
      FixedLiteralCount(l);
    }
    FirstCodeShift(FixedLiterals(), 10, 16);
    assert Pow2(6) == 64;
  }

  lemma FixedFirstDistance()
    ensures FirstCode(FixedDistances(), 5) == 0 && FirstCode(FixedDistances(), 6) == 64
  {
    hide Count, FixedDistances;
    var lens := FixedDistances();
    forall l: nat
      ensures Count(lens, l) == if l == 5 then 32 else 0
    {
      FixedDistanceCount(l);
    }
    FirstCodeShift(lens, 1, 5);
  }

  lemma FixedDistancesComplete()
    ensures Complete(FixedDistances())
  {
    hide Count, FixedDistances;
    FixedFirstDistance();
    forall l: nat
      ensures l >= 6 ==> Count(FixedDistances(), l) == 0
    {
      FixedDistanceCount(l);
    }
    FirstCodeShift(FixedDistances(), 6, 16);
    assert Pow2(5) == 32;
    assert Pow2(10) == 32 * Pow2(5) by {
      Pow2Add(5, 5);
    }
  }

  lemma FixedDistanceCount(l: nat)
    ensures Count(FixedDistances(), l) == if l == 5 then 32 else 0
  {
    CountRepeat(5, 32, l);
  }
}
