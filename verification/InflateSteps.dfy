/**
 The pure decoder seen one element at a time: a Point says what is to be read next, and each
 lemma moves from one point to the next by exactly one element of the stream.
 */
module InflateSteps {
  import opened Bits
  import opened Huffman
  import opened InflateSpec
  import opened Sequences
  import Adler32

  datatype Point =
    | AtHeader
    | AtFlags(cmf: byte)
    | AtBlock
    | AtStoredHeader(header: seq<byte>)
    | AtStored(n: nat)
    | AtSizes(sizes: seq<nat>)
    | AtClLengths(nlit: nat, ndist: nat, ncl: nat, k: nat, cl: CodeLengths)
    | AtLengths(nlit: nat, ndist: nat, cl: CodeLengths, acc: CodeLengths)
    | AtRepeat(nlit: nat, ndist: nat, cl: CodeLengths, acc: CodeLengths, s: nat)
    | AtSymbol(lit: CodeLengths, dist: CodeLengths)
    | AtLength(lit: CodeLengths, dist: CodeLengths, base: nat, extra: nat)
    | AtDistance(lit: CodeLengths, dist: CodeLengths, len: nat)
    | AtDistExtra(lit: CodeLengths, dist: CodeLengths, len: nat, base: nat, extra: nat)
    | AtChecksum(n: nat, sum: nat)
    | AtEnd(sumOk: bool)
    | AtFailure

  ghost predicate Sensible(p: Point) {
    match p
    case AtStoredHeader(header) => |header| <= 4
    case AtSizes(sizes) => SizesOk(sizes)
    case AtClLengths(nlit, ndist, ncl, k, cl) => k <= ncl <= 19 == |cl| && nlit >= 1
    case AtLengths(nlit, ndist, cl, acc) => |cl| == 19 && nlit >= 1
    case AtRepeat(nlit, ndist, cl, acc, s) => |cl| == 19 && nlit >= 1 && 16 <= s <= 18 && (s == 16 ==> acc != [])
    case AtChecksum(n, sum) => n <= 4
    case _ => true
  }

  /** How decoding ends from a point on. */
  ghost function Resume(f: Frame, p: Point, bits: seq<bool>, hist: seq<byte>): Outcome {
    if !Sensible(p) then Undefined
    else
      match p
      case AtHeader => ZlibHeader(bits)
      case AtFlags(cmf) => ZlibFlags(cmf, bits)
      case AtBlock => Blocks(f.zlib, bits, hist)
      case AtStoredHeader(header) => StoredHeader(f, header, bits, hist)
      case AtStored(n) => Stored(f, n, bits, hist)
      case AtSizes(sizes) => Sizes(f, sizes, bits, hist)
      case AtClLengths(nlit, ndist, ncl, k, cl) => CodeLengthLengths(f, nlit, ndist, ncl, k, cl, bits, hist)
      case AtLengths(nlit, ndist, cl, acc) => Lengths(f, nlit, ndist, cl, acc, bits, hist)
      case AtRepeat(nlit, ndist, cl, acc, s) => RepeatLength(f, nlit, ndist, cl, acc, s, bits, hist)
      case AtSymbol(lit, dist) => Symbols(f, lit, dist, bits, hist)
      case AtLength(lit, dist, base, extra) => MatchLength(f, lit, dist, base, extra, bits, hist)
      case AtDistance(lit, dist, len) => MatchDistance(f, lit, dist, len, bits, hist)
      case AtDistExtra(lit, dist, len, base, extra) => DistanceExtra(f, lit, dist, len, base, extra, bits, hist)
      case AtChecksum(n, sum) => Checksum(n, sum, bits, hist)
      case AtEnd(sumOk) => if sumOk then Done(hist) else Mismatch(hist)
      case AtFailure => Failed(hist)
  }

  lemma FromStart(zlib: bool, stream: seq<byte>, f: Frame)
    requires f.zlib == zlib
    ensures Inflate(zlib, stream) == Resume(f, if zlib then AtHeader else AtBlock, StreamBits(stream), [])
  {
  }

  /** The shortest stream that is cut off: nothing at all. */
  lemma EmptyStarves(zlib: bool)
    ensures Inflate(zlib, []) == Starved([])
  {
    assert StreamBits([]) == [];
  }

  lemma HeaderStep(f: Frame, bits: seq<bool>)
    ensures |bits| < 8 ==> Resume(f, AtHeader, bits, []) == Starved([])
    ensures |bits| >= 8 ==> Resume(f, AtHeader, bits, []) == Resume(f, AtFlags(Byte(bits)), bits[8..], [])
  {
  }

  lemma FlagsStep(f: Frame, cmf: byte, bits: seq<bool>)
    requires f.zlib
    ensures |bits| < 8 ==> Resume(f, AtFlags(cmf), bits, []) == Starved([])
    ensures |bits| >= 8 ==>
      Resume(f, AtFlags(cmf), bits, []) ==
      Resume(f, if BadZlibHeader(cmf, Byte(bits)) then AtFailure else AtBlock, bits[8..], [])
  {
  }

  /** The three header bits of a block as the number v. */
  lemma BlockStep(f: Frame, bits: seq<bool>, hist: seq<byte>, v: nat)
    requires |bits| >= 3 && v == Value(bits[..3])
    ensures v < 8
    ensures Resume(f, AtBlock, bits, hist) ==
      var g := Frame(f.zlib, v % 2 == 1);
      if v / 2 == 0 then Resume(g, AtStoredHeader([]), Align(bits[3..]), hist)
      else if v / 2 == 1 then Resume(g, AtSymbol(FixedLiterals(), FixedDistances()), bits[3..], hist)
      else if v / 2 == 2 then Resume(g, AtSizes([]), bits[3..], hist)
      else Resume(g, AtFailure, bits[3..], hist)
  {
    var b := bits[..3];
    assert Pow2(3) == 8;
    assert b[0] == bits[0] && b[1..] == bits[1..3];
    assert Value(b) == BitValue(b[0]) + 2 * Value(b[1..]);
  }

  lemma BlockStarved(f: Frame, bits: seq<bool>, hist: seq<byte>)
    requires |bits| < 3
    ensures Resume(f, AtBlock, bits, hist) == Starved(hist)
  {
  }

  lemma StoredHeaderStep(f: Frame, header: seq<byte>, bits: seq<bool>, hist: seq<byte>)
    requires |header| < 4
    ensures |bits| < 8 ==> Resume(f, AtStoredHeader(header), bits, hist) == Starved(hist)
    ensures |bits| >= 8 ==>
      Resume(f, AtStoredHeader(header), bits, hist) ==
      Resume(f, AtStoredHeader(header + [Byte(bits)]), bits[8..], hist)
  {
  }

  lemma StoredHeaderDone(f: Frame, header: seq<byte>, bits: seq<bool>, hist: seq<byte>)
    requires |header| == 4
    ensures Resume(f, AtStoredHeader(header), bits, hist) ==
      if Word(header[0], header[1]) + Word(header[2], header[3]) == 65535
      then Resume(f, AtStored(Word(header[0], header[1])), bits, hist)
      else Resume(f, AtFailure, bits, hist)
  {
  }

  lemma StoredStep(f: Frame, n: nat, bits: seq<bool>, hist: seq<byte>)
    requires n > 0
    ensures |bits| < 8 ==> Resume(f, AtStored(n), bits, hist) == Starved(hist)
    ensures |bits| >= 8 ==>
      Resume(f, AtStored(n), bits, hist) ==
      Resume(f, AtStored(n - 1), bits[8..], hist + [Byte(bits)])
  {
  }

  /** A run of stored bytes taken at once. */
  lemma {:induction false} StoredRun(f: Frame, n: nat, bytes: seq<byte>, hist: seq<byte>, m: nat)
    requires m <= n && m <= |bytes|
    ensures Resume(f, AtStored(n), StreamBits(bytes), hist) ==
      Resume(f, AtStored(n - m), StreamBits(bytes[m..]), hist + bytes[..m])
  {
    hide Resume, StreamBits, Byte;
    if m == 0 {
      assert bytes[0..] == bytes && hist + bytes[..0] == hist;
    } else {
      StoredStep(f, n, StreamBits(bytes), hist);
      FrontByte(bytes);
      StoredRun(f, n - 1, bytes[1..], hist + [bytes[0]], m - 1);
      assert bytes[1..][m - 1..] == bytes[m..];
      assert hist + [bytes[0]] + bytes[1..][..m - 1] == hist + bytes[..m];
    }
  }

  /** The first byte of a bit string that starts at a byte of the stream. */
  lemma FrontByte(rest: seq<byte>)
    requires rest != []
    ensures StreamBits(rest)[8..] == StreamBits(rest[1..])
    ensures Byte(StreamBits(rest)) == rest[0]
  {
    hide LowBits, Value;
    assert rest[0] < Pow2(8) by {
      assert Pow2(8) == 256;
    }
    ValueOfLowBits(rest[0], 8);
    assert StreamBits(rest)[..8] == LowBits(rest[0], 8);
  }

  /** After the last stored byte or the end-of-block symbol. */
  lemma BlockEnd(f: Frame, bits: seq<bool>, hist: seq<byte>)
    ensures Resume(f, AtStored(0), bits, hist) == EndOfBlock(f, bits, hist)
    ensures EndOfBlock(f, bits, hist) ==
      if !f.final then Resume(f, AtBlock, bits, hist)
      else if f.zlib then Resume(f, AtChecksum(0, 0), Align(bits), hist)
      else Resume(f, AtEnd(true), bits, hist)
  {
    hide Blocks, Checksum;
  }

  lemma SizesStep(f: Frame, sizes: seq<nat>, bits: seq<bool>, hist: seq<byte>)
    requires SizesOk(sizes) && |sizes| < 3
    ensures |bits| < SIZE_BITS[|sizes|] ==> Resume(f, AtSizes(sizes), bits, hist) == Starved(hist)
    ensures |bits| >= SIZE_BITS[|sizes|] ==>
      var sizes' := sizes + [SIZE_MIN[|sizes|] + Value(bits[..SIZE_BITS[|sizes|]])];
      SizesOk(sizes')
      && Resume(f, AtSizes(sizes), bits, hist) == Resume(f, AtSizes(sizes'), bits[SIZE_BITS[|sizes|]..], hist)
  {
    if |bits| >= SIZE_BITS[|sizes|] {
      SizeInRange(bits, |sizes|);
    }
  }

  lemma SizesDone(f: Frame, sizes: seq<nat>, bits: seq<bool>, hist: seq<byte>)
    requires SizesOk(sizes) && |sizes| == 3
    ensures Resume(f, AtSizes(sizes), bits, hist) ==
      Resume(f, AtClLengths(sizes[0], sizes[1], sizes[2], 0, Repeat(0, 19)), bits, hist)
  {
  }

  lemma ClLengthStep(f: Frame, nlit: nat, ndist: nat, ncl: nat, k: nat, cl: CodeLengths, bits: seq<bool>, hist: seq<byte>)
    requires k < ncl <= 19 == |cl| && nlit >= 1
    ensures |bits| < 3 ==> Resume(f, AtClLengths(nlit, ndist, ncl, k, cl), bits, hist) == Starved(hist)
    ensures |bits| >= 3 ==>
      Value(bits[..3]) < 8
      && Resume(f, AtClLengths(nlit, ndist, ncl, k, cl), bits, hist) ==
         Resume(f, AtClLengths(nlit, ndist, ncl, k + 1, cl[ClSlot(k) := Value(bits[..3])]), bits[3..], hist)
  {
    assert Pow2(3) == 8;
  }

  lemma ClLengthsDone(f: Frame, nlit: nat, ndist: nat, ncl: nat, cl: CodeLengths, bits: seq<bool>, hist: seq<byte>)
    requires ncl <= 19 == |cl| && nlit >= 1
    ensures Resume(f, AtClLengths(nlit, ndist, ncl, ncl, cl), bits, hist) ==
      match Classify(cl)
      case Refused => Resume(f, AtFailure, bits, hist)
      case Unmodelled => Undefined
      case Usable => Resume(f, AtLengths(nlit, ndist, cl, []), bits, hist)
  {
  }

  lemma LengthStep(f: Frame, nlit: nat, ndist: nat, cl: CodeLengths, acc: CodeLengths, s: nat,
                   bits: seq<bool>, hist: seq<byte>)
    requires |cl| == 19 && nlit >= 1 && |acc| < nlit + ndist
    requires Complete(cl) && Used(cl, s) && Code(cl, s) <= bits
    ensures Resume(f, AtLengths(nlit, ndist, cl, acc), bits, hist) ==
      if s < 16 then Resume(f, AtLengths(nlit, ndist, cl, acc + [s]), bits[cl[s]..], hist)
      else if s == 16 && acc == [] then Resume(f, AtFailure, bits[cl[s]..], hist)
      else Resume(f, AtRepeat(nlit, ndist, cl, acc, s), bits[cl[s]..], hist)
  {
    DecodeIs(cl, bits, s);
  }

  lemma LengthStarved(f: Frame, nlit: nat, ndist: nat, cl: CodeLengths, acc: CodeLengths, bits: seq<bool>, hist: seq<byte>)
    requires |cl| == 19 && nlit >= 1 && |acc| < nlit + ndist && !HasCode(cl, bits)
    ensures Resume(f, AtLengths(nlit, ndist, cl, acc), bits, hist) == Starved(hist)
  {
  }

  ghost predicate HasCode(lens: CodeLengths, bits: seq<bool>) {
    exists s: nat :: Used(lens, s) && Code(lens, s) <= bits
  }

  lemma RepeatStep(f: Frame, nlit: nat, ndist: nat, cl: CodeLengths, acc: CodeLengths, s: nat,
                   bits: seq<bool>, hist: seq<byte>)
    requires |cl| == 19 && nlit >= 1 && 16 <= s <= 18 && (s == 16 ==> acc != [])
    ensures |bits| < REPEAT_BITS[s - 16] ==> Resume(f, AtRepeat(nlit, ndist, cl, acc, s), bits, hist) == Starved(hist)
    ensures |bits| >= REPEAT_BITS[s - 16] ==>
      Resume(f, AtRepeat(nlit, ndist, cl, acc, s), bits, hist) ==
      Resume(f, AtLengths(nlit, ndist, cl, acc + Repeat(if s == 16 then acc[|acc| - 1] else 0,
               REPEAT_MIN[s - 16] + Value(bits[..REPEAT_BITS[s - 16]]))), bits[REPEAT_BITS[s - 16]..], hist)
  {
  }

  lemma LengthsDone(f: Frame, nlit: nat, ndist: nat, cl: CodeLengths, acc: CodeLengths, bits: seq<bool>, hist: seq<byte>)
    requires |cl| == 19 && nlit >= 1 && |acc| >= nlit + ndist
    ensures Resume(f, AtLengths(nlit, ndist, cl, acc), bits, hist) ==
      if |acc| > nlit + ndist then Resume(f, AtFailure, bits, hist)
      else Tables(f, acc[..nlit], acc[nlit..], bits, hist)
  {
  }

  lemma TablesStep(f: Frame, lit: CodeLengths, dist: CodeLengths, bits: seq<bool>, hist: seq<byte>)
    ensures Tables(f, lit, dist, bits, hist) ==
      if Classify(dist).Refused? then Resume(f, AtFailure, bits, hist)
      else if Classify(dist).Unmodelled? then Undefined
      else if Classify(lit).Refused? then Resume(f, AtFailure, bits, hist)
      else if Classify(lit).Unmodelled? then Undefined
      else Resume(f, AtSymbol(lit, dist), bits, hist)
  {
  }

  lemma SymbolStep(f: Frame, lit: CodeLengths, dist: CodeLengths, s: nat, bits: seq<bool>, hist: seq<byte>)
    requires Complete(lit) && Used(lit, s) && Code(lit, s) <= bits
    ensures Resume(f, AtSymbol(lit, dist), bits, hist) ==
      if s < 256 then Resume(f, AtSymbol(lit, dist), bits[lit[s]..], hist + [s])
      else if s == 256 then EndOfBlock(f, bits[lit[s]..], hist)
      else if s > 285 then Undefined
      else Resume(f, AtLength(lit, dist, LengthBase(s - 257), LengthExtra(s - 257)), bits[lit[s]..], hist)
  {
    DecodeIs(lit, bits, s);
  }

  lemma SymbolStarved(f: Frame, lit: CodeLengths, dist: CodeLengths, bits: seq<bool>, hist: seq<byte>)
    requires !HasCode(lit, bits)
    ensures Resume(f, AtSymbol(lit, dist), bits, hist) == Starved(hist)
  {
  }

  lemma MatchLengthStep(f: Frame, lit: CodeLengths, dist: CodeLengths, base: nat, extra: nat, bits: seq<bool>, hist: seq<byte>)
    ensures |bits| < extra ==> Resume(f, AtLength(lit, dist, base, extra), bits, hist) == Starved(hist)
    ensures |bits| >= extra ==>
      Resume(f, AtLength(lit, dist, base, extra), bits, hist) ==
      Resume(f, AtDistance(lit, dist, base + Value(bits[..extra])), bits[extra..], hist)
  {
  }

  lemma DistanceStep(f: Frame, lit: CodeLengths, dist: CodeLengths, len: nat, s: nat, bits: seq<bool>, hist: seq<byte>)
    requires Complete(dist) && Used(dist, s) && Code(dist, s) <= bits
    ensures Resume(f, AtDistance(lit, dist, len), bits, hist) ==
      if s >= 30 then Undefined
      else Resume(f, AtDistExtra(lit, dist, len, DistBase(s), DistExtra(s)), bits[dist[s]..], hist)
  {
    DecodeIs(dist, bits, s);
  }

  lemma DistanceStarved(f: Frame, lit: CodeLengths, dist: CodeLengths, len: nat, bits: seq<bool>, hist: seq<byte>)
    requires !HasCode(dist, bits)
    ensures Resume(f, AtDistance(lit, dist, len), bits, hist) == Starved(hist)
  {
  }

  lemma DistExtraStarved(f: Frame, lit: CodeLengths, dist: CodeLengths, len: nat, base: nat, extra: nat,
                         bits: seq<bool>, hist: seq<byte>)
    requires |bits| < extra
    ensures Resume(f, AtDistExtra(lit, dist, len, base, extra), bits, hist) == Starved(hist)
  {
  }

  lemma DistExtraStep(f: Frame, lit: CodeLengths, dist: CodeLengths, len: nat, base: nat, extra: nat,
                      bits: seq<bool>, hist: seq<byte>, d: nat)
    requires |bits| >= extra && d == base + Value(bits[..extra])
    ensures d < 1 || d > |hist| ==> Resume(f, AtDistExtra(lit, dist, len, base, extra), bits, hist) == Undefined
    ensures 1 <= d <= |hist| ==>
      Resume(f, AtDistExtra(lit, dist, len, base, extra), bits, hist) ==
      Resume(f, AtSymbol(lit, dist), bits[extra..], CopyMatch(hist, d, len))
  {
    hide CopyMatch, Value, Symbols;
  }

  lemma ChecksumStep(f: Frame, n: nat, sum: nat, bits: seq<bool>, hist: seq<byte>)
    requires n < 4
    ensures |bits| < 8 ==> Resume(f, AtChecksum(n, sum), bits, hist) == Starved(hist)
    ensures |bits| >= 8 ==>
      Resume(f, AtChecksum(n, sum), bits, hist) ==
      Resume(f, AtChecksum(n + 1, sum * 256 + Byte(bits)), bits[8..], hist)
  {
    hide Adler32.Adler, Value, Blocks, Symbols;
  }

  lemma ChecksumDone(f: Frame, sum: nat, bits: seq<bool>, hist: seq<byte>)
    ensures Resume(f, AtChecksum(4, sum), bits, hist) == Resume(f, AtEnd(sum == Adler32.Adler(hist)), bits, hist)
  {
  }
}
