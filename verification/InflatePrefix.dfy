/**
 What the pure decoder has already produced is never taken back: at every point of the
 decoding the history so far is a prefix of the final output.
 */
module InflatePrefix {
  import opened Bits
  import opened Huffman
  import opened InflateSpec
  import opened InflateSteps
  import opened Sequences

  ghost predicate Extends(o: Outcome, hist: seq<byte>) {
    o.Undefined? || hist <= o.out
  }

  lemma {:induction false} ChecksumExtends(n: nat, sum: nat, bits: seq<bool>, hist: seq<byte>)
    requires n <= 4
    ensures Extends(Checksum(n, sum, bits, hist), hist)
    decreases 4 - n
  {
    if n < 4 && |bits| >= 8 {
      ChecksumExtends(n + 1, sum * 256 + Byte(bits), bits[8..], hist);
    }
  }

  lemma {:induction false} BlocksExtends(zlib: bool, bits: seq<bool>, hist: seq<byte>)
    ensures Extends(Blocks(zlib, bits, hist), hist)
    decreases |bits|, 0
  {
    hide FixedLiterals, FixedDistances, Symbols, Sizes, StoredHeader;
    if |bits| >= 3 {
      var f := Frame(zlib, bits[0]);
      StoredHeaderExtends(f, [], Align(bits[3..]), hist);
      SymbolsExtends(f, FixedLiterals(), FixedDistances(), bits[3..], hist);
      SizesExtends(f, [], bits[3..], hist);
    }
  }

  lemma {:induction false} EndOfBlockExtends(f: Frame, bits: seq<bool>, hist: seq<byte>)
    ensures Extends(EndOfBlock(f, bits, hist), hist)
    decreases |bits|, 1
  {
    hide Blocks, Checksum;
    if f.final {
      ChecksumExtends(0, 0, Align(bits), hist);
    } else {
      BlocksExtends(f.zlib, bits, hist);
    }
  }

  lemma {:induction false} StoredHeaderExtends(f: Frame, header: seq<byte>, bits: seq<bool>, hist: seq<byte>)
    requires |header| <= 4
    ensures Extends(StoredHeader(f, header, bits, hist), hist)
    decreases |bits|, 3
  {
    hide Stored, Byte;
    if |header| == 4 {
      StoredExtends(f, Word(header[0], header[1]), bits, hist);
    } else if |bits| >= 8 {
      StoredHeaderExtends(f, header + [Byte(bits)], bits[8..], hist);
    }
  }

  lemma {:induction false} StoredExtends(f: Frame, n: nat, bits: seq<bool>, hist: seq<byte>)
    ensures Extends(Stored(f, n, bits, hist), hist)
    decreases |bits|, 2
  {
    hide EndOfBlock, Byte;
    if n == 0 {
      EndOfBlockExtends(f, bits, hist);
    } else if |bits| >= 8 {
      StoredExtends(f, n - 1, bits[8..], hist + [Byte(bits)]);
    }
  }

  lemma {:induction false} SizesExtends(f: Frame, sizes: seq<nat>, bits: seq<bool>, hist: seq<byte>)
    requires SizesOk(sizes)
    ensures Extends(Sizes(f, sizes, bits, hist), hist)
    decreases |bits|, 4
  {
    hide CodeLengthLengths, Value;
    if |sizes| == 3 {
      ClLengthsExtend(f, sizes[0], sizes[1], sizes[2], 0, Repeat(0, 19), bits, hist);
    } else {
      var n := SIZE_BITS[|sizes|];
      if |bits| >= n {
        SizeInRange(bits, |sizes|);
        SizesExtends(f, sizes + [SIZE_MIN[|sizes|] + Value(bits[..n])], bits[n..], hist);
      }
    }
  }

  lemma {:induction false} ClLengthsExtend(f: Frame, nlit: nat, ndist: nat, ncl: nat, k: nat, cl: CodeLengths,
                                           bits: seq<bool>, hist: seq<byte>)
    requires k <= ncl <= 19 == |cl| && nlit >= 1
    ensures Extends(CodeLengthLengths(f, nlit, ndist, ncl, k, cl, bits, hist), hist)
    decreases |bits|, 3
  {
    hide Lengths, Value, Classify;
    if k == ncl {
      LengthsExtend(f, nlit, ndist, cl, [], bits, hist);
    } else if |bits| >= 3 {
      assert Pow2(3) == 8;
      ClLengthsExtend(f, nlit, ndist, ncl, k + 1, cl[ClSlot(k) := Value(bits[..3])], bits[3..], hist);
    }
  }

  lemma {:induction false} LengthsExtend(f: Frame, nlit: nat, ndist: nat, cl: CodeLengths, acc: CodeLengths,
                                         bits: seq<bool>, hist: seq<byte>)
    requires |cl| == 19 && nlit >= 1
    ensures Extends(Lengths(f, nlit, ndist, cl, acc, bits, hist), hist)
    decreases |bits|, 2
  {
    hide RepeatLength, Tables, Decode;
    if |acc| == nlit + ndist {
      TablesExtend(f, acc[..nlit], acc[nlit..], bits, hist);
    } else if |acc| < nlit + ndist {
      var d := Decode(cl, bits);
      if d.Symbol? {
        var rest := bits[cl[d.sym]..];
        if d.sym < 16 {
          LengthsExtend(f, nlit, ndist, cl, acc + [d.sym], rest, hist);
        } else if d.sym != 16 || acc != [] {
          RepeatExtends(f, nlit, ndist, cl, acc, d.sym, rest, hist);
        }
      }
    }
  }

  lemma {:induction false} RepeatExtends(f: Frame, nlit: nat, ndist: nat, cl: CodeLengths, acc: CodeLengths, s: nat,
                                         bits: seq<bool>, hist: seq<byte>)
    requires |cl| == 19 && nlit >= 1 && 16 <= s <= 18 && (s == 16 ==> acc != [])
    ensures Extends(RepeatLength(f, nlit, ndist, cl, acc, s, bits, hist), hist)
    decreases |bits|, 3
  {
    hide Lengths, Value;
    var n := REPEAT_BITS[s - 16];
    if |bits| >= n {
      var v := if s == 16 then acc[|acc| - 1] else 0;
      LengthsExtend(f, nlit, ndist, cl, acc + Repeat(v, REPEAT_MIN[s - 16] + Value(bits[..n])), bits[n..], hist);
    }
  }

  lemma {:induction false} TablesExtend(f: Frame, lit: CodeLengths, dist: CodeLengths, bits: seq<bool>, hist: seq<byte>)
    ensures Extends(Tables(f, lit, dist, bits, hist), hist)
    decreases |bits|, 1
  {
    hide Symbols, Classify;
    SymbolsExtends(f, lit, dist, bits, hist);
  }

  lemma {:induction false} SymbolsExtends(f: Frame, lit: CodeLengths, dist: CodeLengths, bits: seq<bool>, hist: seq<byte>)
    ensures Extends(Symbols(f, lit, dist, bits, hist), hist)
    decreases |bits|, 0
  {
    hide EndOfBlock, MatchLength, Decode, LengthBase, LengthExtra;
    var d := Decode(lit, bits);
    if d.Symbol? {
      var rest := bits[lit[d.sym]..];
      if d.sym < 256 {
        SymbolsExtends(f, lit, dist, rest, hist + [d.sym]);
      } else if d.sym == 256 {
        EndOfBlockExtends(f, rest, hist);
      } else if d.sym <= 285 {
        MatchLengthExtends(f, lit, dist, LengthBase(d.sym - 257), LengthExtra(d.sym - 257), rest, hist);
      }
    }
  }

  lemma {:induction false} MatchLengthExtends(f: Frame, lit: CodeLengths, dist: CodeLengths, base: nat, extra: nat,
                                              bits: seq<bool>, hist: seq<byte>)
    ensures Extends(MatchLength(f, lit, dist, base, extra, bits, hist), hist)
    decreases |bits|, 3
  {
    hide MatchDistance, Value;
    if |bits| >= extra {
      MatchDistanceExtends(f, lit, dist, base + Value(bits[..extra]), bits[extra..], hist);
    }
  }

  lemma {:induction false} MatchDistanceExtends(f: Frame, lit: CodeLengths, dist: CodeLengths, len: nat,
                                                bits: seq<bool>, hist: seq<byte>)
    ensures Extends(MatchDistance(f, lit, dist, len, bits, hist), hist)
    decreases |bits|, 2
  {
    hide DistanceExtra, Decode, DistBase, DistExtra;
    var d := Decode(dist, bits);
    if d.Symbol? && d.sym < 30 {
      DistanceExtraExtends(f, lit, dist, len, DistBase(d.sym), DistExtra(d.sym), bits[dist[d.sym]..], hist);
    }
  }

  lemma {:induction false} DistanceExtraExtends(f: Frame, lit: CodeLengths, dist: CodeLengths, len: nat, base: nat,
                                                extra: nat, bits: seq<bool>, hist: seq<byte>)
    ensures Extends(DistanceExtra(f, lit, dist, len, base, extra, bits, hist), hist)
    decreases |bits|, 1
  {
    hide Symbols, Value;
    if |bits| >= extra {
      var d := base + Value(bits[..extra]);
      if 1 <= d <= |hist| {
        SymbolsExtends(f, lit, dist, bits[extra..], CopyMatch(hist, d, len));
      }
    }
  }

  /** From any point the history is a prefix of the outcome. */
  lemma ResumeExtends(f: Frame, p: Point, bits: seq<bool>, hist: seq<byte>)
    requires p.AtHeader? || p.AtFlags? ==> hist == []
    ensures Extends(Resume(f, p, bits, hist), hist)
  {
    if Sensible(p) {
      match p
      case AtHeader =>
      case AtFlags(cmf) =>
      case AtBlock => BlocksExtends(f.zlib, bits, hist);
      case AtStoredHeader(header) => StoredHeaderExtends(f, header, bits, hist);
      case AtStored(n) => StoredExtends(f, n, bits, hist);
      case AtSizes(sizes) => SizesExtends(f, sizes, bits, hist);
      case AtClLengths(nlit, ndist, ncl, k, cl) => ClLengthsExtend(f, nlit, ndist, ncl, k, cl, bits, hist);
      case AtLengths(nlit, ndist, cl, acc) => LengthsExtend(f, nlit, ndist, cl, acc, bits, hist);
      case AtRepeat(nlit, ndist, cl, acc, s) => RepeatExtends(f, nlit, ndist, cl, acc, s, bits, hist);
      case AtSymbol(lit, dist) => SymbolsExtends(f, lit, dist, bits, hist);
      case AtLength(lit, dist, base, extra) => MatchLengthExtends(f, lit, dist, base, extra, bits, hist);
      case AtDistance(lit, dist, len) => MatchDistanceExtends(f, lit, dist, len, bits, hist);
      case AtDistExtra(lit, dist, len, base, extra) => DistanceExtraExtends(f, lit, dist, len, base, extra, bits, hist);
      case AtChecksum(n, sum) => ChecksumExtends(n, sum, bits, hist);
      case AtEnd(_) =>
      case AtFailure =>
    }
  }
}
