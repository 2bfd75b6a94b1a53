/**
 A stream that ends too early: every proper prefix of an encoded stream leaves the pure decoder
 waiting for more.
 */
module InflateCut {
  import opened Bits
  import opened Huffman
  import opened InflateEncoder
  import opened InflateRoundTrip
  import opened InflateSpec
  import opened InflateSteps
  import Adler32

  /** A cut is in the first part, or leaves the first part whole. */
  lemma CutConcat<T>(q: seq<T>, a: seq<T>, b: seq<T>)
    requires q < a + b
    ensures |q| < |a| ==> q < a
    ensures |q| >= |a| ==> q == a + q[|a|..] && q[|a|..] < b
  {
    if |q| >= |a| {
      assert q[..|a|] == (a + b)[..|a|] == a;
      assert q[|a|..] == (a + b)[|a|..|q|] == b[..|q| - |a|];
    } else {
      assert q == (a + b)[..|q|] == a[..|q|];
    }
  }

  // ---- codes and numbers ------------------------------------------------------------------------

  /** No code is found in part of a code. */
  lemma CodeCut(lens: CodeLengths, s: nat, q: seq<bool>)
    requires Complete(lens) && Used(lens, s) && q < Code(lens, s)
    ensures !HasCode(lens, q)
  {
    hide Complete, Code, CodeNumber;
    if HasCode(lens, q) {
      var t: nat :| Used(lens, t) && Code(lens, t) <= q;
      PrefixOfPrefix(Code(lens, t), q, Code(lens, s));
      PrefixFree(lens, t, s);
      assert false;
    }
  }

  lemma PrefixOfPrefix(a: seq<bool>, b: seq<bool>, c: seq<bool>)
    requires a <= b && b < c
    ensures a <= c && |a| < |c|
  {
    assert a == b[..|a|] == c[..|a|];
  }

  // ---- literals and matches -----------------------------------------------------------------------

  lemma LengthCut(f: Frame, lit: CodeLengths, dist: CodeLengths, c: nat, len: nat, q: seq<bool>, hist: seq<byte>)
    requires Complete(lit) && c < 29 && Used(lit, 257 + c) && LengthBase(c) <= len
    requires q < EncodeLength(lit, c, len)
    ensures Resume(f, AtSymbol(lit, dist), q, hist).Starved?
  {
    hide Resume, Complete, Code, LengthBase, LengthExtra, HasCode;
    var code, number := Code(lit, 257 + c), LowBits(len - LengthBase(c), LengthExtra(c));
    CutConcat(q, code, number);
    if |q| < |code| {
      CodeCut(lit, 257 + c, q);
      SymbolStarved(f, lit, dist, q, hist);
    } else {
      LengthSymbolDecodes(f, lit, dist, c, q[|code|..], hist);
      MatchLengthStep(f, lit, dist, LengthBase(c), LengthExtra(c), q[|code|..], hist);
    }
  }

  lemma DistanceCut(f: Frame, lit: CodeLengths, dist: CodeLengths, len: nat, c: nat, d: nat, q: seq<bool>, hist: seq<byte>)
    requires Complete(dist) && c < 30 && Used(dist, c) && DistBase(c) <= d
    requires q < EncodeDistance(dist, c, d)
    ensures Resume(f, AtDistance(lit, dist, len), q, hist).Starved?
  {
    hide Resume, Complete, Code, DistBase, DistExtra, HasCode;
    var code, number := Code(dist, c), LowBits(d - DistBase(c), DistExtra(c));
    CutConcat(q, code, number);
    if |q| < |code| {
      CodeCut(dist, c, q);
      DistanceStarved(f, lit, dist, len, q, hist);
    } else {
      After(code, q[|code|..]);
      DistanceStep(f, lit, dist, len, c, q, hist);
      DistExtraStarved(f, lit, dist, len, DistBase(c), DistExtra(c), q[|code|..], hist);
    }
  }

  lemma TokenCut(f: Frame, lit: CodeLengths, dist: CodeLengths, t: Token, q: seq<bool>, hist: seq<byte>)
    requires Complete(lit) && Complete(dist) && Encodable(lit, dist, t) && q < EncodeToken(lit, dist, t)
    ensures Resume(f, AtSymbol(lit, dist), q, hist).Starved?
  {
    hide Resume, Complete, Code, EncodeLength, EncodeDistance, LengthClass, DistClass, HasCode;
    match t
    case Literal(b) =>
      CodeCut(lit, b, q);
      SymbolStarved(f, lit, dist, q, hist);
    case Match(len, d) =>
      var first, second := EncodeLength(lit, LengthClass(len, 28), len), EncodeDistance(dist, DistClass(d, 29), d);
      CutConcat(q, first, second);
      if |q| < |first| {
        LengthCut(f, lit, dist, LengthClass(len, 28), len, q, hist);
      } else {
        LengthDecodes(f, lit, dist, len, q[|first|..], hist);
        DistanceCut(f, lit, dist, len, DistClass(d, 29), d, q[|first|..], hist);
      }
  }

  lemma {:induction false} BodyCut(f: Frame, lit: CodeLengths, dist: CodeLengths, ts: seq<Token>, q: seq<bool>,
                                   hist: seq<byte>)
    requires Complete(lit) && Complete(dist) && TokensCoded(lit, dist, ts) && AllInReach(ts, |hist|)
    requires q < EncodeBody(lit, dist, ts)
    ensures Resume(f, AtSymbol(lit, dist), q, hist).Starved?
    decreases |ts|
  {
    hide Resume, Complete, Code, EncodeToken, Meant, Encodable, HasCode;
    if ts == [] {
      assert [] + Code(lit, 256) == Code(lit, 256);
      CodeCut(lit, 256, q);
      SymbolStarved(f, lit, dist, q, hist);
    } else {
      var first, others := EncodeToken(lit, dist, ts[0]), EncodeBody(lit, dist, ts[1..]);
      Assoc(first, EncodeTokens(lit, dist, ts[1..]), Code(lit, 256));
      CutConcat(q, first, others);
      if |q| < |first| {
        TokenCut(f, lit, dist, ts[0], q, hist);
      } else {
        TokenDecodes(f, lit, dist, ts[0], q[|first|..], hist);
        BodyCut(f, lit, dist, ts[1..], q[|first|..], Meant(hist, ts[0]));
      }
    }
  }

  // ---- code length lists -----------------------------------------------------------------------------

  lemma RunCut(f: Frame, nlit: nat, ndist: nat, cl: CodeLengths, acc: CodeLengths, t: LengthToken, q: seq<bool>,
               hist: seq<byte>)
    requires |cl| == CL_CODES && Complete(cl) && nlit >= 1 && |acc| < nlit + ndist
    requires Proper(t) && Used(cl, RunSymbol(t)) && (acc == [] ==> !t.Previous?) && q < EncodeRun(cl, t)
    ensures Resume(f, AtLengths(nlit, ndist, cl, acc), q, hist).Starved?
  {
    hide Resume, Complete, Code, HasCode;
    var s := RunSymbol(t);
    var code := Code(cl, s);
    var number := EncodeRun(cl, t)[|code|..];
    assert EncodeRun(cl, t) == code + number;
    CutConcat(q, code, number);
    if |q| < |code| {
      CodeCut(cl, s, q);
      LengthStarved(f, nlit, ndist, cl, acc, q, hist);
    } else {
      After(code, q[|code|..]);
      LengthStep(f, nlit, ndist, cl, acc, s, q, hist);
      RepeatStep(f, nlit, ndist, cl, acc, s, q[|code|..], hist);
    }
  }

  lemma {:induction false} ListCut(f: Frame, nlit: nat, ndist: nat, cl: CodeLengths, acc: CodeLengths,
                                   ts: seq<LengthToken>, q: seq<bool>, hist: seq<byte>)
    requires |cl| == CL_CODES && Complete(cl) && nlit >= 1
    requires AllProper(cl, ts) && Startable(acc, ts) && |AllListed(acc, ts)| == nlit + ndist && q < EncodeList(cl, ts)
    ensures Resume(f, AtLengths(nlit, ndist, cl, acc), q, hist).Starved?
    decreases |ts|
  {
    hide Resume, Complete, EncodeRun, Listed, Proper;
    var first, others := EncodeRun(cl, ts[0]), EncodeList(cl, ts[1..]);
    CutConcat(q, first, others);
    if |q| < |first| {
      RunCut(f, nlit, ndist, cl, acc, ts[0], q, hist);
    } else {
      RunDecodes(f, nlit, ndist, cl, acc, ts[0], q[|first|..], hist);
      ListCut(f, nlit, ndist, cl, Listed(acc, ts[0]), ts[1..], q[|first|..], hist);
    }
  }

  lemma {:induction false} ClCut(f: Frame, nlit: nat, ndist: nat, ncl: nat, k: nat, cl: CodeLengths, q: seq<bool>,
                                 hist: seq<byte>)
    requires ClSent(cl, ncl) && k <= ncl && nlit >= 1 && q < EncodeCl(cl, k, ncl)
    ensures Resume(f, AtClLengths(nlit, ndist, ncl, k, ClKnown(cl, k)), q, hist).Starved?
    decreases ncl - k
  {
    hide Resume, ClSlot, ClPlace, Value, LowBits, Pow2;
    var first, others := LowBits(cl[ClSlot(k)], 3), EncodeCl(cl, k + 1, ncl);
    CutConcat(q, first, others);
    ClLengthStep(f, nlit, ndist, ncl, k, ClKnown(cl, k), q, hist);
    if |q| >= 3 {
      SmallPowers();
      NumberInFront(cl[ClSlot(k)], 3, q[3..]);
      ClKnownMore(cl, k);
      ClCut(f, nlit, ndist, ncl, k + 1, cl, q[3..], hist);
    }
  }

  lemma SizesCut(f: Frame, nlit: nat, ndist: nat, ncl: nat, q: seq<bool>, hist: seq<byte>)
    requires 257 <= nlit <= 288 && 1 <= ndist <= 32 && 4 <= ncl <= 19 && q < EncodeSizes(nlit, ndist, ncl)
    ensures Resume(f, AtSizes([]), q, hist).Starved?
  {
    hide Resume, Value, LowBits, Pow2;
    SmallPowers();
    var a, b, c := LowBits(nlit - 257, 5), LowBits(ndist - 1, 5), LowBits(ncl - 4, 4);
    CutConcat(q, a, b + c);
    SizesStep(f, [], q, hist);
    if |q| >= 5 {
      var r := q[5..];
      NumberInFront(nlit - 257, 5, r);
      assert [] + [nlit] == [nlit];
      CutConcat(r, b, c);
      SizesStep(f, [nlit], r, hist);
      if |r| >= 5 {
        NumberInFront(ndist - 1, 5, r[5..]);
        assert [nlit] + [ndist] == [nlit, ndist];
        SizesStep(f, [nlit, ndist], r[5..], hist);
      }
    }
  }

  lemma TablesCut(f: Frame, b: Block, q: seq<bool>, hist: seq<byte>)
    requires TablesSent(b) && q < EncodeTables(b)
    ensures Resume(f, AtSizes([]), q, hist).Starved?
  {
    hide Resume, Complete, AllListed, EncodeSizes, EncodeCl, EncodeList, ClKnown, Startable, Proper;
    var sizes, cls, list := EncodeSizes(b.nlit, b.ndist, b.ncl), EncodeCl(b.cl, 0, b.ncl), EncodeList(b.cl, b.lens);
    CutConcat(q, sizes, cls + list);
    if |q| < |sizes| {
      SizesCut(f, b.nlit, b.ndist, b.ncl, q, hist);
    } else {
      var r := q[|sizes|..];
      SizesDecode(f, b.nlit, b.ndist, b.ncl, r, hist);
      NothingKnown(b.cl);
      CutConcat(r, cls, list);
      if |r| < |cls| {
        ClCut(f, b.nlit, b.ndist, b.ncl, 0, b.cl, r, hist);
      } else {
        var l := r[|cls|..];
        ClDecodes(f, b.nlit, b.ndist, b.ncl, 0, b.cl, l, hist);
        ClLengthsDone(f, b.nlit, b.ndist, b.ncl, b.cl, l, hist);
        ListCut(f, b.nlit, b.ndist, b.cl, [], b.lens, l, hist);
      }
    }
  }

  // ---- blocks ------------------------------------------------------------------------------------------

  /** Cut in the data, or in the four bytes before it. */
  lemma StoredBytesCut(f: Frame, data: seq<byte>, q: seq<byte>, hist: seq<byte>)
    requires |data| <= MAX_STORED && q < StoredBytes(data)
    ensures Resume(f, AtStoredHeader([]), StreamBits(q), hist).Starved?
  {
    hide Resume, StreamBits, Word, Byte;
    var n := |data|;
    var head: seq<byte> := [n % 256, n / 256, 255 - n % 256, 255 - n / 256];
    CutConcat(q, head, data);
    assert q[0..] == q && head[..0] == [];
    if |q| < 4 {
      HeaderCut(f, head, q, hist, 0);
    } else {
      var r := q[4..];
      After(head, r);
      HeaderBytes(f, head, q, hist, 0);
      WordsMatch(n);
      StoredHeaderDone(f, head, StreamBits(r), hist);
      StoredRun(f, n, r, hist, |r|);
      assert r[|r|..] == [];
      NoBits();
      StoredStep(f, n - |r|, [], hist + r[..|r|]);
    }
  }

  lemma NoBits()
    ensures StreamBits([]) == []
  {
  }

  lemma {:induction false} HeaderCut(f: Frame, head: seq<byte>, q: seq<byte>, hist: seq<byte>, k: nat)
    requires |head| == 4 && q < head && k <= |q|
    ensures Resume(f, AtStoredHeader(head[..k]), StreamBits(q[k..]), hist).Starved?
    decreases |q| - k
  {
    hide Resume, Byte, LowBits;
    StoredHeaderStep(f, head[..k], StreamBits(q[k..]), hist);
    if k == |q| {
      NoBits();
    } else {
      FrontByte(q[k..]);
      assert q[k..][1..] == q[k + 1..] && q[k] == head[k];
      assert head[..k] + [head[k]] == head[..k + 1];
      HeaderCut(f, head, q, hist, k + 1);
    }
  }

  /** A cut at a byte of the bits of a byte string is a cut of the byte string. */
  lemma WholeBytesCut(q: seq<bool>, bytes: seq<byte>)
    requires |q| % 8 == 0 && q < StreamBits(bytes)
    ensures |q| / 8 < |bytes| && q == StreamBits(bytes[..|q| / 8])
  {
    hide StreamBits;
    ByteCut(q, bytes, |q| / 8);
  }

  lemma ByteCut(q: seq<bool>, bytes: seq<byte>, k: nat)
    requires |q| == 8 * k && q < StreamBits(bytes)
    ensures k < |bytes| && q == StreamBits(bytes[..k])
  {
    hide StreamBits;
    var front, back := bytes[..k], bytes[k..];
    assert bytes == front + back;
    StreamBitsConcat(front, back);
    CutConcat(q, StreamBits(front), StreamBits(back));
    NothingMore(q, StreamBits(front));
  }

  lemma NothingMore(q: seq<bool>, a: seq<bool>)
    requires |q| == |a| && q == a + q[|a|..]
    ensures q == a
  {
    assert q[|a|..] == [];
  }

  lemma StoredCut(f: Frame, data: seq<byte>, last: bool, pos: nat, q: seq<bool>, hist: seq<byte>)
    requires |data| <= MAX_STORED && (pos + |q|) % 8 == 0 && q < EncodeBlock(StoredData(data), last, pos)
    ensures Resume(f, AtBlock, q, hist).Starved?
  {
    hide Resume, StreamBits, StoredBytes, Align;
    var head, gap, body := [last, false, false], Zeros(Gap(pos + 3)), StreamBits(StoredBytes(data));
    CutConcat(q, head, gap + body);
    if |q| < 3 {
      BlockStarved(f, q, hist);
    } else {
      var r := q[3..];
      BlockHead(f, last, false, false, r, hist);
      CutConcat(r, gap, body);
      GapFits(pos + 3, |r|);
      AlignAnyGap(gap, r[|gap|..]);
      WholeBytesCut(r[|gap|..], StoredBytes(data));
      StoredBytesCut(Frame(f.zlib, last), data, StoredBytes(data)[..|r[|gap|..]| / 8], hist);
    }
  }

  lemma GapFits(pos: nat, n: nat)
    requires (pos + n) % 8 == 0
    ensures Gap(pos) <= n && (n - Gap(pos)) % 8 == 0
  {
    var a, b := pos / 8, (pos + n) / 8;
    assert pos == 8 * a + pos % 8 && pos + n == 8 * b;
    assert n == 8 * (b - a) - pos % 8;
    assert n - Gap(pos) == 8 * (b - a - if pos % 8 == 0 then 0 else 1);
  }

  lemma BlockCut(f: Frame, b: Block, last: bool, pos: nat, q: seq<bool>, hist: seq<byte>)
    requires Coded(b) && BlockInReach(b, |hist|) && (pos + |q|) % 8 == 0 && q < EncodeBlock(b, last, pos)
    ensures Resume(f, AtBlock, q, hist).Starved?
  {
    hide Resume, EncodeBody, EncodeTables, TablesSent, AllInReach, Complete, FixedLiterals, FixedDistances, AllListed,
         TokensCoded, EncodeBlock;
    match b
    case StoredData(data) => StoredCut(f, data, last, pos, q, hist);
    case FixedCodes(ts) => FixedCut(f, b, last, pos, q, hist);
    case DynamicCodes(_, _, _, _, _, ts) => DynamicCut(f, b, last, pos, q, hist);
  }

  lemma FixedCut(f: Frame, b: Block, last: bool, pos: nat, q: seq<bool>, hist: seq<byte>)
    requires b.FixedCodes? && Coded(b) && AllInReach(b.tokens, |hist|) && q < EncodeBlock(b, last, pos)
    ensures Resume(f, AtBlock, q, hist).Starved?
  {
    hide Resume, EncodeBody, AllInReach, Complete, FixedLiterals, FixedDistances, Align, Encodable;
    FixedLiteralsComplete();
    FixedDistancesComplete();
    CutConcat(q, [last, true, false], EncodeBody(FixedLiterals(), FixedDistances(), b.tokens));
    if |q| < 3 {
      BlockStarved(f, q, hist);
    } else {
      BlockHead(f, last, true, false, q[3..], hist);
      BodyCut(Frame(f.zlib, last), FixedLiterals(), FixedDistances(), b.tokens, q[3..], hist);
    }
  }

  lemma DynamicCut(f: Frame, b: Block, last: bool, pos: nat, q: seq<bool>, hist: seq<byte>)
    requires b.DynamicCodes? && Coded(b) && AllInReach(b.tokens, |hist|) && q < EncodeBlock(b, last, pos)
    ensures Resume(f, AtBlock, q, hist).Starved?
  {
    hide Resume, EncodeBody, EncodeTables, AllInReach, Complete, Align, AllListed, Proper, ClSent, Encodable, Startable;
    var g := Frame(f.zlib, last);
    var tables, body := EncodeTables(b), EncodeBody(LitOf(b), DistOf(b), b.tokens);
    CutConcat(q, [last, false, true], tables + body);
    if |q| < 3 {
      BlockStarved(f, q, hist);
    } else {
      var r := q[3..];
      BlockHead(f, last, false, true, r, hist);
      CutConcat(r, tables, body);
      if |r| < |tables| {
        TablesCut(g, b, r, hist);
      } else {
        TablesDecode(g, b, r[|tables|..], hist);
        BodyCut(g, LitOf(b), DistOf(b), b.tokens, r[|tables|..], hist);
      }
    }
  }

  // ---- whole streams -------------------------------------------------------------------------------------

  lemma {:induction false} BlocksCut(f: Frame, bs: seq<Block>, pos: nat, q: seq<bool>, hist: seq<byte>)
    requires AllCoded(bs) && BlocksInReach(bs, hist) && (pos + |q|) % 8 == 0 && q < EncodeBlocks(bs, pos)
    ensures Resume(f, AtBlock, q, hist).Starved?
    decreases |bs|
  {
    hide Resume, EncodeBlock, Coded, EndOfBlock, BlockMeant, BlockInReach;
    if |bs| == 1 {
      BlockCut(f, bs[0], true, pos, q, hist);
    } else {
      var first := EncodeBlock(bs[0], false, pos);
      CutConcat(q, first, EncodeBlocks(bs[1..], pos + |first|));
      if |q| < |first| {
        BlockCut(f, bs[0], false, pos, q, hist);
      } else {
        var r := q[|first|..];
        BlockDecodes(f, bs[0], false, pos, r, hist);
        BlockEnd(Frame(f.zlib, false), r, BlockMeant(hist, bs[0]));
        BlocksCut(Frame(f.zlib, false), bs[1..], pos + |first|, r, BlockMeant(hist, bs[0]));
      }
    }
  }

  /** A cut of packed bits is a cut of the bits. */
  lemma PackCut(bits: seq<bool>, p: seq<byte>)
    requires p < Pack(bits)
    ensures StreamBits(p) < bits
  {
    hide StreamBits;
    var whole := Pack(bits);
    StreamOfPack(bits);
    assert whole == p + whole[|p|..];
    StreamBitsConcat(p, whole[|p|..]);
    After(StreamBits(p), StreamBits(whole[|p|..]));
    assert bits == StreamBits(whole)[..|bits|];
    assert StreamBits(p) == bits[..8 * |p|];
  }

  /** A raw stream of any blocks, cut anywhere, starves. */
  lemma RawCutStarves(bs: seq<Block>, p: seq<byte>)
    requires AllCoded(bs) && BlocksInReach(bs, []) && p < Pack(EncodeBlocks(bs, 0))
    ensures Inflate(false, p).Starved?
  {
    hide Resume, EncodeBlocks, AllCoded, BlocksInReach, Pack, StreamBits;
    PackCut(EncodeBlocks(bs, 0), p);
    FromStart(false, p, Frame(false, true));
    BlocksCut(Frame(false, true), bs, 0, StreamBits(p), []);
  }

  lemma {:induction false} ChecksumCut(f: Frame, n: nat, sum: nat, q: seq<byte>, hist: seq<byte>)
    requires n + |q| < 4
    ensures Resume(f, AtChecksum(n, sum), StreamBits(q), hist).Starved?
    decreases |q|
  {
    hide Resume, Byte, LowBits;
    ChecksumStep(f, n, sum, StreamBits(q), hist);
    if q == [] {
      NoBits();
    } else {
      FrontByte(q);
      ChecksumCut(f, n + 1, sum * 256 + q[0], q[1..], hist);
    }
  }

  /** The part of a zlib stream behind its header, cut. */
  lemma ZlibBodyCut(f: Frame, bs: seq<Block>, sum: seq<byte>, p: seq<byte>)
    requires f.zlib && AllCoded(bs) && BlocksInReach(bs, []) && |sum| == 4 && p < Pack(EncodeBlocks(bs, 0)) + sum
    ensures Resume(f, AtBlock, StreamBits(p), []).Starved?
  {
    hide Resume, EncodeBlocks, AllCoded, BlocksInReach, Meaning, Pack, StreamBits, EndOfBlock, Align;
    var bits := EncodeBlocks(bs, 0);
    CutConcat(p, Pack(bits), sum);
    if |p| < |Pack(bits)| {
      PackCut(bits, p);
      BlocksCut(f, bs, 0, StreamBits(p), []);
    } else {
      var r := p[|Pack(bits)|..];
      StreamOfPack(bits);
      var gap := StreamBits(Pack(bits))[|bits|..];
      StreamBitsConcat(Pack(bits), r);
      assert StreamBits(p) == bits + (gap + StreamBits(r));
      BlocksDecode(f, bs, 0, gap + StreamBits(r), []);
      BlockEnd(Frame(true, true), gap + StreamBits(r), Meaning([], bs));
      AlignAnyGap(gap, StreamBits(r));
      ChecksumCut(Frame(true, true), 0, 0, r, Meaning([], bs));
    }
  }

  /** A zlib stream of any blocks, cut anywhere, starves: its length tells whether it is whole. */
  lemma ZlibCutStarves(cmf: byte, flg: byte, bs: seq<Block>, p: seq<byte>)
    requires AllCoded(bs) && BlocksInReach(bs, []) && !BadZlibHeader(cmf, flg) && p <= ZlibStream(cmf, flg, bs)
    ensures Inflate(true, p).Starved? <==> |p| < |ZlibStream(cmf, flg, bs)|
  {
    hide Resume, EncodeBlocks, AllCoded, BlocksInReach, Meaning, Pack, StreamBits, Byte, Adler32.Adler, BadZlibHeader,
         BigEndian;
    var f := Frame(true, true);
    var body := Pack(EncodeBlocks(bs, 0)) + BigEndian(Adler32.Adler(Meaning([], bs)));
    FromStart(true, p, f);
    HeaderStep(f, StreamBits(p));
    if |p| == |ZlibStream(cmf, flg, bs)| {
      assert p == ZlibStream(cmf, flg, bs);
      ZlibRoundTrip(cmf, flg, bs);
    } else if p == [] {
      NoBits();
    } else {
      var q := p[1..];
      CutConcat(p, [cmf], [flg] + body);
      ByteInFront(cmf, q);
      FlagsStep(f, cmf, StreamBits(q));
      if q == [] {
        NoBits();
      } else {
        CutConcat(q, [flg], body);
        ByteInFront(flg, q[1..]);
        ZlibBodyCut(f, bs, BigEndian(Adler32.Adler(Meaning([], bs))), q[1..]);
      }
    }
  }
}
