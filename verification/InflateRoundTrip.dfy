/**
 The pure decoder undoes the encoder: whatever blocks a stream is made of, inflating it gives
 what they mean.
 */
module InflateRoundTrip {
  import opened Bits
  import opened Huffman
  import opened InflateEncoder
  import opened InflateSpec
  import opened InflateSteps
  import opened Sequences
  import Adler32

  // ---- bits into bytes -----------------------------------------------------------------------

  lemma {:induction false} LowBitsOfValue(bits: seq<bool>)
    ensures LowBits(Value(bits), |bits|) == bits
  {
    if bits != [] {
      LowBitsOfValue(bits[1..]);
      assert Value(bits) / 2 == Value(bits[1..]);
    }
  }

  lemma {:induction false} StreamOfPack(bits: seq<bool>)
    ensures |StreamBits(Pack(bits))| < |bits| + 8
    ensures bits <= StreamBits(Pack(bits))
  {
    hide LowBits, Value;
    if bits == [] {
    } else if |bits| < 8 {
      var full := bits + Zeros(8 - |bits|);
      LowBitsOfValue(full);
      assert Pack(bits)[1..] == [];
      assert StreamBits(Pack(bits)) == full;
    } else {
      StreamOfPack(bits[8..]);
      LowBitsOfValue(bits[..8]);
      assert Pack(bits)[1..] == Pack(bits[8..]);
      assert StreamBits(Pack(bits)) == bits[..8] + StreamBits(Pack(bits[8..]));
    }
  }

  lemma ThreeBits(a: bool, b: bool, c: bool)
    ensures Value([a, b, c]) == BitValue(a) + 2 * BitValue(b) + 4 * BitValue(c)
  {
    var s, t, u := [a, b, c], [b, c], [c];
    assert s[1..] == t && t[1..] == u && u[1..] == [];
    assert Value(u) == BitValue(c) + 2 * Value([]);
    assert Value(t) == BitValue(b) + 2 * Value(u);
    assert Value(s) == BitValue(a) + 2 * Value(t);
  }

  // ---- bit strings in front of others ----------------------------------------------------------

  lemma After<T>(a: seq<T>, rest: seq<T>)
    ensures (a + rest)[..|a|] == a && (a + rest)[|a|..] == rest && a <= a + rest
  {
  }

  lemma Assoc<T>(a: seq<T>, b: seq<T>, c: seq<T>)
    ensures a + b + c == a + (b + c)
  {
  }

  /** A number in front. */
  lemma NumberInFront(v: nat, n: nat, rest: seq<bool>)
    requires v < Pow2(n)
    ensures var bits := LowBits(v, n) + rest;
            |bits| >= n && Value(bits[..n]) == v && bits[n..] == rest
  {
    hide Value;
    After(LowBits(v, n), rest);
    ValueOfLowBits(v, n);
  }

  // ---- literals and matches (section 3.2.5 of RFC 1951) -----------------------------------------

  /** The extra bits can express what a length is above the start of its class. */
  lemma LengthExtraFits(len: nat)
    requires MIN_MATCH <= len <= MAX_MATCH
    ensures var c := LengthClass(len, 28); len - LengthBase(c) < Pow2(LengthExtra(c))
  {
    hide Pow2;
    SmallPowers();
  }

  lemma DistExtraFits(d: nat)
    requires 1 <= d <= WINDOW
    ensures var c := DistClass(d, 29); d - DistBase(c) < Pow2(DistExtra(c))
  {
    hide Pow2;
    SmallPowers();
  }

  lemma LengthSymbolDecodes(f: Frame, lit: CodeLengths, dist: CodeLengths, c: nat, rest: seq<bool>, hist: seq<byte>)
    requires Complete(lit) && c < 29 && Used(lit, 257 + c)
    ensures Resume(f, AtSymbol(lit, dist), Code(lit, 257 + c) + rest, hist)
         == Resume(f, AtLength(lit, dist, LengthBase(c), LengthExtra(c)), rest, hist)
  {
    hide Resume, Complete, Code, LengthBase, LengthExtra, EndOfBlock;
    After(Code(lit, 257 + c), rest);
    SymbolStep(f, lit, dist, 257 + c, Code(lit, 257 + c) + rest, hist);
  }

  lemma LengthExtraDecodes(f: Frame, lit: CodeLengths, dist: CodeLengths, base: nat, extra: nat, v: nat,
                           rest: seq<bool>, hist: seq<byte>)
    requires v < Pow2(extra)
    ensures Resume(f, AtLength(lit, dist, base, extra), LowBits(v, extra) + rest, hist)
         == Resume(f, AtDistance(lit, dist, base + v), rest, hist)
  {
    hide Resume, Value, LowBits, Pow2;
    NumberInFront(v, extra, rest);
    MatchLengthStep(f, lit, dist, base, extra, LowBits(v, extra) + rest, hist);
  }

  lemma LengthDecodes(f: Frame, lit: CodeLengths, dist: CodeLengths, len: nat, rest: seq<bool>, hist: seq<byte>)
    requires Complete(lit) && MIN_MATCH <= len <= MAX_MATCH && Used(lit, 257 + LengthClass(len, 28))
    ensures Resume(f, AtSymbol(lit, dist), EncodeLength(lit, LengthClass(len, 28), len) + rest, hist)
         == Resume(f, AtDistance(lit, dist, len), rest, hist)
  {
    hide Resume, Complete, Code, LowBits, LengthBase, LengthExtra, LengthClass, Pow2;
    var c := LengthClass(len, 28);
    var v := len - LengthBase(c);
    Assoc(Code(lit, 257 + c), LowBits(v, LengthExtra(c)), rest);
    LengthSymbolDecodes(f, lit, dist, c, LowBits(v, LengthExtra(c)) + rest, hist);
    LengthExtraFits(len);
    LengthExtraDecodes(f, lit, dist, LengthBase(c), LengthExtra(c), v, rest, hist);
  }

  lemma DistanceDecodes(f: Frame, lit: CodeLengths, dist: CodeLengths, len: nat, d: nat, rest: seq<bool>, hist: seq<byte>)
    requires Complete(dist) && 1 <= d <= WINDOW && d <= |hist| && Used(dist, DistClass(d, 29))
    ensures Resume(f, AtDistance(lit, dist, len), EncodeDistance(dist, DistClass(d, 29), d) + rest, hist)
         == Resume(f, AtSymbol(lit, dist), rest, CopyMatch(hist, d, len))
  {
    hide Resume, Complete, Code, Value, LowBits, DistBase, DistExtra, DistClass, CopyMatch, Pow2;
    var c := DistClass(d, 29);
    var code, number := Code(dist, c), LowBits(d - DistBase(c), DistExtra(c));
    Assoc(code, number, rest);
    After(code, number + rest);
    DistanceStep(f, lit, dist, len, c, code + (number + rest), hist);
    DistExtraFits(d);
    NumberInFront(d - DistBase(c), DistExtra(c), rest);
    DistExtraStep(f, lit, dist, len, DistBase(c), DistExtra(c), number + rest, hist, d);
  }

  lemma TokenDecodes(f: Frame, lit: CodeLengths, dist: CodeLengths, t: Token, rest: seq<bool>, hist: seq<byte>)
    requires Complete(lit) && Complete(dist) && Encodable(lit, dist, t) && InReach(t, |hist|)
    ensures Resume(f, AtSymbol(lit, dist), EncodeToken(lit, dist, t) + rest, hist)
         == Resume(f, AtSymbol(lit, dist), rest, Meant(hist, t))
  {
    hide Resume, Complete, Code, CopyMatch, EncodeLength, EncodeDistance, LengthClass, DistClass, EndOfBlock;
    match t
    case Literal(b) =>
      After(Code(lit, b), rest);
      SymbolStep(f, lit, dist, b, Code(lit, b) + rest, hist);
    case Match(len, d) =>
      var first, second := EncodeLength(lit, LengthClass(len, 28), len), EncodeDistance(dist, DistClass(d, 29), d);
      Assoc(first, second, rest);
      LengthDecodes(f, lit, dist, len, second + rest, hist);
      DistanceDecodes(f, lit, dist, len, d, rest, hist);
  }

  /** A run of tokens is read as what it means. */
  lemma {:induction false} TokensDecode(f: Frame, lit: CodeLengths, dist: CodeLengths, ts: seq<Token>, rest: seq<bool>,
                                        hist: seq<byte>)
    requires Complete(lit) && Complete(dist)
    requires (forall t | t in ts :: Encodable(lit, dist, t)) && AllInReach(ts, |hist|)
    ensures Resume(f, AtSymbol(lit, dist), EncodeTokens(lit, dist, ts) + rest, hist)
         == Resume(f, AtSymbol(lit, dist), rest, AllMeant(hist, ts))
    decreases |ts|
  {
    hide Resume, Complete, EncodeToken, Meant, Encodable;
    if ts == [] {
      assert [] + rest == rest;
    } else {
      var first, others := EncodeToken(lit, dist, ts[0]), EncodeTokens(lit, dist, ts[1..]);
      Assoc(first, others, rest);
      TokenDecodes(f, lit, dist, ts[0], others + rest, hist);
      TokensDecode(f, lit, dist, ts[1..], rest, Meant(hist, ts[0]));
    }
  }

  lemma BodyDecodes(f: Frame, lit: CodeLengths, dist: CodeLengths, ts: seq<Token>, rest: seq<bool>, hist: seq<byte>)
    requires Complete(lit) && Complete(dist) && Used(lit, 256)
    requires (forall t | t in ts :: Encodable(lit, dist, t)) && AllInReach(ts, |hist|)
    ensures Resume(f, AtSymbol(lit, dist), EncodeBody(lit, dist, ts) + rest, hist) == EndOfBlock(f, rest, AllMeant(hist, ts))
  {
    hide Resume, Complete, EncodeTokens, AllMeant, Encodable, Code, EndOfBlock;
    var end := Code(lit, 256);
    Assoc(EncodeTokens(lit, dist, ts), end, rest);
    TokensDecode(f, lit, dist, ts, end + rest, hist);
    After(end, rest);
    SymbolStep(f, lit, dist, 256, end + rest, AllMeant(hist, ts));
  }

  // ---- code length lists (section 3.2.7) --------------------------------------------------------

  lemma RunDecodes(f: Frame, nlit: nat, ndist: nat, cl: CodeLengths, acc: CodeLengths, t: LengthToken,
                   rest: seq<bool>, hist: seq<byte>)
    requires |cl| == CL_CODES && Complete(cl) && nlit >= 1 && |acc| < nlit + ndist
    requires Proper(t) && Used(cl, RunSymbol(t)) && (acc == [] ==> !t.Previous?)
    ensures Resume(f, AtLengths(nlit, ndist, cl, acc), EncodeRun(cl, t) + rest, hist)
         == Resume(f, AtLengths(nlit, ndist, cl, Listed(acc, t)), rest, hist)
  {
    hide Resume, Complete, Code, Value, LowBits, Pow2;
    SmallPowers();
    var s := RunSymbol(t);
    var code := Code(cl, s);
    if t.Plain? {
      After(code, rest);
      LengthStep(f, nlit, ndist, cl, acc, s, code + rest, hist);
    } else {
      var v, n := if t.ManyZeros? then t.n - 11 else t.n - 3, REPEAT_BITS[s - 16];
      var number := LowBits(v, n);
      Assoc(code, number, rest);
      After(code, number + rest);
      LengthStep(f, nlit, ndist, cl, acc, s, code + (number + rest), hist);
      NumberInFront(v, n, rest);
      RepeatStep(f, nlit, ndist, cl, acc, s, number + rest, hist);
    }
  }

  lemma {:induction false} ListDecodes(f: Frame, nlit: nat, ndist: nat, cl: CodeLengths, acc: CodeLengths,
                                       ts: seq<LengthToken>, rest: seq<bool>, hist: seq<byte>)
    requires |cl| == CL_CODES && Complete(cl) && nlit >= 1
    requires AllProper(cl, ts) && Startable(acc, ts) && |AllListed(acc, ts)| == nlit + ndist
    ensures var all := AllListed(acc, ts);
            Resume(f, AtLengths(nlit, ndist, cl, acc), EncodeList(cl, ts) + rest, hist)
            == Tables(f, all[..nlit], all[nlit..], rest, hist)
    decreases |ts|
  {
    hide Resume, Complete, EncodeRun, Listed, Proper, Tables;
    if ts == [] {
      assert [] + rest == rest;
      LengthsDone(f, nlit, ndist, cl, acc, rest, hist);
    } else {
      var first, others := EncodeRun(cl, ts[0]), EncodeList(cl, ts[1..]);
      Assoc(first, others, rest);
      RunDecodes(f, nlit, ndist, cl, acc, ts[0], others + rest, hist);
      ListDecodes(f, nlit, ndist, cl, Listed(acc, ts[0]), ts[1..], rest, hist);
    }
  }

  lemma PlaceOfSlot(k: nat)
    requires k < CL_CODES
    ensures ClPlace(ClSlot(k)) == k
  {
  }

  /** The lengths that are known after k of them. */
  function ClKnown(cl: CodeLengths, k: nat): (r: CodeLengths)
    requires |cl| == CL_CODES
    ensures |r| == CL_CODES
  {
    seq(CL_CODES, i requires 0 <= i < CL_CODES && |cl| == CL_CODES => if ClPlace(i) < k then cl[i] else 0)
  }

  lemma ClKnownMore(cl: CodeLengths, k: nat)
    requires |cl| == CL_CODES && k < CL_CODES
    ensures ClKnown(cl, k)[ClSlot(k) := cl[ClSlot(k)]] == ClKnown(cl, k + 1)
  {
    hide ClSlot, ClPlace;
    var r := ClKnown(cl, k)[ClSlot(k) := cl[ClSlot(k)]];
    PlaceOfSlot(k);
    forall i | 0 <= i < CL_CODES
      ensures r[i] == ClKnown(cl, k + 1)[i]
    {
      if ClPlace(i) == k {
        assert ClSlot(ClPlace(i)) == i;
      }
    }
  }

  lemma {:induction false} ClDecodes(f: Frame, nlit: nat, ndist: nat, ncl: nat, k: nat, cl: CodeLengths,
                                     rest: seq<bool>, hist: seq<byte>)
    requires ClSent(cl, ncl) && k <= ncl && nlit >= 1
    ensures Resume(f, AtClLengths(nlit, ndist, ncl, k, ClKnown(cl, k)), EncodeCl(cl, k, ncl) + rest, hist)
         == Resume(f, AtClLengths(nlit, ndist, ncl, ncl, cl), rest, hist)
    decreases ncl - k
  {
    hide Resume, ClSlot, ClPlace, Value, LowBits, Pow2;
    if k == ncl {
      assert [] + rest == rest;
      assert ClKnown(cl, ncl) == cl;
    } else {
      SmallPowers();
      var first, others := LowBits(cl[ClSlot(k)], 3), EncodeCl(cl, k + 1, ncl);
      Assoc(first, others, rest);
      NumberInFront(cl[ClSlot(k)], 3, others + rest);
      ClLengthStep(f, nlit, ndist, ncl, k, ClKnown(cl, k), first + (others + rest), hist);
      ClKnownMore(cl, k);
      ClDecodes(f, nlit, ndist, ncl, k + 1, cl, rest, hist);
    }
  }

  lemma SizesDecode(f: Frame, nlit: nat, ndist: nat, ncl: nat, rest: seq<bool>, hist: seq<byte>)
    requires 257 <= nlit <= 288 && 1 <= ndist <= 32 && 4 <= ncl <= 19
    ensures Resume(f, AtSizes([]), EncodeSizes(nlit, ndist, ncl) + rest, hist)
         == Resume(f, AtClLengths(nlit, ndist, ncl, 0, Repeat(0, 19)), rest, hist)
  {
    hide Resume, Value, LowBits, Pow2;
    SmallPowers();
    var a, b, c := LowBits(nlit - 257, 5), LowBits(ndist - 1, 5), LowBits(ncl - 4, 4);
    Assoc(a, b + c, rest);
    Assoc(b, c, rest);
    NumberInFront(nlit - 257, 5, b + (c + rest));
    assert [] + [nlit] == [nlit];
    SizesStep(f, [], a + (b + (c + rest)), hist);
    NumberInFront(ndist - 1, 5, c + rest);
    SizesStep(f, [nlit], b + (c + rest), hist);
    assert [nlit] + [ndist] == [nlit, ndist];
    NumberInFront(ncl - 4, 4, rest);
    SizesStep(f, [nlit, ndist], c + rest, hist);
    assert [nlit, ndist] + [ncl] == [nlit, ndist, ncl];
    SizesDone(f, [nlit, ndist, ncl], rest, hist);
  }

  /** The header of a dynamic block gives its two codes. */
  lemma TablesDecode(f: Frame, b: Block, rest: seq<bool>, hist: seq<byte>)
    requires TablesSent(b)
    ensures Resume(f, AtSizes([]), EncodeTables(b) + rest, hist) == Resume(f, AtSymbol(LitOf(b), DistOf(b)), rest, hist)
  {
    hide Resume, Complete, AllListed, EncodeSizes, EncodeCl, EncodeList, ClKnown, Startable, Tables, Proper;
    var sizes, cls, list := EncodeSizes(b.nlit, b.ndist, b.ncl), EncodeCl(b.cl, 0, b.ncl), EncodeList(b.cl, b.lens);
    Assoc(sizes, cls + list, rest);
    Assoc(cls, list, rest);
    SizesDecode(f, b.nlit, b.ndist, b.ncl, cls + (list + rest), hist);
    NothingKnown(b.cl);
    ClDecodes(f, b.nlit, b.ndist, b.ncl, 0, b.cl, list + rest, hist);
    ClLengthsDone(f, b.nlit, b.ndist, b.ncl, b.cl, list + rest, hist);
    ListDecodes(f, b.nlit, b.ndist, b.cl, [], b.lens, rest, hist);
    TablesStep(f, LitOf(b), DistOf(b), rest, hist);
  }

  lemma NothingKnown(cl: CodeLengths)
    requires |cl| == CL_CODES
    ensures ClKnown(cl, 0) == Repeat<CodeLength>(0, 19)
  {
  }

  // ---- blocks (section 3.2.3) ---------------------------------------------------------------------

  /** The three bits that start a block. */
  lemma BlockHead(f: Frame, last: bool, x: bool, y: bool, rest: seq<bool>, hist: seq<byte>)
    ensures Resume(f, AtBlock, [last, x, y] + rest, hist) ==
      var g := Frame(f.zlib, last);
      if !x && !y then Resume(g, AtStoredHeader([]), Align(rest), hist)
      else if x && !y then Resume(g, AtSymbol(FixedLiterals(), FixedDistances()), rest, hist)
      else if !x then Resume(g, AtSizes([]), rest, hist)
      else Resume(g, AtFailure, rest, hist)
  {
    hide Resume, Value, Align;
    After([last, x, y], rest);
    ThreeBits(last, x, y);
    BlockStep(f, [last, x, y] + rest, hist, BitValue(last) + 2 * BitValue(x) + 4 * BitValue(y));
  }

  lemma WordsMatch(n: nat)
    requires n <= MAX_STORED
    ensures Word(n % 256, n / 256) == n && n + Word(255 - n % 256, 255 - n / 256) == 65535
  {
  }

  lemma {:induction false} HeaderBytes(f: Frame, head: seq<byte>, bytes: seq<byte>, hist: seq<byte>, k: nat)
    requires |head| == 4 && k <= 4 && head <= bytes
    ensures Resume(f, AtStoredHeader(head[..k]), StreamBits(bytes[k..]), hist) ==
      Resume(f, AtStoredHeader(head), StreamBits(bytes[4..]), hist)
    decreases 4 - k
  {
    hide Resume, Byte, LowBits;
    if k == 4 {
      assert head[..k] == head;
    } else {
      StoredHeaderStep(f, head[..k], StreamBits(bytes[k..]), hist);
      FrontByte(bytes[k..]);
      assert bytes[k..][1..] == bytes[k + 1..] && bytes[k] == head[k];
      assert head[..k] + [head[k]] == head[..k + 1];
      HeaderBytes(f, head, bytes, hist, k + 1);
    }
  }

  lemma StoredBytesDecode(f: Frame, data: seq<byte>, rest: seq<byte>, hist: seq<byte>)
    requires |data| <= MAX_STORED
    ensures Resume(f, AtStoredHeader([]), StreamBits(StoredBytes(data) + rest), hist)
         == EndOfBlock(f, StreamBits(rest), hist + data)
  {
    hide Resume, StreamBits, Word, Byte, EndOfBlock;
    var n := |data|;
    var head: seq<byte> := [n % 256, n / 256, 255 - n % 256, 255 - n / 256];
    var tail := head + (data + rest);
    assert StoredBytes(data) + rest == tail;
    After(head, data + rest);
    assert tail[0..] == tail && head[..0] == [];
    HeaderBytes(f, head, tail, hist, 0);
    WordsMatch(n);
    StoredHeaderDone(f, head, StreamBits(data + rest), hist);
    StoredRun(f, n, data + rest, hist, n);
    After(data, rest);
    BlockEnd(f, StreamBits(rest), hist + data);
  }

  /** Bits that fill whole bytes are a byte string. */
  lemma WholeBytes(bits: seq<bool>)
    requires |bits| % 8 == 0
    ensures StreamBits(Pack(bits)) == bits
  {
    hide StreamBits, Pack;
    StreamOfPack(bits);
  }

  lemma StoredDecodes(f: Frame, data: seq<byte>, last: bool, pos: nat, rest: seq<bool>, hist: seq<byte>)
    requires |data| <= MAX_STORED && (pos + |EncodeBlock(StoredData(data), last, pos)| + |rest|) % 8 == 0
    ensures Resume(f, AtBlock, EncodeBlock(StoredData(data), last, pos) + rest, hist)
         == EndOfBlock(Frame(f.zlib, last), rest, hist + data)
  {
    hide Resume, StreamBits, EndOfBlock, Align, Pack, StoredBytes;
    var gap, body := Gap(pos + 3), StreamBits(StoredBytes(data));
    assert |rest| % 8 == 0;
    Assoc([last, false, false], Zeros(gap) + body, rest);
    Assoc(Zeros(gap), body, rest);
    BlockHead(f, last, false, false, Zeros(gap) + (body + rest), hist);
    AlignAnyGap(Zeros(gap), body + rest);
    WholeBytes(rest);
    StreamBitsConcat(StoredBytes(data), Pack(rest));
    StoredBytesDecode(Frame(f.zlib, last), data, Pack(rest), hist);
  }

  lemma BlockDecodes(f: Frame, b: Block, last: bool, pos: nat, rest: seq<bool>, hist: seq<byte>)
    requires Coded(b) && BlockInReach(b, |hist|) && (pos + |EncodeBlock(b, last, pos)| + |rest|) % 8 == 0
    ensures Resume(f, AtBlock, EncodeBlock(b, last, pos) + rest, hist)
         == EndOfBlock(Frame(f.zlib, last), rest, BlockMeant(hist, b))
  {
    hide Resume, EncodeBody, EncodeTables, TablesSent, EndOfBlock, AllMeant, AllInReach, Complete, FixedLiterals,
         FixedDistances, EncodeBlock, AllListed, Encodable;
    match b
    case StoredData(data) =>
      StoredDecodes(f, data, last, pos, rest, hist);
    case FixedCodes(ts) =>
      FixedDecodes(f, b, last, pos, rest, hist);
    case DynamicCodes(_, _, _, _, _, ts) =>
      DynamicDecodes(f, b, last, pos, rest, hist);
  }

  lemma FixedDecodes(f: Frame, b: Block, last: bool, pos: nat, rest: seq<bool>, hist: seq<byte>)
    requires b.FixedCodes? && Coded(b) && AllInReach(b.tokens, |hist|)
    ensures Resume(f, AtBlock, EncodeBlock(b, last, pos) + rest, hist)
         == EndOfBlock(Frame(f.zlib, last), rest, AllMeant(hist, b.tokens))
  {
    hide Resume, EncodeBody, EndOfBlock, AllMeant, AllInReach, Complete, FixedLiterals, FixedDistances, Align, Encodable;
    var body := EncodeBody(FixedLiterals(), FixedDistances(), b.tokens);
    FixedLiteralsComplete();
    FixedDistancesComplete();
    Assoc([last, true, false], body, rest);
    BlockHead(f, last, true, false, body + rest, hist);
    BodyDecodes(Frame(f.zlib, last), FixedLiterals(), FixedDistances(), b.tokens, rest, hist);
  }

  lemma DynamicDecodes(f: Frame, b: Block, last: bool, pos: nat, rest: seq<bool>, hist: seq<byte>)
    requires b.DynamicCodes? && Coded(b) && AllInReach(b.tokens, |hist|)
    ensures Resume(f, AtBlock, EncodeBlock(b, last, pos) + rest, hist)
         == EndOfBlock(Frame(f.zlib, last), rest, AllMeant(hist, b.tokens))
  {
    hide Resume, EncodeBody, EncodeTables, EndOfBlock, AllMeant, AllInReach, Complete, Align, AllListed, Proper, ClSent,
         Encodable, Startable;
    var g := Frame(f.zlib, last);
    var tables, body := EncodeTables(b), EncodeBody(LitOf(b), DistOf(b), b.tokens);
    Assoc([last, false, true], tables + body, rest);
    Assoc(tables, body, rest);
    BlockHead(f, last, false, true, tables + (body + rest), hist);
    TablesDecode(g, b, body + rest, hist);
    BodyDecodes(g, LitOf(b), DistOf(b), b.tokens, rest, hist);
  }

  // ---- whole streams ---------------------------------------------------------------------------------

  lemma FinalBlockEnd(f: Frame, bits: seq<bool>, hist: seq<byte>)
    requires f == Frame(false, true)
    ensures EndOfBlock(f, bits, hist) == Done(hist)
  {
  }

  lemma {:induction false} BlocksDecode(f: Frame, bs: seq<Block>, pos: nat, rest: seq<bool>, hist: seq<byte>)
    requires AllCoded(bs) && BlocksInReach(bs, hist) && (pos + |EncodeBlocks(bs, pos)| + |rest|) % 8 == 0
    ensures Resume(f, AtBlock, EncodeBlocks(bs, pos) + rest, hist)
         == EndOfBlock(Frame(f.zlib, true), rest, Meaning(hist, bs))
    decreases |bs|
  {
    hide Resume, EncodeBlock, Coded, EndOfBlock, BlockMeant, BlockInReach;
    if |bs| == 1 {
      BlockDecodes(f, bs[0], true, pos, rest, hist);
      assert Meaning(hist, bs) == BlockMeant(hist, bs[0]) by {
        assert bs[1..] == [];
      }
    } else {
      var first := EncodeBlock(bs[0], false, pos);
      var others := EncodeBlocks(bs[1..], pos + |first|);
      Assoc(first, others, rest);
      BlockDecodes(f, bs[0], false, pos, others + rest, hist);
      var g := Frame(f.zlib, false);
      BlockEnd(g, others + rest, BlockMeant(hist, bs[0]));
      BlocksDecode(g, bs[1..], pos + |first|, rest, BlockMeant(hist, bs[0]));
    }
  }

  /** A raw stream of blocks inflates to what the blocks mean. */
  lemma EncodedRoundTrip(bs: seq<Block>)
    requires AllCoded(bs) && BlocksInReach(bs, [])
    ensures Inflate(false, Pack(EncodeBlocks(bs, 0))) == Done(Meaning([], bs))
  {
    hide Resume, EncodeBlocks, AllCoded, BlocksInReach, Meaning, Pack, StreamBits, EndOfBlock;
    var bits := EncodeBlocks(bs, 0);
    var all := StreamBits(Pack(bits));
    StreamOfPack(bits);
    var rest := all[|bits|..];
    assert all == bits + rest;
    FromStart(false, Pack(bits), Frame(false, true));
    BlocksDecode(Frame(false, true), bs, 0, rest, []);
    FinalBlockEnd(Frame(false, true), rest, Meaning([], bs));
  }

  /** The next byte of a byte string is read, and the bits of the others are left. */
  lemma ByteInFront(b: byte, rest: seq<byte>)
    ensures var bits := StreamBits([b] + rest); |bits| >= 8 && Byte(bits) == b && bits[8..] == StreamBits(rest)
  {
    hide StreamBits, Byte;
    FrontByte([b] + rest);
    assert ([b] + rest)[1..] == rest;
  }

  lemma ChecksumDecodes(f: Frame, v: nat, hist: seq<byte>)
    requires v < 0x1_0000_0000
    ensures Resume(f, AtChecksum(0, 0), StreamBits(BigEndian(v)), hist)
         == Resume(f, AtEnd(v == Adler32.Adler(hist)), StreamBits([]), hist)
  {
    hide Resume, StreamBits, Byte, Adler32.Adler;
    var s := BigEndian(v);
    var b0: nat, b1: nat, b2: nat := s[0], s[1], s[2];
    var tail3, tail2, tail1: seq<byte> := [s[1], s[2], s[3]], [s[2], s[3]], [s[3]];
    assert s == [s[0]] + tail3 && tail3 == [s[1]] + tail2 && tail2 == [s[2]] + tail1 && tail1 == [s[3]] + [];
    ByteInFront(s[0], tail3);
    ChecksumStep(f, 0, 0, StreamBits(s), hist);
    ByteInFront(s[1], tail2);
    ChecksumStep(f, 1, b0, StreamBits(tail3), hist);
    ByteInFront(s[2], tail1);
    ChecksumStep(f, 2, b0 * 256 + b1, StreamBits(tail2), hist);
    ByteInFront(s[3], []);
    ChecksumStep(f, 3, (b0 * 256 + b1) * 256 + b2, StreamBits(tail1), hist);
    BigEndianValue(v);
    ChecksumDone(f, v, StreamBits([]), hist);
  }

  lemma BigEndianValue(v: nat)
    requires v < 0x1_0000_0000
    ensures var s := BigEndian(v); ((s[0] as nat * 256 + s[1]) * 256 + s[2]) * 256 + s[3] == v
  {
    assert v / 256 / 256 == v / 0x1_0000 && v / 0x1_0000 / 256 == v / 0x100_0000;
  }

  /** So does a zlib stream, its checksum included. */
  lemma ZlibRoundTrip(cmf: byte, flg: byte, bs: seq<Block>)
    requires AllCoded(bs) && BlocksInReach(bs, []) && !BadZlibHeader(cmf, flg)
    ensures Inflate(true, ZlibStream(cmf, flg, bs)) == Done(Meaning([], bs))
  {
    hide Resume, EncodeBlocks, AllCoded, BlocksInReach, Meaning, Pack, StreamBits, EndOfBlock, Byte, Adler32.Adler,
         BadZlibHeader, BigEndian, Align;
    var f := Frame(true, true);
    var bits, out := EncodeBlocks(bs, 0), Meaning([], bs);
    var packed, sum := Pack(bits), BigEndian(Adler32.Adler(out));
    var body := packed + sum;
    FromStart(true, ZlibStream(cmf, flg, bs), f);
    ByteInFront(cmf, [flg] + body);
    HeaderStep(f, StreamBits([cmf] + ([flg] + body)));
    ByteInFront(flg, body);
    FlagsStep(f, cmf, StreamBits([flg] + body));
    StreamOfPack(bits);
    var gap := StreamBits(packed)[|bits|..];
    StreamBitsConcat(packed, sum);
    assert StreamBits(body) == bits + (gap + StreamBits(sum));
    BlocksDecode(f, bs, 0, gap + StreamBits(sum), []);
    BlockEnd(f, gap + StreamBits(sum), out);
    AlignAnyGap(gap, StreamBits(sum));
    ChecksumDecodes(f, Adler32.Adler(out), out);
    SumRight(f, StreamBits([]), out);
  }

  lemma AlignAnyGap(gap: seq<bool>, body: seq<bool>)
    requires |gap| < 8 && |body| % 8 == 0
    ensures Align(gap + body) == body
  {
    After(gap, body);
  }

  lemma SumRight(f: Frame, bits: seq<bool>, hist: seq<byte>)
    ensures Resume(f, AtEnd(true), bits, hist) == Done(hist)
  {
  }

  // ---- every run of tokens has an encoding with either kind of codes -----------------------------------

  predicate InRange(t: Token) {
    t.Match? ==> MIN_MATCH <= t.len <= MAX_MATCH && 1 <= t.dist <= WINDOW
  }

  lemma FixedUsed(s: nat)
    requires s < 288
    ensures Used(FixedLiterals(), s)
  {
  }

  lemma FixedEncodable(t: Token)
    requires InRange(t)
    ensures Encodable(FixedLiterals(), FixedDistances(), t)
  {
  }

  /** Sixteen codes of four bits, for the lengths 0 to 15. */
  function FlatCl(): (cl: CodeLengths)
    ensures |cl| == CL_CODES
  {
    Repeat(4, 16) + Repeat(0, 3)
  }

  lemma FlatClComplete()
    ensures Complete(FlatCl())
  {
    hide Count;
    var cl := FlatCl();
    forall l: nat
      ensures l > 0 ==> Count(cl, l) == if l == 4 then 16 else 0
    {
      CountConcat(Repeat(4, 16), Repeat(0, 3), l);
      CountRepeat(4, 16, l);
      CountRepeat(0, 3, l);
    }
    FirstCodeShift(cl, 1, 4);
    FirstCodeShift(cl, 5, 16);
    assert FirstCode(cl, 5) == 32;
    assert Pow2(11) == 2048 by {
      SmallPowers();
    }
  }

  function PlainList(lens: CodeLengths): (ts: seq<LengthToken>)
    ensures |ts| == |lens| && forall t | t in ts :: t.Plain?
  {
    seq(|lens|, i requires 0 <= i < |lens| => Plain(lens[i]))
  }

  lemma {:induction false} PlainListed(acc: CodeLengths, lens: CodeLengths)
    ensures AllListed(acc, PlainList(lens)) == acc + lens
    decreases |lens|
  {
    if lens == [] {
      assert acc + lens == acc;
    } else {
      assert PlainList(lens)[1..] == PlainList(lens[1..]);
      PlainListed(acc + [lens[0]], lens[1..]);
      assert acc + [lens[0]] + lens[1..] == acc + lens;
    }
  }

  /** The fixed codes sent as the codes of a dynamic block. */
  function FlatBlock(ts: seq<Token>): Block {
    DynamicCodes(288, 32, CL_CODES, FlatCl(), PlainList(FixedLiterals() + FixedDistances()), ts)
  }

  lemma AlwaysCoded(ts: seq<Token>)
    requires forall t | t in ts :: InRange(t)
    ensures Coded(FixedCodes(ts)) && Coded(FlatBlock(ts))
  {
    hide Complete, FixedLiterals, FixedDistances, Encodable, FlatCl, InRange;
    FixedUsed(256);
    forall t | t in ts
      ensures Encodable(FixedLiterals(), FixedDistances(), t)
    {
      FixedEncodable(t);
    }
    FixedLiteralsComplete();
    FixedDistancesComplete();
    FlatClComplete();
    FlatClSent();
    PlainListed([], FixedLiterals() + FixedDistances());
    assert AllListed([], FlatBlock(ts).lens) == FixedLiterals() + FixedDistances();
    After(FixedLiterals(), FixedDistances());
  }

  lemma FlatClSent()
    ensures ClSent(FlatCl(), CL_CODES)
    ensures forall v: CodeLength :: Used(FlatCl(), v)
  {
  }

  // ---- two simple encoders -------------------------------------------------------------------

  /** Any byte string as stored blocks. */
  function StoreBlocks(data: seq<byte>): (bs: seq<Block>)
    ensures AllCoded(bs) && forall b | b in bs :: b.StoredData?
    decreases |data|
  {
    if |data| <= MAX_STORED then [StoredData(data)]
    else [StoredData(data[..MAX_STORED])] + StoreBlocks(data[MAX_STORED..])
  }

  lemma OneMoreBlock(data: seq<byte>, bs: seq<Block>, hist: seq<byte>)
    ensures BlocksInReach([StoredData(data)] + bs, hist) <==> BlocksInReach(bs, hist + data)
    ensures BlocksInReach(bs, hist + data) ==> Meaning(hist, [StoredData(data)] + bs) == Meaning(hist + data, bs)
  {
    assert ([StoredData(data)] + bs)[1..] == bs;
  }

  lemma {:induction false} StoreMeans(data: seq<byte>, hist: seq<byte>)
    ensures BlocksInReach(StoreBlocks(data), hist) && Meaning(hist, StoreBlocks(data)) == hist + data
    decreases |data|
  {
    hide Meaning, BlocksInReach, AllCoded;
    if |data| <= MAX_STORED {
      OneMoreBlock(data, [], hist);
      NoBlocks(hist + data);
      assert [StoredData(data)] + [] == StoreBlocks(data);
    } else {
      var front, back := data[..MAX_STORED], data[MAX_STORED..];
      OneMoreBlock(front, StoreBlocks(back), hist);
      StoreMeans(back, hist + front);
      assert hist + front + back == hist + data;
    }
  }

  lemma NoBlocks(hist: seq<byte>)
    ensures BlocksInReach([], hist) && Meaning(hist, []) == hist
  {
  }

  /** Inflating the stored form of any byte string gives it back. */
  lemma StoreRoundTrip(data: seq<byte>)
    ensures Inflate(false, Pack(EncodeBlocks(StoreBlocks(data), 0))) == Done(data)
  {
    hide AllCoded, StoreBlocks, EncodeBlocks, BlocksInReach, Meaning, Pack;
    StoreMeans(data, []);
    EncodedRoundTrip(StoreBlocks(data));
    assert [] + data == data;
  }

  function LiteralTokens(data: seq<byte>): (ts: seq<Token>)
    ensures |ts| == |data| && forall t | t in ts :: InRange(t)
  {
    seq(|data|, i requires 0 <= i < |data| => Literal(data[i]))
  }

  lemma {:induction false} LiteralsMean(data: seq<byte>, hist: seq<byte>)
    ensures AllInReach(LiteralTokens(data), |hist|) && AllMeant(hist, LiteralTokens(data)) == hist + data
    decreases |data|
  {
    if data == [] {
      assert hist + data == hist;
    } else {
      assert LiteralTokens(data)[1..] == LiteralTokens(data[1..]);
      LiteralsMean(data[1..], hist + [data[0]]);
      assert hist + [data[0]] + data[1..] == hist + data;
    }
  }

  /** Inflating any byte string written as literals of the fixed code gives it back. */
  lemma LiteralsRoundTrip(data: seq<byte>)
    ensures AllCoded([FixedCodes(LiteralTokens(data))])
    ensures Inflate(false, Pack(EncodeBlocks([FixedCodes(LiteralTokens(data))], 0))) == Done(data)
  {
    hide Coded, AllMeant, AllInReach, EncodeBlocks, Pack, LiteralTokens;
    var block := FixedCodes(LiteralTokens(data));
    AlwaysCoded(LiteralTokens(data));
    LiteralsMean(data, []);
    assert [block][1..] == [] && [] + data == data;
    EncodedRoundTrip([block]);
  }
}
