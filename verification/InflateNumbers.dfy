/**
 The fixed codes of section 3.2.6 of RFC 1951 and the lengths and distances of section 3.2.5 in
 numbers, without any list of code lengths or table of bases: what a fixed block is made of, bit
 by bit, and what it inflates to.
 */
module InflateNumbers {
  import opened Bits
  import opened Huffman
  import opened InflateEncoder
  import opened InflateRoundTrip
  import opened InflateSpec
  import opened Sequences

  // ---- the fixed codes -------------------------------------------------------------------------

  /** How often a length occurs in stretches of equal lengths. */
  lemma FourStretches(a: nat, b: nat, c: nat, d: nat, l: nat)
    ensures var lens: CodeLengths := Repeat(8, a) + Repeat(9, b) + Repeat(7, c) + Repeat(8, d);
            Count(lens, l) == if l == 8 then a + d else if l == 9 then b else if l == 7 then c else 0
  {
    hide Count, Repeat;
    var p: CodeLengths, q: CodeLengths, r: CodeLengths, t: CodeLengths :=
      Repeat(8, a), Repeat(9, b), Repeat(7, c), Repeat(8, d);
    CountConcat(p + q + r, t, l);
    CountConcat(p + q, r, l);
    CountConcat(p, q, l);
    CountRepeat(8, a, l);
    CountRepeat(9, b, l);
    CountRepeat(7, c, l);
    CountRepeat(8, d, l);
  }

  /** The length of a symbol's fixed code, and how many symbols before it have that length. */
  lemma FixedBefore(s: nat)
    requires s < 288
    ensures FixedLiterals()[s] == if s < 144 then 8 else if s < 256 then 9 else if s < 280 then 7 else 8
    ensures Count(FixedLiterals()[..s], FixedLiterals()[s])
            == if s < 144 then s else if s < 256 then s - 144 else if s < 280 then s - 256 else s - 136
  {
    hide Count;
    var a: nat, b: nat := Min(s, 144), Max(0, Min(s, 256) - 144);
    var c: nat, d: nat := Max(0, Min(s, 280) - 256), Max(0, s - 280);
    var before: CodeLengths := Repeat(8, a) + Repeat(9, b) + Repeat(7, c) + Repeat(8, d);
    assert FixedLiterals()[..s] == before;
    FourStretches(a, b, c, d, FixedLiterals()[s]);
  }

  /** The code of every literal and length symbol. */
  lemma FixedLiteralCodes(s: nat)
    requires s < 288
    ensures Used(FixedLiterals(), s)
    ensures Code(FixedLiterals(), s)
            == if s < 144 then MsbBits(48 + s, 8)
               else if s < 256 then MsbBits(400 + (s - 144), 9)
               else if s < 280 then MsbBits(s - 256, 7)
               else MsbBits(192 + (s - 280), 8)
  {
    hide FixedLiterals, FirstCode, Count, MsbBits;
    FixedBefore(s);
    FixedFirstCodes();
  }

  lemma FixedDistanceBefore(s: nat)
    requires s < 32
    ensures FixedDistances()[s] == 5 && Count(FixedDistances()[..s], 5) == s
  {
    hide Count;
    var before: CodeLengths := Repeat(5, s);
    assert FixedDistances()[..s] == before;
    CountRepeat(5, s, 5);
  }

  /** The code of every distance symbol. */
  lemma FixedDistanceCodes(s: nat)
    requires s < 32
    ensures Used(FixedDistances(), s)
    ensures Code(FixedDistances(), s) == MsbBits(s, 5)
  {
    hide FirstCode, Count, MsbBits, FixedDistances;
    FixedDistanceBefore(s);
    FixedFirstDistance();
  }

  /** The bits of a code and of a number, one by one. */
  lemma {:induction false} MsbBitsAt(v: nat, n: nat, k: nat)
    requires k < n
    ensures MsbBits(v, n)[k] <==> v / Pow2(n - 1 - k) % 2 == 1
  {
    if k < n - 1 {
      MsbBitsAt(v / 2, n - 1, k);
      DivDiv(v, 2, Pow2(n - 2 - k));
    }
  }

  // ---- literals and matches in numbers ---------------------------------------------------------

  /** The code of a symbol of a fixed block. */
  function SymbolBits(s: nat): seq<bool>
    requires s < 288
  {
    if s < 144 then MsbBits(48 + s, 8)
    else if s < 256 then MsbBits(400 + (s - 144), 9)
    else if s < 280 then MsbBits(s - 256, 7)
    else MsbBits(192 + (s - 280), 8)
  }

  /** How often a number has to be halved to be below twice a power of two. */
  function Halvings(x: nat, per: nat): (e: nat)
    requires per >= 1
    ensures x / Pow2(e) < 2 * per && (e > 0 ==> x / Pow2(e) >= per)
  {
    if x < 2 * per then
      assert x / Pow2(0) == x;
      0
    else
      var e := Halvings(x / 2, per);
      DivDiv(x, 2, Pow2(e));
      1 + e
  }

  lemma FewHalvings(x: nat, per: nat, e: nat)
    requires per >= 1 && x < per * Pow2(e + 1)
    ensures Halvings(x, per) <= e
  {
    var h := Halvings(x, per);
    if h > e {
      QuotientBelowPower(x, per, e + 1, h);
      assert false;
    }
  }

  lemma PowersGrow(a: nat, b: nat)
    requires a <= b
    ensures Pow2(a) <= Pow2(b)
  {
    if a < b {
      PowersGrow(a, b - 1);
    }
  }

  lemma BelowProduct(x: nat, q: nat, p: nat)
    requires p > 0 && x < q * p
    ensures x / p < q
  {
    DivBetween(x, 0, q, p);
  }

  lemma QuotientBelowPower(x: nat, per: nat, e: nat, h: nat)
    requires x < per * Pow2(e) && e <= h
    ensures x / Pow2(h) < per
  {
    hide Pow2;
    PowersGrow(e, h);
    MulMonotone(Pow2(e), Pow2(h), per);
    BelowProduct(x, per, Pow2(h));
  }

  /**
   A length of 258 has a symbol of its own. Of any other the excess over 3 is halved until it is
   below 8; each halving gives an extra bit and passes over 4 symbols.
   */
  function LengthBits(len: nat): seq<bool>
    requires 3 <= len <= 258
  {
    if len == 258 then SymbolBits(285)
    else
      var e := Halvings(len - 3, 4);
      FewLengthBits(len);
      SymbolBits(257 + 4 * e + (len - 3) / Pow2(e)) + LowBits((len - 3) % Pow2(e), e)
  }

  lemma FewLengthBits(len: nat)
    requires 3 <= len <= 257
    ensures var e := Halvings(len - 3, 4); e <= 5 && 4 * e + (len - 3) / Pow2(e) < 28
  {
    SmallPowers();
    FewHalvings(len - 3, 4, 5);
  }

  /** The excess of a distance over 1 is halved until it is below 4, each halving passing over 2 symbols. */
  function DistanceBits(d: nat): seq<bool>
    requires 1 <= d <= 32768
  {
    var e := Halvings(d - 1, 2);
    MsbBits(2 * e + (d - 1) / Pow2(e), 5) + LowBits((d - 1) % Pow2(e), e)
  }

  /** The tokens a fixed block can hold. */
  predicate Holds(t: Token) {
    t.Match? ==> 3 <= t.len <= 258 && 1 <= t.dist <= 32768
  }

  function TokenBits(t: Token): seq<bool>
    requires Holds(t)
  {
    match t
    case Literal(b) => SymbolBits(b)
    case Match(len, d) => LengthBits(len) + DistanceBits(d)
  }

  function AllTokenBits(ts: seq<Token>): seq<bool>
    requires forall t | t in ts :: Holds(t)
  {
    if ts == [] then [] else TokenBits(ts[0]) + AllTokenBits(ts[1..])
  }

  /** A last block with the fixed codes: 1, then 01 from its low bit, the tokens, and seven zeros. */
  function FixedBlock(ts: seq<Token>): seq<bool>
    requires forall t | t in ts :: Holds(t)
  {
    [true, true, false] + (AllTokenBits(ts) + [false, false, false, false, false, false, false])
  }

  // ---- the tables give these numbers -----------------------------------------------------------

  /** Each group of four length symbols counts from twice as far as the one before it. */
  lemma LengthGroups(i: nat)
    requires 4 <= i < 24
    ensures LengthBase(i + 4) - 3 == 2 * (LengthBase(i) - 3) && LengthExtra(i + 4) == LengthExtra(i) + 1
  {
  }

  lemma SmallLengths(q: nat)
    requires q < 8
    ensures LengthBase(q) == q + 3 && LengthExtra(q) == 0
    ensures LengthBase(28) == 258 && LengthExtra(28) == 0
  {
  }

  lemma {:induction false} LengthTable(e: nat, q: nat)
    requires e <= 5 && q < 8 && (e > 0 ==> q >= 4)
    ensures LengthBase(4 * e + q) == q * Pow2(e) + 3 && LengthExtra(4 * e + q) == e
  {
    hide LengthBase, LengthExtra;
    if e == 0 {
      SmallLengths(q);
    } else {
      LengthTable(e - 1, q);
      LengthGroups(4 * (e - 1) + q);
      ProductOfDouble(q, Pow2(e - 1));
    }
  }

  lemma SmallDistances(q: nat)
    requires q < 4
    ensures DistBase(q) == q + 1 && DistExtra(q) == 0
  {
  }

  lemma DistGroups(i: nat)
    requires 2 <= i < 28
    ensures DistBase(i + 2) - 1 == 2 * (DistBase(i) - 1) && DistExtra(i + 2) == DistExtra(i) + 1
  {
  }

  lemma {:induction false} DistTable(e: nat, q: nat)
    requires e <= 13 && q < 4 && (e > 0 ==> q >= 2)
    ensures DistBase(2 * e + q) == q * Pow2(e) + 1 && DistExtra(2 * e + q) == e
  {
    hide DistBase, DistExtra;
    if e == 0 {
      SmallDistances(q);
    } else {
      DistTable(e - 1, q);
      DistGroups(2 * (e - 1) + q);
      ProductOfDouble(q, Pow2(e - 1));
    }
  }

  /** The class of a length is the one that starts there or before, and the next one does not. */
  lemma {:induction false} LengthClassIs(len: nat, i: nat, c: nat)
    requires 3 <= len && c <= i < 29
    requires LengthBase(c) <= len && (c < i ==> len < LengthBase(c + 1))
    ensures LengthClass(len, i) == c
  {
    hide LengthBase;
    if c < i {
      BasesRise(c + 1, i);
      LengthClassIs(len, i - 1, c);
    }
  }

  lemma {:induction false} BasesRise(a: nat, b: nat)
    requires a <= b < 29
    ensures LengthBase(a) <= LengthBase(b)
  {
    hide LengthBase;
    if a < b {
      BasesRise(a, b - 1);
      NextBase(b - 1);
    }
  }

  lemma NextBase(i: nat)
    requires i < 28
    ensures LengthBase(i) < LengthBase(i + 1)
  {
  }

  lemma {:induction false} DistClassIs(d: nat, i: nat, c: nat)
    requires 1 <= d && c <= i < 30
    requires DistBase(c) <= d && (c < i ==> d < DistBase(c + 1))
    ensures DistClass(d, i) == c
  {
    hide DistBase;
    if c < i {
      DistBasesRise(c + 1, i);
      DistClassIs(d, i - 1, c);
    }
  }

  lemma {:induction false} DistBasesRise(a: nat, b: nat)
    requires a <= b < 30
    ensures DistBase(a) <= DistBase(b)
  {
    hide DistBase;
    if a < b {
      DistBasesRise(a, b - 1);
      NextDistBase(b - 1);
    }
  }

  lemma NextDistBase(i: nat)
    requires i < 29
    ensures DistBase(i) < DistBase(i + 1)
  {
  }

  lemma QuotientParts(x: nat, p: nat)
    requires p > 0
    ensures x == x / p * p + x % p && x < (x / p + 1) * p
  {
    NextMultiple(x / p, p);
  }

  /** The symbol and the extra bits of a length. */
  lemma LengthInNumbers(len: nat)
    requires 3 <= len <= 257
    ensures var e := Halvings(len - 3, 4);
            var c := 4 * e + (len - 3) / Pow2(e);
            c < 28 && LengthClass(len, 28) == c && LengthExtra(c) == e && len - LengthBase(c) == (len - 3) % Pow2(e)
  {
    hide LengthBase, LengthExtra, Pow2, LengthClass;
    var e := Halvings(len - 3, 4);
    var q := (len - 3) / Pow2(e);
    FewLengthBits(len);
    QuotientParts(len - 3, Pow2(e));
    LengthTable(e, q);
    if q < 7 {
      LengthTable(e, q + 1);
    } else if e < 5 {
      LengthTable(e + 1, 4);
      TwiceAsMuch(e, 4);
    } else {
      SmallLengths(0);
    }
    LengthClassIs(len, 28, 4 * e + q);
  }

  lemma TwiceAsMuch(e: nat, q: nat)
    ensures q * Pow2(e + 1) == (2 * q) * Pow2(e)
  {
    ProductOfDouble(q, Pow2(e));
    DoubleProduct(q, Pow2(e));
  }

  /** The symbol and the extra bits of a distance. */
  lemma DistanceInNumbers(d: nat)
    requires 1 <= d <= 32768
    ensures var e := Halvings(d - 1, 2);
            var c := 2 * e + (d - 1) / Pow2(e);
            c < 30 && DistClass(d, 29) == c && DistExtra(c) == e && d - DistBase(c) == (d - 1) % Pow2(e)
  {
    hide DistBase, DistExtra, Pow2, DistClass;
    var e := Halvings(d - 1, 2);
    var q := (d - 1) / Pow2(e);
    FewDistanceBits(d);
    QuotientParts(d - 1, Pow2(e));
    DistTable(e, q);
    if q < 3 {
      DistTable(e, q + 1);
    } else if e < 13 {
      DistTable(e + 1, 2);
      TwiceAsMuch(e, 2);
    }
    DistClassIs(d, 29, 2 * e + q);
  }

  lemma FewDistanceBits(d: nat)
    requires 1 <= d <= 32768
    ensures Halvings(d - 1, 2) <= 13
  {
    SmallPowers();
    FewHalvings(d - 1, 2, 13);
  }

  lemma TokenInNumbers(t: Token)
    requires Holds(t)
    ensures Encodable(FixedLiterals(), FixedDistances(), t)
    ensures EncodeToken(FixedLiterals(), FixedDistances(), t) == TokenBits(t)
  {
    hide FixedLiterals, FixedDistances, Code, MsbBits, LowBits, LengthBase, LengthExtra, DistBase, DistExtra, Pow2,
         LengthClass, DistClass, Halvings;
    if t.Literal? {
      FixedLiteralCodes(t.b);
    } else {
      DistanceInNumbers(t.dist);
      FixedDistanceCodes(DistClass(t.dist, 29));
      if t.len == 258 {
        SmallLengths(0);
        LengthClassIs(258, 28, 28);
        FixedLiteralCodes(285);
        assert LowBits(0, 0) == [];
      } else {
        LengthInNumbers(t.len);
        FixedLiteralCodes(257 + LengthClass(t.len, 28));
      }
    }
  }

  // ---- what a fixed block inflates to ------------------------------------------------------------

  lemma {:induction false} TokensInNumbers(ts: seq<Token>)
    requires forall t | t in ts :: Holds(t)
    ensures forall t | t in ts :: Encodable(FixedLiterals(), FixedDistances(), t)
    ensures EncodeTokens(FixedLiterals(), FixedDistances(), ts) == AllTokenBits(ts)
  {
    hide FixedLiterals, FixedDistances, Encodable, EncodeToken, TokenBits, Holds;
    if ts != [] {
      TokenInNumbers(ts[0]);
      TokensInNumbers(ts[1..]);
    }
  }

  lemma BlockInNumbers(ts: seq<Token>)
    requires forall t | t in ts :: Holds(t)
    ensures AllCoded([FixedCodes(ts)]) && EncodeBlocks([FixedCodes(ts)], 0) == FixedBlock(ts)
  {
    hide FixedLiterals, FixedDistances, Encodable, EncodeTokens, AllTokenBits, Code, Holds;
    TokensInNumbers(ts);
    FixedLiteralCodes(256);
    SevenZeros();
  }

  lemma SevenZeros()
    ensures MsbBits(0, 7) == [false, false, false, false, false, false, false]
  {
  }

  /** A fixed block written with these numbers inflates to what its tokens mean. */
  lemma FixedBlockInflates(ts: seq<Token>)
    requires (forall t | t in ts :: Holds(t)) && AllInReach(ts, 0)
    ensures Inflate(false, Pack(FixedBlock(ts))) == Done(AllMeant([], ts))
  {
    hide AllCoded, EncodeBlocks, FixedBlock, Pack, AllMeant, AllInReach, Holds;
    var bs := [FixedCodes(ts)];
    BlockInNumbers(ts);
    OneBlockMeans(bs);
    EncodedRoundTrip(bs);
  }

  lemma OneBlockMeans(bs: seq<Block>)
    requires |bs| == 1 && bs[0].FixedCodes? && AllInReach(bs[0].tokens, 0)
    ensures BlocksInReach(bs, []) && Meaning([], bs) == AllMeant([], bs[0].tokens)
  {
    hide AllMeant, AllInReach;
    assert bs[1..] == [];
  }

  /** Eight bits make a byte, the first one counting 1 and the last one 128. */
  lemma ByteOfBits(bits: seq<bool>)
    requires |bits| == 8
    ensures ByteOf(bits) == BitValue(bits[0]) + 2 * BitValue(bits[1]) + 4 * BitValue(bits[2]) + 8 * BitValue(bits[3])
                            + 16 * BitValue(bits[4]) + 32 * BitValue(bits[5]) + 64 * BitValue(bits[6]) + 128 * BitValue(bits[7])
  {
    var low, high := bits[..4], bits[4..];
    ValueConcat(low, high);
    FourBits(low);
    FourBits(high);
    assert bits == low + high && Pow2(4) == 16;
  }

  lemma FourBits(b: seq<bool>)
    requires |b| == 4
    ensures Value(b) == BitValue(b[0]) + 2 * BitValue(b[1]) + 4 * BitValue(b[2]) + 8 * BitValue(b[3])
  {
    ThreeBits(b[1], b[2], b[3]);
    assert b[1..] == [b[1], b[2], b[3]];
  }

  lemma PackMore(a: seq<bool>, rest: seq<bool>)
    requires |a| == 8
    ensures Pack(a + rest) == [ByteOf(a)] + Pack(rest)
  {
    hide ByteOf;
    After(a, rest);
  }

  lemma PackTwo(c: seq<bool>)
    requires |c| == 2
    ensures Pack(c) == [ByteOf(c + [false, false, false, false, false, false])]
  {
    hide ByteOf;
    assert c + Zeros(6) == c + [false, false, false, false, false, false];
  }

  /** The block of the one letter "a" is 4B 04 00. */
  lemma LetterBlock()
    ensures FixedBlock([Literal(97)])
            == [true, true, false, true, false, false, true, false]
               + [false, false, true, false, false, false, false, false] + [false, false]
    ensures Pack(FixedBlock([Literal(97)])) == [0x4b, 0x04, 0x00]
  {
    hide ByteOf, Pack;
    LetterBits();
    var a, b := [true, true, false, true, false, false, true, false], [false, false, true, false, false, false, false, false];
    var c := [false, false];
    PackMore(a, b + c);
    PackMore(b, c);
    PackTwo(c);
    assert a + b + c == a + (b + c);
    ByteOfBits(a);
    ByteOfBits(b);
    ByteOfBits(c + [false, false, false, false, false, false]);
  }

  lemma LetterBits()
    ensures AllTokenBits([Literal(97)]) == [true, false, false, true, false, false, false, true]
  {
    assert MsbBits(145, 8) == [true, false, false, true, false, false, false, true];
    assert AllTokenBits([Literal(97)]) == MsbBits(145, 8);
  }

  /** So the stream 4B 04 00 is an "a". */
  lemma LetterInflates()
    ensures Inflate(false, [0x4b, 0x04, 0x00]) == Done([97])
  {
    hide FixedBlock, Pack;
    LetterBlock();
    LetterMeans();
    FixedBlockInflates([Literal(97)]);
  }

  lemma LetterMeans()
    ensures Holds(Literal(97)) && AllInReach([Literal(97)], 0) && AllMeant([], [Literal(97)]) == [97]
  {
    assert AllMeant([97], []) == [97];
  }

  // ---- a stored block ----------------------------------------------------------------------------

  lemma {:induction false} PackOfStream(bytes: seq<byte>)
    ensures Pack(StreamBits(bytes)) == bytes
  {
    hide LowBits, Value, Pow2;
    if bytes != [] {
      PackOfStream(bytes[1..]);
      PackMore(LowBits(bytes[0], 8), StreamBits(bytes[1..]));
      ByteBack(bytes[0]);
    }
  }

  lemma ByteBack(b: byte)
    ensures ByteOf(LowBits(b, 8)) == b
  {
    assert Pow2(8) == 256;
    ValueOfLowBits(b, 8);
  }

  lemma StoredBits(data: seq<byte>)
    requires |data| <= 65535
    ensures AllCoded([StoredData(data)])
    ensures EncodeBlocks([StoredData(data)], 0)
            == [true, false, false, false, false, false, false, false] + StreamBits(StoredBytes(data))
  {
    hide StreamBits, StoredBytes;
    assert Zeros(5) == [false, false, false, false, false];
  }

  /** A last stored block: 01, the length and its complement, lowest byte first, and up to 65535 bytes. */
  lemma StoredBlockInflates(data: seq<byte>)
    requires |data| <= 65535
    ensures var n := |data|;
            Inflate(false, [1, n % 256, n / 256, 255 - n % 256, 255 - n / 256] + data) == Done(data)
  {
    hide Inflate, StreamBits, Pack, EncodeBlocks, AllCoded;
    var bs, n := [StoredData(data)], |data|;
    var head := [true, false, false, false, false, false, false, false];
    StoredBits(data);
    PackMore(head, StreamBits(StoredBytes(data)));
    PackOfStream(StoredBytes(data));
    ByteOfBits(head);
    assert bs[1..] == [] && [] + data == data;
    assert [1] + StoredBytes(data) == [1, n % 256, n / 256, 255 - n % 256, 255 - n / 256] + data;
    EncodedRoundTrip(bs);
  }

  // ---- the code length code of a dynamic block ---------------------------------------------------

  /** The order in which its lengths are sent (section 3.2.7): 16, 17, 18, 0, then outwards from 8 and 7. */
  lemma CodeLengthOrder(k: nat)
    requires k < 19
    ensures ClSlot(k) == if k < 3 then 16 + k else if k == 3 then 0 else if k % 2 == 0 then 6 + k / 2 else (19 - k) / 2
  {
  }

  /** Each is sent in three bits, the lowest first. */
  lemma {:induction false} CodeLengthsSent(cl: CodeLengths, from: nat, ncl: nat, k: nat)
    requires |cl| == 19 && from <= k < ncl <= 19
    ensures |EncodeCl(cl, from, ncl)| == 3 * (ncl - from)
    ensures var v := cl[if k < 3 then 16 + k else if k == 3 then 0 else if k % 2 == 0 then 6 + k / 2 else (19 - k) / 2];
            var bits := EncodeCl(cl, from, ncl)[3 * (k - from)..];
            |bits| >= 3 && (bits[0] <==> v % 2 == 1) && (bits[1] <==> v / 2 % 2 == 1) && (bits[2] <==> v / 4 % 2 == 1)
    decreases ncl - from
  {
    hide LowBits, ClSlot;
    ClCount(cl, from, ncl);
    if k == from {
      ThreeLowBits(cl[ClSlot(from)]);
      CodeLengthOrder(k);
    } else {
      CodeLengthsSent(cl, from + 1, ncl, k);
    }
  }

  lemma {:induction false} ClCount(cl: CodeLengths, from: nat, ncl: nat)
    requires |cl| == 19 && from <= ncl <= 19
    ensures |EncodeCl(cl, from, ncl)| == 3 * (ncl - from)
    decreases ncl - from
  {
    hide LowBits, ClSlot;
    if from < ncl {
      ClCount(cl, from + 1, ncl);
    }
  }

  lemma ThreeLowBits(v: nat)
    ensures LowBits(v, 3) == [v % 2 == 1, v / 2 % 2 == 1, v / 4 % 2 == 1]
  {
    assert LowBits(v / 2, 2) == [v / 2 % 2 == 1, v / 4 % 2 == 1];
  }
}
