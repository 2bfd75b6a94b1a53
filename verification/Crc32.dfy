/**
 CRC-32 as the flasher computes it, bit by bit with a mask, and as section 8 of RFC 1952 gives
 it, byte by byte with a table; feeding a message in pieces.
 */
module Crc32 {

  const POLY: bv32 := 0xedb88320
  const START: bv32 := 0xffff_ffff

  function Xor(a: bv32, b: bv32): bv32 {
    a ^ b
  }

  function Half(a: bv32): bv32 {
    a >> 1
  }

  predicate Odd(a: bv32) {
    a & 1 == 1
  }

  function Wide(b: bv8): bv32 {
    b as bv32
  }

  /** One bit: the remainder is shifted, and reduced when the bit that leaves is a one. */
  function Step(c: bv32): bv32 {
    if Odd(c) then Xor(POLY, Half(c)) else Half(c)
  }

  function Steps(c: bv32, n: nat): bv32 {
    if n == 0 then c else Step(Steps(c, n - 1))
  }

  /** The register after one byte. */
  function FeedByte(c: bv32, b: bv8): bv32 {
    Steps(Xor(c, Wide(b)), 8)
  }

  function Feed(c: bv32, data: seq<bv8>): bv32 {
    if data == [] then c else FeedByte(Feed(c, data[..|data| - 1]), data[|data| - 1])
  }

  /** The CRC of a message. */
  function Crc(data: seq<bv8>): bv32 {
    Xor(Feed(START, data), 0xffff_ffff)
  }

  /** Feeding a message in two pieces is feeding it whole. */
  lemma {:induction false} FeedConcat(c: bv32, a: seq<bv8>, b: seq<bv8>)
    ensures Feed(c, a + b) == Feed(Feed(c, a), b)
  {
    hide FeedByte;
    if b == [] {
      assert a + b == a;
    } else {
      assert (a + b)[..|a + b| - 1] == a + b[..|b| - 1];
      FeedConcat(c, a, b[..|b| - 1]);
    }
  }

  // ---- the register can be told back ----------------------------------------------------------

  lemma StepInjective(c: bv32, d: bv32)
    requires Step(c) == Step(d)
    ensures c == d
  {
  }

  lemma {:induction false} StepsInjective(c: bv32, d: bv32, n: nat)
    requires Steps(c, n) == Steps(d, n)
    ensures c == d
  {
    hide Step;
    if n > 0 {
      StepInjective(Steps(c, n - 1), Steps(d, n - 1));
      StepsInjective(c, d, n - 1);
    }
  }

  lemma XorCancels(a: bv32, b: bv32, c: bv32)
    requires Xor(a, c) == Xor(b, c)
    ensures a == b
  {
  }

  /** Different registers stay different, whatever is fed to both. */
  lemma {:induction false} FeedInjective(c: bv32, d: bv32, data: seq<bv8>)
    requires Feed(c, data) == Feed(d, data)
    ensures c == d
  {
    hide Xor, Wide, Steps;
    if data != [] {
      var rest, b := data[..|data| - 1], data[|data| - 1];
      StepsInjective(Xor(Feed(c, rest), Wide(b)), Xor(Feed(d, rest), Wide(b)), 8);
      XorCancels(Feed(c, rest), Feed(d, rest), Wide(b));
      FeedInjective(c, d, rest);
    }
  }

  // ---- the mask form ---------------------------------------------------------------------------

  /** One bit in the program: the polynomial is masked by the bit that leaves. */
  function MaskStep(c: bv32): bv32 {
    (c >> 1) ^ (POLY & (0 - (c & 1)))
  }

  lemma LowBit(c: bv32)
    ensures c & 1 == 0 || c & 1 == 1
  {
  }

  lemma MaskNone(h: bv32)
    ensures h ^ (POLY & (0 - 0)) == h
  {
  }

  lemma MaskAll(h: bv32)
    ensures h ^ (POLY & (0 - 1)) == POLY ^ h
  {
  }

  lemma MaskIsStep(c: bv32)
    ensures MaskStep(c) == Step(c)
  {
    LowBit(c);
    if c & 1 == 0 {
      MaskNone(c >> 1);
    } else {
      MaskAll(c >> 1);
    }
  }

  // ---- the table form --------------------------------------------------------------------------

  lemma XorHalf(a: bv32, b: bv32)
    ensures Half(Xor(a, b)) == Xor(Half(a), Half(b))
    ensures Odd(Xor(a, b)) == (Odd(a) != Odd(b))
  {
  }

  lemma XorAssociates(a: bv32, b: bv32, c: bv32)
    ensures Xor(Xor(a, b), c) == Xor(a, Xor(b, c))
  {
  }

  lemma XorCommutes(a: bv32, b: bv32)
    ensures Xor(a, b) == Xor(b, a)
  {
  }

  lemma XorSelf(a: bv32)
    ensures Xor(a, a) == 0 && Xor(0, a) == a
  {
  }

  lemma XorAlgebra(p: bv32, a: bv32, b: bv32)
    ensures Xor(Xor(p, a), Xor(p, b)) == Xor(a, b)
    ensures Xor(Xor(p, a), b) == Xor(p, Xor(a, b))
    ensures Xor(a, Xor(p, b)) == Xor(p, Xor(a, b))
  {
    hide Xor;
    XorAssociates(p, a, b);
    XorAssociates(a, p, b);
    XorCommutes(p, a);
    XorAssociates(Xor(p, a), p, b);
    XorAssociates(a, p, p);
    XorSelf(p);
    XorCommutes(a, 0);
    XorSelf(a);
  }

  lemma StepXor(x: bv32, y: bv32)
    ensures Step(Xor(x, y)) == Xor(Step(x), Step(y))
  {
    hide Xor, Half, Odd;
    XorHalf(x, y);
    XorAlgebra(POLY, Half(x), Half(y));
  }

  /** The register is linear over the exclusive or. */
  lemma {:induction false} StepsXor(x: bv32, y: bv32, n: nat)
    ensures Steps(Xor(x, y), n) == Xor(Steps(x, n), Steps(y, n))
  {
    hide Step, Xor;
    if n > 0 {
      StepsXor(x, y, n - 1);
      StepXor(Steps(x, n - 1), Steps(y, n - 1));
    }
  }

  function Shifted(y: bv32, n: nat): bv32 {
    if n == 0 then y else Half(Shifted(y, n - 1))
  }

  /** As long as only zeros leave, the register is only shifted. */
  lemma {:induction false} ZerosShift(y: bv32, n: nat)
    requires forall k | 0 <= k < n :: !Odd(Shifted(y, k))
    ensures Steps(y, n) == Shifted(y, n)
  {
    hide Odd, Half, Xor;
    if n > 0 {
      ZerosShift(y, n - 1);
    }
  }

  function Low(x: bv32): bv32 {
    x & 0xff
  }

  function High(x: bv32): bv32 {
    x & 0xffff_ff00
  }

  function ByteDown(x: bv32): bv32 {
    x >> 8
  }

  lemma EightHalves(y: bv32)
    ensures Half(Half(Half(Half(Half(Half(Half(Half(y)))))))) == ByteDown(y)
  {
  }

  lemma LowBitsZero(x: bv32)
    ensures !Odd(High(x)) && !Odd(Half(High(x))) && !Odd(Half(Half(High(x)))) && !Odd(Half(Half(Half(High(x)))))
  {
  }

  lemma MoreBitsZero(x: bv32)
    ensures var y := Half(Half(Half(Half(High(x)))));
            !Odd(y) && !Odd(Half(y)) && !Odd(Half(Half(y))) && !Odd(Half(Half(Half(y))))
  {
  }

  lemma ShiftedEight(y: bv32)
    ensures Shifted(y, 0) == y && Shifted(y, 1) == Half(y) && Shifted(y, 2) == Half(Half(y))
    ensures Shifted(y, 3) == Half(Half(Half(y))) && Shifted(y, 4) == Half(Half(Half(Half(y))))
    ensures Shifted(y, 5) == Half(Shifted(y, 4)) && Shifted(y, 6) == Half(Shifted(y, 5))
    ensures Shifted(y, 7) == Half(Shifted(y, 6)) && Shifted(y, 8) == Half(Shifted(y, 7))
  {
    hide Half;
  }

  lemma HighShifts(x: bv32)
    ensures forall k | 0 <= k < 8 :: !Odd(Shifted(High(x), k))
    ensures Shifted(High(x), 8) == ByteDown(High(x))
  {
    hide Odd, Half, High, ByteDown, Shifted;
    LowBitsZero(x);
    MoreBitsZero(x);
    EightHalves(High(x));
    ShiftedEight(High(x));
  }

  /** An entry of the table of section 8 of RFC 1952. */
  function Table(n: bv8): bv32 {
    Steps(Wide(n), 8)
  }

  function LowByte(x: bv32): bv8 {
    Low(x) as bv8
  }

  lemma Parts(x: bv32)
    ensures Xor(Low(x), High(x)) == x && Wide(LowByte(x)) == Low(x) && ByteDown(High(x)) == ByteDown(x)
  {
  }

  lemma ByteLeaves(c: bv32, b: bv8)
    ensures ByteDown(Xor(c, Wide(b))) == ByteDown(c)
  {
  }

  /** The table form of one byte: one lookup by the low byte, the rest shifted. */
  lemma TableForm(c: bv32, b: bv8)
    ensures FeedByte(c, b) == Xor(Table(LowByte(Xor(c, Wide(b)))), ByteDown(c))
  {
    hide Steps, Xor, Low, High, LowByte, Wide, Odd, Shifted, ByteDown;
    var x := Xor(c, Wide(b));
    Parts(x);
    ByteLeaves(c, b);
    StepsXor(Low(x), High(x), 8);
    HighShifts(x);
    ZerosShift(High(x), 8);
  }

  // ---- the polynomial in numbers -----------------------------------------------------------------

  function Double(a: bv32): bv32 {
    a << 1
  }

  /** A power of x in a register: x to the 31 is the lowest bit, 1 the highest. */
  function Power(e: nat): bv32
    requires e <= 31
    decreases 31 - e
  {
    if e == 31 then 1 else Double(Power(e + 1))
  }

  function Polynomial(exponents: seq<nat>): bv32
    requires forall i | 0 <= i < |exponents| :: exponents[i] <= 31
  {
    if exponents == [] then 0 else Xor(Power(exponents[0]), Polynomial(exponents[1..]))
  }

  lemma Powers()
    ensures Power(26) == 0x20 && Power(23) == 0x100 && Power(22) == 0x200 && Power(16) == 0x8000
    ensures Power(12) == 0x8_0000 && Power(11) == 0x10_0000 && Power(10) == 0x20_0000 && Power(8) == 0x80_0000
    ensures Power(7) == 0x100_0000 && Power(5) == 0x400_0000 && Power(4) == 0x800_0000
    ensures Power(2) == 0x2000_0000 && Power(1) == 0x4000_0000 && Power(0) == 0x8000_0000
  {
    assert Power(26) == 0x20;
    assert Power(21) == 0x400;
    assert Power(16) == 0x8000;
    assert Power(11) == 0x10_0000;
    assert Power(6) == 0x200_0000;
  }

  /** The polynomial of section 8 of RFC 1952, by its exponents, is what one step leaves of the lowest bit. */
  lemma StepOfOne()
    ensures Step(1) == Polynomial([26, 23, 22, 16, 12, 11, 10, 8, 7, 5, 4, 2, 1, 0])
  {
    hide Power;
    Powers();
  }

  lemma {:induction false} StepsAdd(c: bv32, m: nat, n: nat)
    ensures Steps(c, m + n) == Steps(Steps(c, m), n)
  {
    hide Step;
    if n > 0 {
      StepsAdd(c, m, n - 1);
    }
  }

  /** The four bytes of a register, the lowest first. */
  function Bytes(x: bv32): seq<bv8> {
    [(x & 0xff) as bv8, ((x >> 8) & 0xff) as bv8, ((x >> 16) & 0xff) as bv8, ((x >> 24) & 0xff) as bv8]
  }

  /** Feeding the low byte of a number to a register, as eight steps of their exclusive or. */
  lemma LowByteIn(c: bv32, x: bv32)
    ensures Steps(Xor(c, x), 8) == Xor(FeedByte(c, LowByte(x)), ByteDown(x))
  {
    hide Steps, Xor, Low, High, LowByte, Odd, Shifted, ByteDown;
    Parts(x);
    XorAssociates(c, Low(x), High(x));
    StepsXor(Xor(c, Low(x)), High(x), 8);
    HighShifts(x);
    ZerosShift(High(x), 8);
  }

  lemma FourBytes(x: bv32)
    ensures Bytes(x) == [LowByte(x), LowByte(ByteDown(x)), LowByte(ByteDown(ByteDown(x))),
                         LowByte(ByteDown(ByteDown(ByteDown(x))))]
    ensures ByteDown(ByteDown(ByteDown(ByteDown(x)))) == 0
  {
  }

  lemma FeedFour(c: bv32, s: seq<bv8>)
    requires |s| == 4
    ensures Feed(c, s) == FeedByte(FeedByte(FeedByte(FeedByte(c, s[0]), s[1]), s[2]), s[3])
  {
    hide FeedByte;
    var t, u, v := s[..3], s[..2], s[..1];
    assert t[..2] == u && u[..1] == v && v[..0] == [];
    assert Feed(c, v) == FeedByte(c, s[0]) by {
      assert Feed(c, []) == c;
    }
    assert Feed(c, u) == FeedByte(Feed(c, v), s[1]);
    assert Feed(c, t) == FeedByte(Feed(c, u), s[2]);
  }

  /** Feeding four bytes is 32 steps of the exclusive or of the register and their number. */
  lemma FeedBytes(c: bv32, x: bv32)
    ensures Feed(c, Bytes(x)) == Steps(Xor(c, x), 32)
  {
    hide Steps, Xor, LowByte, ByteDown, FeedByte, Bytes, Feed;
    var x1 := ByteDown(x);
    var x2 := ByteDown(x1);
    var x3 := ByteDown(x2);
    FourBytes(x);
    FeedFour(c, Bytes(x));
    var c1 := FeedByte(c, LowByte(x));
    var c2 := FeedByte(c1, LowByte(x1));
    var c3 := FeedByte(c2, LowByte(x2));
    var c4 := FeedByte(c3, LowByte(x3));
    LowByteIn(c, x);
    StepsAdd(Xor(c, x), 8, 24);
    LowByteIn(c1, x1);
    StepsAdd(Xor(c1, x1), 8, 16);
    LowByteIn(c2, x2);
    StepsAdd(Xor(c2, x2), 8, 8);
    LowByteIn(c3, x3);
    XorCommutes(c4, 0);
    XorSelf(c4);
  }

  /** The register of all ones after 32 steps. */
  lemma AllOnes()
    ensures Steps(0xffff_ffff, 32) == 0xdebb_20e3
  {
    StepsAdd(0xffff_ffff, 8, 24);
    EightSteps(0xffff_ffff);
    StepsAdd(0x2dfd1072, 8, 16);
    EightSteps(0x2dfd1072);
    StepsAdd(0xbe26ed00, 8, 8);
    EightSteps(0xbe26ed00);
    EightSteps(0xbe26ed);
  }

  lemma EightSteps(c: bv32)
    ensures Steps(c, 8) == Step(Step(Step(Step(Step(Step(Step(Step(c))))))))
  {
    hide Step;
    assert Steps(c, 1) == Step(Steps(c, 0));
    assert Steps(c, 2) == Step(Steps(c, 1));
    assert Steps(c, 4) == Step(Step(Steps(c, 2)));
    assert Steps(c, 6) == Step(Step(Steps(c, 4)));
  }

  lemma OnesCancel(r: bv32)
    ensures Xor(r, Xor(r, 0xffff_ffff)) == 0xffff_ffff
  {
  }

  /** Every message followed by the four bytes of its CRC leaves the same remainder. */
  lemma Residue(data: seq<bv8>)
    ensures Feed(0xffff_ffff, data + Bytes(Crc(data))) == 0xdebb_20e3
  {
    hide Xor, Bytes, Steps;
    FeedConcat(0xffff_ffff, data, Bytes(Crc(data)));
    FeedBytes(Feed(0xffff_ffff, data), Crc(data));
    OnesCancel(Feed(0xffff_ffff, data));
    AllOnes();
  }

  /** The CRC of the digits 1 to 9 is CBF43926. */
  lemma CheckValue()
    ensures Crc([0x31, 0x32, 0x33, 0x34, 0x35, 0x36, 0x37, 0x38, 0x39]) == 0xcbf4_3926
  {
    hide FeedByte;
    FirstDigits();
    MiddleDigits();
    LastDigits();
    var s: seq<bv8> := [0x31, 0x32, 0x33, 0x34, 0x35, 0x36, 0x37, 0x38, 0x39];
    assert s[..0] == [] && s[..9] == s;
    assert Feed(0xffff_ffff, []) == 0xffff_ffff;
    FeedNext(s, 0);
    FeedNext(s, 1);
    FeedNext(s, 2);
    FeedNext(s, 3);
    FeedNext(s, 4);
    FeedNext(s, 5);
    FeedNext(s, 6);
    FeedNext(s, 7);
    FeedNext(s, 8);
  }

  lemma FeedNext(s: seq<bv8>, k: nat)
    requires k < |s|
    ensures Feed(0xffff_ffff, s[..k + 1]) == FeedByte(Feed(0xffff_ffff, s[..k]), s[k])
  {
    hide FeedByte;
    assert s[..k + 1][..k] == s[..k];
  }

  lemma FirstDigits()
    ensures FeedByte(0xffff_ffff, 0x31) == 0x7c23_1048
    ensures FeedByte(0x7c23_1048, 0x32) == 0xb0ac_bb32
    ensures FeedByte(0xb0ac_bb32, 0x33) == 0x77b7_9c2d
  {
  }

  lemma MiddleDigits()
    ensures FeedByte(0x77b7_9c2d, 0x34) == 0x641c_1f5c
    ensures FeedByte(0x641c_1f5c, 0x35) == 0x340a_c5e3
    ensures FeedByte(0x340a_c5e3, 0x36) == 0xf68d_2c9e
  {
  }

  lemma LastDigits()
    ensures FeedByte(0xf68d_2c9e, 0x37) == 0xaffc_9660
    ensures FeedByte(0xaffc_9660, 0x38) == 0x651f_2550
    ensures FeedByte(0x651f_2550, 0x39) == 0x340b_c6d9
  {
  }

  // ---- the program -------------------------------------------------------------------------------

  /** The CRC register of the program, kept between calls. */
  class Register {
    var crc: bv32

    constructor ()
      ensures crc == 0
    {
      crc := 0;
    }

    /** feed_crc32 called to start over. */
    method Reset()
      modifies this
      ensures crc == START
    {
      crc := START;
    }

    /** feed_crc32: any piece of a message, bit by bit; the result is the CRC so far. */
    method FeedPiece(data: seq<bv8>) returns (r: bv32)
      modifies this
      ensures crc == Feed(old(crc), data)
      ensures r == Xor(crc, 0xffff_ffff)
    {
      hide MaskStep, Xor, FeedByte, Step, Wide;
      for i := 0 to |data|
        invariant crc == Feed(old(crc), data[..i])
      {
        ghost var before := crc;
        crc := Xor(crc, Wide(data[i]));
        ghost var start := crc;
        var j := 7;
        while j >= 0
          invariant -1 <= j <= 7 && crc == Steps(start, 7 - j)
        {
          MaskIsStep(crc);
          crc := MaskStep(crc);
          j := j - 1;
        }
        ByteFed(before, data[i]);
        assert data[..i + 1][..i] == data[..i];
      }
      assert data[..|data|] == data;
      r := Not(crc);
    }
  }

  lemma ByteFed(c: bv32, b: bv8)
    ensures FeedByte(c, b) == Steps(Xor(c, Wide(b)), 8)
  {
  }

  method Not(c: bv32) returns (r: bv32)
    ensures r == Xor(c, 0xffff_ffff)
  {
    r := c ^ 0xffff_ffff;
  }
}
