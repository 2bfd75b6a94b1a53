/**
 Bit strings in stream order and the numbers they stand for.  A DEFLATE stream packs its
 data elements least significant bit first, Huffman codes most significant bit first
 (section 3.1.1 of RFC 1951); both readings of one bit string are defined here.
 */
module Bits {

  type byte = x: int | 0 <= x < 256

  function Pow2(n: nat): (p: nat)
    ensures p >= 1
  {
    if n == 0 then 1 else 2 * Pow2(n - 1)
  }

  function BitValue(b: bool): (v: nat)
    ensures v < 2
  {
    if b then 1 else 0
  }

  /** The number whose least significant bit is bs[0]. */
  function Value(bs: seq<bool>): (v: nat)
    ensures v < Pow2(|bs|)
  {
    if bs == [] then 0 else BitValue(bs[0]) + 2 * Value(bs[1..])
  }

  /** The n low bits of v, least significant first. */
  function LowBits(v: nat, n: nat): (bs: seq<bool>)
    ensures |bs| == n
  {
    if n == 0 then [] else [v % 2 == 1] + LowBits(v / 2, n - 1)
  }

  /** The number whose most significant bit is bs[0]. */
  function MsbValue(bs: seq<bool>): (v: nat)
    ensures v < Pow2(|bs|)
  {
    if bs == [] then 0 else 2 * MsbValue(bs[..|bs| - 1]) + BitValue(bs[|bs| - 1])
  }

  /** The n low bits of v, most significant first. */
  function MsbBits(v: nat, n: nat): (bs: seq<bool>)
    ensures |bs| == n
  {
    if n == 0 then [] else MsbBits(v / 2, n - 1) + [v % 2 == 1]
  }

  function Zeros(n: nat): (bs: seq<bool>)
    ensures |bs| == n
  {
    seq(n, _ => false)
  }

  /** The bits of a byte string in stream order. */
  function StreamBits(bytes: seq<byte>): (bs: seq<bool>)
    ensures |bs| == 8 * |bytes|
  {
    if bytes == [] then [] else LowBits(bytes[0], 8) + StreamBits(bytes[1..])
  }

  lemma {:induction false} Pow2Add(a: nat, b: nat)
    ensures Pow2(a + b) == Pow2(a) * Pow2(b)
  {
    if a != 0 {
      Pow2Add(a - 1, b);
      DoubleProduct(Pow2(a - 1), Pow2(b));
    }
  }

  lemma SmallPowers()
    ensures Pow2(0) == 1 && Pow2(1) == 2 && Pow2(2) == 4 && Pow2(3) == 8 && Pow2(4) == 16 && Pow2(5) == 32
    ensures Pow2(6) == 64 && Pow2(7) == 128 && Pow2(8) == 256 && Pow2(9) == 512 && Pow2(10) == 1024
    ensures Pow2(11) == 2048 && Pow2(12) == 4096 && Pow2(13) == 8192
  {
    assert Pow2(4) == 16;
    assert Pow2(8) == 16 * Pow2(4);
    assert Pow2(12) == 16 * Pow2(8);
  }

  lemma Pow2Sixteen()
    ensures Pow2(16) == 65536
  {
    assert Pow2(4) == 16;
    Pow2Add(4, 4);
    Pow2Add(8, 8);
  }

  lemma {:induction false} ValueOfLowBits(v: nat, n: nat)
    requires v < Pow2(n)
    ensures Value(LowBits(v, n)) == v
  {
    if n != 0 {
      ValueOfLowBits(v / 2, n - 1);
      assert LowBits(v, n)[1..] == LowBits(v / 2, n - 1);
    }
  }

  lemma DoubleProduct(p: nat, v: nat)
    ensures 2 * (p * v) == (2 * p) * v
  {
  }

  lemma {:induction false} ValueConcat(a: seq<bool>, b: seq<bool>)
    ensures Value(a + b) == Value(a) + Pow2(|a|) * Value(b)
  {
    if a == [] {
      assert a + b == b;
    } else {
      assert (a + b)[1..] == a[1..] + b && (a + b)[0] == a[0];
      ValueConcat(a[1..], b);
      assert Value(a + b) == BitValue(a[0]) + 2 * Value(a[1..] + b);
      assert Value(a) == BitValue(a[0]) + 2 * Value(a[1..]);
      DoubleProduct(Pow2(|a| - 1), Value(b));
    }
  }

  /** Masking keeps the first k bits, shifting right drops them. */
  lemma ValueSplit(bs: seq<bool>, k: nat)
    requires k <= |bs|
    ensures Value(bs) % Pow2(k) == Value(bs[..k])
    ensures Value(bs) / Pow2(k) == Value(bs[k..])
  {
    assert bs == bs[..k] + bs[k..];
    ValueConcat(bs[..k], bs[k..]);
    DivModUnique(Value(bs), Pow2(k), Value(bs[k..]), Value(bs[..k]));
  }

  lemma DivModUnique(x: nat, d: nat, q: nat, r: nat)
    requires r < d && x == r + d * q
    ensures x / d == q && x % d == r
  {
    var q', r' := x / d, x % d;
    assert x == d * q' + r';
    assert d * (q - q') == r' - r by {
      assert d * (q - q') == d * q - d * q';
    }
    SmallMultiple(d, q - q');
  }

  lemma SmallMultiple(d: int, k: int)
    requires d > 0 && -d < d * k < d
    ensures k == 0
  {
    if k >= 1 {
      assert d * k == d + d * (k - 1);
      MulNonNegative(d, k - 1);
    } else if k <= -1 {
      assert d * k == -(d + d * (-k - 1));
      MulNonNegative(d, -k - 1);
    }
  }

  lemma MulNonNegative(a: nat, b: nat)
    ensures a * b >= 0
  {
  }

  lemma MulMonotone(a: nat, b: nat, p: nat)
    requires a <= b
    ensures a * p <= b * p
  {
    MulNonNegative(b - a, p);
    assert (b - a) * p == b * p - a * p;
  }

  lemma NextMultiple(q: nat, p: nat)
    ensures (q + 1) * p == q * p + p
  {
  }

  lemma {:induction false} ValueZeros(n: nat)
    ensures Value(Zeros(n)) == 0
  {
    if n != 0 {
      assert Zeros(n)[1..] == Zeros(n - 1);
      ValueZeros(n - 1);
    }
  }

  /** Padding a bit string with zeros at the far end does not change its number. */
  lemma ValuePadded(bs: seq<bool>, n: nat)
    ensures Value(bs + Zeros(n)) == Value(bs)
  {
    ValueConcat(bs, Zeros(n));
    ValueZeros(n);
  }

  lemma {:induction false} ValueInjective(a: seq<bool>, b: seq<bool>)
    requires |a| == |b| && Value(a) == Value(b)
    ensures a == b
  {
    if a != [] {
      ValueInjective(a[1..], b[1..]);
      assert a == [a[0]] + a[1..] && b == [b[0]] + b[1..];
    }
  }

  lemma {:induction false} MsbBitsOfValue(bs: seq<bool>)
    ensures MsbBits(MsbValue(bs), |bs|) == bs
  {
    if bs != [] {
      var init := bs[..|bs| - 1];
      MsbBitsOfValue(init);
      assert MsbValue(bs) / 2 == MsbValue(init);
      assert bs == init + [bs[|bs| - 1]];
    }
  }

  lemma {:induction false} MsbValueOfBits(v: nat, n: nat)
    requires v < Pow2(n)
    ensures MsbValue(MsbBits(v, n)) == v
  {
    if n != 0 {
      MsbValueOfBits(v / 2, n - 1);
      assert MsbBits(v, n)[..n - 1] == MsbBits(v / 2, n - 1);
    }
  }

  /** Reading fewer bits from the front divides the most-significant-first value. */
  lemma {:induction false} MsbValuePrefix(bs: seq<bool>, k: nat)
    requires k <= |bs|
    ensures MsbValue(bs[..k]) == MsbValue(bs) / Pow2(|bs| - k)
  {
    if k == |bs| {
      assert bs[..k] == bs;
    } else {
      var init := bs[..|bs| - 1];
      assert init[..k] == bs[..k];
      MsbValuePrefix(init, k);
      assert MsbValue(bs) / 2 == MsbValue(init);
      DivDiv(MsbValue(bs), 2, Pow2(|init| - k));
    }
  }

  lemma DivDiv(x: nat, a: nat, b: nat)
    requires a > 0 && b > 0
    ensures a * b > 0 && x / a / b == x / (a * b)
  {
    var y, u := x / a, x % a;
    var q, t := y / b, y % b;
    assert x == a * y + u && y == b * q + t;
    assert a * y == a * (b * q) + a * t by {
      assert y == b * q + t;
    }
    assert a * (b * q) == (a * b) * q;
    assert a * t <= a * (b - 1) by {
      MulNonNegative(a, b - 1 - t);
      assert a * (b - 1) - a * t == a * (b - 1 - t);
    }
    assert a * (b - 1) == a * b - a;
    MulNonNegative(a, t);
    DivModUnique(x, a * b, q, a * t + u);
  }

  lemma {:induction false} StreamBitsConcat(a: seq<byte>, b: seq<byte>)
    ensures StreamBits(a + b) == StreamBits(a) + StreamBits(b)
  {
    if a == [] {
      assert a + b == b;
    } else {
      assert (a + b)[1..] == a[1..] + b;
      StreamBitsConcat(a[1..], b);
    }
  }

  // ---- numbers in a file, lowest byte first ------------------------------------------------

  function Le16(file: seq<byte>, off: nat): (v: nat)
    requires off + 2 <= |file|
    ensures v < 0x1_0000
  {
    file[off] as int + 0x100 * file[off + 1] as int
  }

  function Le32(file: seq<byte>, off: nat): (v: nat)
    requires off + 4 <= |file|
    ensures v < 0x1_0000_0000
  {
    Le16(file, off) + 0x1_0000 * Le16(file, off + 2)
  }
}
