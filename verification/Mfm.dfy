/**
 MFM bytes as the floppy driver makes and reads them: data bits at the even positions (mask 55),
 clock bits between them (mask AA), a data byte split into its odd and its even bits, and
 checksums that are exclusive ors over every fourth byte.
 */
module Mfm {
  type octet = bv8

  function Decode(odd: octet, even: octet): octet {
    ((odd & 0x55) << 1) | (even & 0x55)
  }

  /** MFMEncode: the even bits of a byte with clock bits, given the byte before it. */
  function Encode(d: octet, l: octet): octet {
    var r := d & 0x55;
    var r1 := if r & 0x01 == 0 && r & 0x04 == 0 then r | 0x02 else r;
    var r2 := if r1 & 0x04 == 0 && r1 & 0x10 == 0 then r1 | 0x08 else r1;
    var r3 := if r2 & 0x10 == 0 && r2 & 0x40 == 0 then r2 | 0x20 else r2;
    if r3 & 0x40 == 0 && l & 0x01 == 0 then r3 | 0x80 else r3
  }

  /** The clock bits carry no data. */
  lemma EncodeKeepsData(d: octet, l: octet)
    ensures Encode(d, l) & 0x55 == d & 0x55
  {
  }

  /** Encoded bytes never have two ones in a row, not even across their border. */
  lemma EncodeSpacesOnes(d: octet, l: octet)
    ensures Encode(d, l) & (Encode(d, l) >> 1) == 0
    ensures l & 0x01 != 0 ==> Encode(d, l) & 0x80 == 0
  {
  }

  /** Two encoded bytes in a row never have four zeros in a row. */
  lemma EncodeSpacesZeros(d0: octet, l0: octet, d: octet)
    ensures var l := Encode(d0, l0);
            var w := ((l as bv16) << 8) | (Encode(d, l) as bv16);
            (w | (w << 1) | (w << 2) | (w << 3)) & 0xfff8 == 0xfff8
  {
  }

  /** Splitting a byte into odd and even bits and putting them together again. */
  lemma HalvesDecode(b: octet)
    ensures Decode((b >> 1) | 0xaa, b | 0xaa) == b
  {
  }

  lemma EncodedHalvesDecode(b: octet, x: octet, y: octet)
    requires x & 0x55 == (b >> 1) & 0x55 && y & 0x55 == b & 0x55
    ensures Decode(x, y) == b
  {
  }

  function Xor(a: octet, b: octet): octet {
    a ^ b
  }

  // ---- checksums ---------------------------------------------------------------------------

  /** The exclusive or of n bytes four apart. */
  function Lane(s: seq<octet>, from: nat, n: nat): octet
    requires n > 0 ==> from + 4 * (n - 1) < |s|
  {
    if n == 0 then 0 else Xor(Lane(s, from, n - 1), s[from + 4 * (n - 1)])
  }

  /** Changing a byte changes the checksum of its lane by the same bits, */
  lemma {:induction false} LaneFlipIn(s: seq<octet>, from: nat, n: nat, j: nat, m: octet)
    requires j < n && from + 4 * (n - 1) < |s|
    ensures Lane(s[from + 4 * j := Xor(s[from + 4 * j], m)], from, n) == Xor(Lane(s, from, n), m)
  {
    hide Xor;
    var last := from + 4 * (n - 1);
    if j == n - 1 {
      LaneFlipOut(s, from, n - 1, last, m);
    } else {
      LaneFlipIn(s, from, n - 1, j, m);
    }
    XorMoves(Lane(s, from, n - 1), s[last], m);
  }

  /** and no other checksum. */
  lemma {:induction false} LaneFlipOut(s: seq<octet>, from: nat, n: nat, k: nat, m: octet)
    requires k < |s| && (n > 0 ==> from + 4 * (n - 1) < |s|)
    requires forall j | 0 <= j < n :: from + 4 * j != k
    ensures Lane(s[k := Xor(s[k], m)], from, n) == Lane(s, from, n)
  {
    hide Xor;
    if n > 0 {
      assert from + 4 * (n - 1) != k;
      LaneFlipOut(s, from, n - 1, k, m);
    }
  }

  lemma XorMoves(a: octet, b: octet, m: octet)
    ensures Xor(a, Xor(b, m)) == Xor(Xor(a, b), m)
    ensures Xor(Xor(a, m), b) == Xor(Xor(a, b), m)
  {
  }

  /** A checksum over two stretches. */
  lemma {:induction false} LaneSplit(s: seq<octet>, from: nat, m: nat, n: nat)
    requires m + n > 0 ==> from + 4 * (m + n - 1) < |s|
    ensures m > 0 ==> from + 4 * (m - 1) < |s|
    ensures n > 0 ==> from + 4 * m + 4 * (n - 1) < |s|
    ensures Lane(s, from, m + n) == Xor(Lane(s, from, m), Lane(s, from + 4 * m, n))
  {
    hide Xor;
    if n > 0 {
      LaneSplit(s, from, m, n - 1);
      XorAssociates(Lane(s, from, m), Lane(s, from + 4 * m, n - 1), s[from + 4 * (m + n - 1)]);
    } else {
      XorZero(Lane(s, from, m));
    }
  }

  lemma XorAssociates(a: octet, b: octet, c: octet)
    ensures Xor(Xor(a, b), c) == Xor(a, Xor(b, c))
  {
  }

  lemma XorZero(a: octet)
    ensures Xor(a, 0) == a
  {
  }

  /** The checksum of the data bits depends on the data bits only. */
  lemma {:induction false} LaneOfData(s: seq<octet>, t: seq<octet>, from: nat, to: nat, n: nat)
    requires n > 0 ==> from + 4 * (n - 1) < |s| && to + 4 * (n - 1) < |t|
    requires forall j | 0 <= j < n :: s[from + 4 * j] & 0x55 == t[to + 4 * j] & 0x55
    ensures Lane(s, from, n) & 0x55 == Lane(t, to, n) & 0x55
  {
    hide Xor;
    if n > 0 {
      LaneOfData(s, t, from, to, n - 1);
      assert s[from + 4 * (n - 1)] & 0x55 == t[to + 4 * (n - 1)] & 0x55;
      MaskXor(Lane(s, from, n - 1), s[from + 4 * (n - 1)], Lane(t, to, n - 1), t[to + 4 * (n - 1)]);
    }
  }

  lemma MaskXor(a: octet, b: octet, c: octet, d: octet)
    requires a & 0x55 == c & 0x55 && b & 0x55 == d & 0x55
    ensures Xor(a, b) & 0x55 == Xor(c, d) & 0x55
  {
  }

  /** One bit. */
  predicate Single(m: octet) {
    m == 0x01 || m == 0x02 || m == 0x04 || m == 0x08 || m == 0x10 || m == 0x20 || m == 0x40 || m == 0x80
  }

  lemma DataBitShows(a: octet, m: octet)
    requires Single(m)
    ensures Xor(a, m) & 0x55 == a & 0x55 <==> m & 0x55 == 0
  {
  }

  /** A flipped data bit changes what is decoded, a flipped clock bit does not. */
  lemma FlipDecodes(a: octet, m: octet, x: octet)
    requires Single(m)
    ensures Decode(Xor(a, m), x) == Decode(a, x) <==> m & 0x55 == 0
    ensures Decode(x, Xor(a, m)) == Decode(x, a) <==> m & 0x55 == 0
  {
  }
}
