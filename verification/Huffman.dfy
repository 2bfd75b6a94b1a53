/**
 Canonical Huffman codes as section 3.2.2 of RFC 1951 assigns them from code lengths, and
 the two facts every table driven decoder relies on: no code is a prefix of another, and
 when the lengths fill the code space every long enough bit string starts with a code.
 */
module Huffman {
  import opened Bits

  const MAX_CODE_LENGTH: nat := 15
  const FULL_SPACE: nat := 65536

  type CodeLength = n: nat | n <= 15

  type CodeLengths = seq<CodeLength>

  predicate Used(lens: CodeLengths, s: nat) {
    s < |lens| && lens[s] > 0
  }

  /** Number of symbols with code length l. */
  function Count(lens: CodeLengths, l: nat): (c: nat)
    ensures c <= |lens|
  {
    if lens == [] then 0
    else Count(lens[..|lens| - 1], l) + if lens[|lens| - 1] == l then 1 else 0
  }

  /** The numerically smallest code of length l; at l = 16 the Kraft total in units of 1/65536. */
  function FirstCode(lens: CodeLengths, l: nat): nat
    requires l >= 1
  {
    if l == 1 then 0 else 2 * (FirstCode(lens, l - 1) + Count(lens, l - 1))
  }

  predicate Complete(lens: CodeLengths) {
    FirstCode(lens, MAX_CODE_LENGTH + 1) == FULL_SPACE
  }

  function CodeNumber(lens: CodeLengths, s: nat): nat
    requires Used(lens, s)
  {
    FirstCode(lens, lens[s]) + Count(lens[..s], lens[s])
  }

  /** The code of symbol s in the order its bits appear in the stream. */
  function Code(lens: CodeLengths, s: nat): (c: seq<bool>)
    requires Used(lens, s)
    ensures |c| == lens[s]
  {
    MsbBits(CodeNumber(lens, s), lens[s])
  }

  lemma {:induction false} CountPrefix(lens: CodeLengths, a: nat, b: nat, l: nat)
    requires a <= b <= |lens|
    ensures Count(lens[..a], l) <= Count(lens[..b], l)
    ensures a < b && lens[a] == l ==> Count(lens[..a], l) + 1 <= Count(lens[..b], l)
  {
    if a < b {
      assert lens[..b][..b - 1] == lens[..b - 1];
      CountPrefix(lens, a, b - 1, l);
    }
  }

  /** The symbol of length l that has exactly r symbols of that length before it. */
  lemma {:induction false} NthOfLength(lens: CodeLengths, l: nat, r: nat) returns (s: nat)
    requires r < Count(lens, l)
    ensures s < |lens| && lens[s] == l && Count(lens[..s], l) == r
  {
    var init := lens[..|lens| - 1];
    if r < Count(init, l) {
      s := NthOfLength(init, l, r);
      assert init[..s] == lens[..s];
    } else {
      s := |lens| - 1;
    }
  }

  /** Codes longer than l start after all codes of length l. */
  lemma {:induction false} FirstCodeGrows(lens: CodeLengths, l: nat, m: nat)
    requires 1 <= l < m
    ensures FirstCode(lens, m) >= (FirstCode(lens, l) + Count(lens, l)) * Pow2(m - l)
  {
    var a := FirstCode(lens, l) + Count(lens, l);
    if l + 1 == m {
      assert Pow2(m - l) == 2 * Pow2(0) == 2;
      assert FirstCode(lens, m) == 2 * a;
    } else {
      FirstCodeGrows(lens, l, m - 1);
      var q := Pow2(m - 1 - l);
      assert Pow2(m - l) == 2 * q;
      ProductOfDouble(a, q);
      assert FirstCode(lens, m) == 2 * (FirstCode(lens, m - 1) + Count(lens, m - 1));
    }
  }

  lemma ProductOfDouble(a: nat, q: nat)
    ensures a * (2 * q) == 2 * (a * q)
  {
  }

  lemma CodeNumberBound(lens: CodeLengths, s: nat)
    requires Used(lens, s)
    ensures CodeNumber(lens, s) + 1 <= FirstCode(lens, lens[s]) + Count(lens, lens[s])
  {
    assert lens[..|lens|] == lens;
    CountPrefix(lens, s, |lens|, lens[s]);
  }

  /** In a complete code every code number fits its length. */
  lemma CodeFits(lens: CodeLengths, s: nat)
    requires Complete(lens) && Used(lens, s)
    ensures CodeNumber(lens, s) < Pow2(lens[s])
    ensures MsbValue(Code(lens, s)) == CodeNumber(lens, s)
  {
    var l := lens[s];
    CodeNumberBound(lens, s);
    FirstCodeGrows(lens, l, 16);
    Pow2Add(l, 16 - l);
    Pow2Sixteen();
    CancelFactor(FirstCode(lens, l) + Count(lens, l), Pow2(l), Pow2(16 - l));
    MsbValueOfBits(CodeNumber(lens, s), l);
  }

  lemma CancelFactor(a: nat, b: nat, p: nat)
    requires p > 0 && a * p <= b * p
    ensures a <= b
  {
    if a > b {
      MulMonotone(b + 1, a, p);
      NextMultiple(b, p);
      assert false;
    }
  }

  /** No code of a complete set is a prefix of another one. */
  lemma PrefixFree(lens: CodeLengths, s: nat, t: nat)
    requires Complete(lens) && Used(lens, s) && Used(lens, t)
    requires Code(lens, s) <= Code(lens, t)
    ensures s == t
  {
    hide Complete, Code, CodeNumber, FirstCode, Count, MsbValue, Pow2;
    CodeFits(lens, s);
    CodeFits(lens, t);
    if lens[s] == lens[t] {
      assert Code(lens, s) == Code(lens, t);
      SameLengthCodesDiffer(lens, s, t);
    } else {
      assert Code(lens, t)[..lens[s]] == Code(lens, s);
      MsbValuePrefix(Code(lens, t), lens[s]);
      LongerCodesAreLater(lens, s, t);
    }
  }

  lemma SameLengthCodesDiffer(lens: CodeLengths, s: nat, t: nat)
    requires Used(lens, s) && Used(lens, t) && lens[s] == lens[t]
    requires CodeNumber(lens, s) == CodeNumber(lens, t)
    ensures s == t
  {
    if s < t {
      CountPrefix(lens, s, t, lens[s]);
    } else if t < s {
      CountPrefix(lens, t, s, lens[s]);
    }
  }

  lemma LongerCodesAreLater(lens: CodeLengths, s: nat, t: nat)
    requires Used(lens, s) && Used(lens, t) && lens[s] < lens[t]
    ensures CodeNumber(lens, t) / Pow2(lens[t] - lens[s]) >= CodeNumber(lens, s) + 1
  {
    var p := Pow2(lens[t] - lens[s]);
    FirstCodeGrows(lens, lens[s], lens[t]);
    CodeNumberBound(lens, s);
    MulMonotone(CodeNumber(lens, s) + 1, FirstCode(lens, lens[s]) + Count(lens, lens[s]), p);
    DivAtLeast(CodeNumber(lens, t), CodeNumber(lens, s) + 1, p);
  }

  lemma DivAtLeast(x: nat, lo: nat, p: nat)
    requires p > 0 && lo * p <= x
    ensures lo <= x / p
  {
    var q := x / p;
    assert x == q * p + x % p;
    if q < lo {
      MulMonotone(q + 1, lo, p);
      NextMultiple(q, p);
      assert false;
    }
  }

  /** Where the codes of length l begin when all codes are extended to 16 bits. */
  function BlockStart(lens: CodeLengths, l: nat): nat
    requires 1 <= l <= 16
  {
    FirstCode(lens, l) * Pow2(16 - l)
  }

  lemma BlocksAbut(lens: CodeLengths, l: nat)
    requires 1 <= l <= 15
    ensures BlockStart(lens, l + 1) == (FirstCode(lens, l) + Count(lens, l)) * Pow2(16 - l)
  {
    var q, end := Pow2(15 - l), FirstCode(lens, l) + Count(lens, l);
    assert Pow2(16 - l) == 2 * q;
    assert FirstCode(lens, l + 1) == 2 * end;
    ProductOfDouble(end, q);
    ProductOfDouble(q, end);
  }

  lemma LastBlockEnd(lens: CodeLengths)
    requires Complete(lens)
    ensures BlockStart(lens, 16) == FULL_SPACE
  {
    assert Pow2(0) == 1;
  }

  /** The length of the code block that the 16-bit window value x falls into. */
  lemma {:induction false} FindBlock(lens: CodeLengths, x: nat, l: nat) returns (m: nat)
    requires Complete(lens) && x < FULL_SPACE && 1 <= l <= 15 && BlockStart(lens, l) <= x
    ensures 1 <= m <= 15 && BlockStart(lens, m) <= x < BlockStart(lens, m + 1)
    decreases 15 - l
  {
    LastBlockEnd(lens);
    if l == 15 || x < BlockStart(lens, l + 1) {
      m := l;
    } else {
      m := FindBlock(lens, x, l + 1);
    }
  }

  lemma DivTimes(x: nat, p: nat)
    requires p > 0
    ensures x / p * p <= x
  {
  }

  lemma DivBetween(x: nat, lo: nat, hi: nat, p: nat)
    requires p > 0 && lo * p <= x < hi * p
    ensures lo <= x / p < hi
  {
    DivAtLeast(x, lo, p);
    var q := x / p;
    if q >= hi {
      MulMonotone(hi, q, p);
      DivTimes(x, p);
      assert false;
    }
  }

  /** Every bit string of at least 15 bits starts with exactly one code of a complete set. */
  lemma Covering(lens: CodeLengths, bits: seq<bool>) returns (s: nat)
    requires Complete(lens) && |bits| >= MAX_CODE_LENGTH
    ensures Used(lens, s) && Code(lens, s) <= bits
  {
    var w := bits[..15] + [false];
    var l := BlockOf(lens, w);
    var n := MsbValue(w[..l]);
    s := NthOfLength(lens, l, n - FirstCode(lens, l));
    MsbBitsOfValue(w[..l]);
    assert w[..l] == bits[..l];
  }

  /** The length of the code a window of 16 bits starts with. */
  lemma BlockOf(lens: CodeLengths, w: seq<bool>) returns (l: nat)
    requires Complete(lens) && |w| == 16
    ensures 1 <= l <= 15 && FirstCode(lens, l) <= MsbValue(w[..l]) < FirstCode(lens, l) + Count(lens, l)
  {
    hide FirstCode, Count, Pow2, MsbValue;
    Pow2Sixteen();
    StartAtZero(lens);
    l := FindBlock(lens, MsbValue(w), 1);
    BlocksAbut(lens, l);
    MsbValuePrefix(w, l);
    DivBetween(MsbValue(w), FirstCode(lens, l), FirstCode(lens, l) + Count(lens, l), Pow2(16 - l));
  }

  lemma StartAtZero(lens: CodeLengths)
    ensures BlockStart(lens, 1) == 0
  {
  }
}
