/**
 The order in which a directory is shown: directories first, ".." before everything, then names
 as runs of digits and letters with digits compared as numbers and letters regardless of case,
 and last the exact spelling.
 */
module DirOrder {

  const MAX_FILENAME: nat := 86
  const ULONG_MAX: nat := 0xffff_ffff
  const NUMBER_MASK: nat := 0x8000_0000

  /** A character of a terminated string. */
  type letter = x: int | 0 < x < 256 witness 1

  /** A file name that fits its buffer together with the terminator. */
  type Name = s: seq<letter> | |s| < MAX_FILENAME

  datatype Entry = Entry(dir: bool, name: Name)

  const DOT_DOT: seq<letter> := [46, 46]

  // ---- lexicographic order -----------------------------------------------------------

  function Lex(a: seq<int>, b: seq<int>): (r: int)
    ensures -1 <= r <= 1
  {
    if a == [] then (if b == [] then 0 else -1)
    else if b == [] then 1
    else if a[0] < b[0] then -1
    else if a[0] > b[0] then 1
    else Lex(a[1..], b[1..])
  }

  lemma {:induction false} LexZero(a: seq<int>, b: seq<int>)
    ensures Lex(a, b) == 0 <==> a == b
  {
    if a != [] && b != [] {
      LexZero(a[1..], b[1..]);
      assert a == [a[0]] + a[1..] && b == [b[0]] + b[1..];
    }
  }

  lemma {:induction false} LexFlip(a: seq<int>, b: seq<int>)
    ensures Lex(b, a) == -Lex(a, b)
  {
    if a != [] && b != [] {
      LexFlip(a[1..], b[1..]);
    }
  }

  lemma {:induction false} LexTransitive(a: seq<int>, b: seq<int>, c: seq<int>)
    requires Lex(a, b) < 0 && Lex(b, c) < 0
    ensures Lex(a, c) < 0
  {
    if a != [] && b != [] && c != [] && a[0] == b[0] == c[0] {
      LexTransitive(a[1..], b[1..], c[1..]);
    }
  }

  /** A common prefix does not matter. */
  lemma {:induction false} LexPrefix(p: seq<int>, a: seq<int>, b: seq<int>)
    ensures Lex(p + a, p + b) == Lex(a, b)
  {
    if p == [] {
      assert p + a == a && p + b == b;
    } else {
      assert (p + a)[1..] == p[1..] + a && (p + b)[1..] == p[1..] + b;
      LexPrefix(p[1..], a, b);
    }
  }

  /** With a low end mark, comparing concatenations compares the parts one after the other. */
  lemma {:induction false} LexPair(a: seq<int>, b: seq<int>, x: seq<int>, y: seq<int>)
    requires forall t | t in a + b :: t >= 0
    ensures Lex(a + [-1] + x, b + [-1] + y) == if Lex(a, b) != 0 then Lex(a, b) else Lex(x, y)
  {
    var l, r := a + [-1] + x, b + [-1] + y;
    if a == [] && b == [] {
      assert l[1..] == x && r[1..] == y;
    } else if a != [] && b != [] {
      assert a[0] in a + b && b[0] in a + b;
      assert l[1..] == a[1..] + [-1] + x && r[1..] == b[1..] + [-1] + y;
      forall t | t in a[1..] + b[1..]
        ensures t >= 0
      {
        assert t in a + b;
      }
      LexPair(a[1..], b[1..], x, y);
    } else if a == [] {
      assert b[0] in a + b;
    } else {
      assert a[0] in a + b;
    }
  }

  // ---- tokens of a name ----------------------------------------------------------------

  predicate IsDigit(c: int) {
    48 <= c <= 57
  }

  function Lower(c: letter): letter {
    if 65 <= c <= 90 then c + 32 else c
  }

  function DigitRun(s: seq<letter>): (k: nat)
    ensures k <= |s|
    ensures forall i | 0 <= i < k :: IsDigit(s[i])
    ensures k < |s| ==> !IsDigit(s[k])
  {
    if s == [] || !IsDigit(s[0]) then 0 else 1 + DigitRun(s[1..])
  }

  predicate AllDigits(d: seq<letter>) {
    forall i | 0 <= i < |d| :: IsDigit(d[i])
  }

  function Decimal(digits: seq<letter>): nat
    requires AllDigits(digits)
  {
    if digits == [] then 0
    else
      assert IsDigit(digits[|digits| - 1]);
      10 * Decimal(digits[..|digits| - 1]) + (digits[|digits| - 1] as int - 48)
  }

  function Saturated(v: nat): nat {
    if v > ULONG_MAX then ULONG_MAX else v
  }

  /** What the comparison keeps of a number: 32 bits, saturated, without the top one. */
  function Kept(v: nat): nat {
    Saturated(v) % NUMBER_MASK
  }

  /** Numbers, all below the letters, and letters regardless of case. */
  function Tokens(s: seq<letter>): seq<int> {
    if s == [] then []
    else if IsDigit(s[0]) then [Kept(Decimal(s[..DigitRun(s)]))] + Tokens(s[DigitRun(s)..])
    else [NUMBER_MASK + Lower(s[0])] + Tokens(s[1..])
  }

  lemma {:induction false} TokensNonNegative(s: seq<letter>)
    ensures forall t | t in Tokens(s) :: t >= 0
  {
    if s != [] && IsDigit(s[0]) {
      TokensNonNegative(s[DigitRun(s)..]);
    } else if s != [] {
      TokensNonNegative(s[1..]);
    }
  }

  /** A name that starts with a number. */
  lemma TokensDigit(s: seq<letter>)
    requires s != [] && IsDigit(s[0])
    ensures DigitRun(s) > 0
    ensures Tokens(s) == [Kept(Decimal(s[..DigitRun(s)]))] + Tokens(s[DigitRun(s)..])
  {
    hide Kept, Decimal;
  }

  lemma TokensLetter(s: seq<letter>)
    requires s != [] && !IsDigit(s[0])
    ensures Tokens(s) == [NUMBER_MASK + Lower(s[0])] + Tokens(s[1..])
  {
  }

  lemma TokensEmpty()
    ensures Tokens([]) == []
  {
  }

  /** Comparing after equal first elements, or deciding on different ones. */
  lemma LexHeads(x: int, u: seq<int>, y: int, w: seq<int>)
    ensures Lex([x] + u, [y] + w) == if x < y then -1 else if x > y then 1 else Lex(u, w)
  {
    assert ([x] + u)[1..] == u && ([y] + w)[1..] == w;
  }

  /** Numbers below 2^31 are compared as they are, larger ones are not. */
  lemma KeptExactly(v: nat)
    ensures Kept(v) == v <==> v < 2147483648
  {
  }

  /** Names are cut into tokens independently where no run of digits is cut. */
  lemma {:induction false} TokensConcat(p: seq<letter>, s: seq<letter>)
    requires p != [] && s != [] && IsDigit(p[|p| - 1]) ==> !IsDigit(s[0])
    ensures Tokens(p + s) == Tokens(p) + Tokens(s)
    decreases |p|
  {
    hide Tokens, Kept, Decimal, DigitRun, Lower;
    var q := p + s;
    if p == [] {
      assert q == s;
      TokensEmpty();
    } else if IsDigit(p[0]) {
      var k := DigitRun(p);
      RunConcat(p, s);
      TokensDigit(p);
      TokensDigit(q);
      assert q[..k] == p[..k] && q[k..] == p[k..] + s;
      TokensConcat(p[k..], s);
    } else {
      TokensLetter(p);
      TokensLetter(q);
      assert q[1..] == p[1..] + s;
      TokensConcat(p[1..], s);
    }
  }

  lemma {:induction false} RunConcat(p: seq<letter>, s: seq<letter>)
    requires p != [] && s != [] && IsDigit(p[|p| - 1]) ==> !IsDigit(s[0])
    requires p != []
    ensures DigitRun(p + s) == DigitRun(p)
  {
    assert (p + s)[1..] == p[1..] + s;
    if IsDigit(p[0]) && |p| > 1 {
      RunConcat(p[1..], s);
    } else if |p| == 1 {
      assert p[1..] + s == s;
    }
  }

  /** The digits from position k on. */
  function NumberAt(s: seq<letter>, k: nat): nat
    requires k <= |s|
  {
    Decimal(s[k..][..DigitRun(s[k..])])
  }

  /** What follows the digits from position k on. */
  function AfterNumber(s: seq<letter>, k: nat): seq<letter>
    requires k <= |s|
  {
    s[k..][DigitRun(s[k..])..]
  }

  /**
   Two names that agree up to a number in each are ordered by what is kept of the numbers, and by
   what follows the numbers where that is the same.
   */
  lemma NumbersDecide(s: seq<letter>, t: seq<letter>, k: nat)
    requires k < |s| && k < |t| && s[..k] == t[..k] && (k == 0 || !IsDigit(s[k - 1]))
    requires IsDigit(s[k]) && IsDigit(t[k])
    ensures Kept(NumberAt(s, k)) != Kept(NumberAt(t, k)) ==>
              (Lex(Tokens(s), Tokens(t)) < 0 <==> Kept(NumberAt(s, k)) < Kept(NumberAt(t, k)))
    ensures Kept(NumberAt(s, k)) == Kept(NumberAt(t, k)) ==>
              Lex(Tokens(s), Tokens(t)) == Lex(Tokens(AfterNumber(s, k)), Tokens(AfterNumber(t, k)))
  {
    hide Tokens, Kept, Decimal, Lex, DigitRun;
    var a, b := s[k..], t[k..];
    TokensDigit(a);
    TokensDigit(b);
    LexHeads(Kept(NumberAt(s, k)), Tokens(AfterNumber(s, k)), Kept(NumberAt(t, k)), Tokens(AfterNumber(t, k)));
    SamePrefix(s[..k], a, b);
    assert s == s[..k] + a && t == s[..k] + b;
  }

  /**
   The larger of two numbers keeps more, the same, or less than the smaller one: as long as both
   are below 2^31 or both from there on, the order is kept up to the saturation; across 2^31 only
   if the larger one is more than 2^31 above.
   */
  lemma KeptInOrder(v: nat, w: nat)
    requires v < w
    ensures Kept(v) < Kept(w) <==>
              if w < 2147483648 || 2147483648 <= v then v < 4294967295
              else v + 2147483648 < if w > 4294967295 then 4294967295 else w
    ensures Kept(v) == Kept(w) <==>
              if w < 2147483648 || 2147483648 <= v then v >= 4294967295
              else v + 2147483648 == if w > 4294967295 then 4294967295 else w
  {
  }

  /** The smaller of the two numbers can come first exactly under these conditions. */
  predicate NaturalFor(v: nat, w: nat, restFirst: bool)
    requires v < w
  {
    if w < 2147483648 || 2147483648 <= v then v < 4294967295 || restFirst
    else
      var most := if w > 4294967295 then 4294967295 else w;
      v + 2147483648 < most || (v + 2147483648 == most && restFirst)
  }

  /**
   Natural order, exactly: of two names that agree up to two different numbers, the one with the
   smaller number comes first if and only if the numbers are on the same side of 2^31 and not both
   saturated, or the larger one is more than 2^31 above the smaller one; where the same is kept
   of both, if and only if what follows decides so.
   */
  lemma NumbersInOrder(s: seq<letter>, t: seq<letter>, k: nat)
    requires k < |s| && k < |t| && s[..k] == t[..k] && (k == 0 || !IsDigit(s[k - 1]))
    requires IsDigit(s[k]) && IsDigit(t[k])
    requires NumberAt(s, k) < NumberAt(t, k)
    ensures Lex(Tokens(s), Tokens(t)) < 0 <==>
              NaturalFor(NumberAt(s, k), NumberAt(t, k),
                         Lex(Tokens(AfterNumber(s, k)), Tokens(AfterNumber(t, k))) < 0)
    ensures NumberAt(t, k) < 2147483648 ==> Lex(Tokens(s), Tokens(t)) < 0
  {
    hide Tokens, Kept, Decimal, Lex, DigitRun, NaturalFor, NumberAt, AfterNumber;
    NumbersDecide(s, t, k);
    NaturalIs(NumberAt(s, k), NumberAt(t, k), Lex(Tokens(AfterNumber(s, k)), Tokens(AfterNumber(t, k))) < 0);
  }

  lemma NaturalIs(v: nat, w: nat, restFirst: bool)
    requires v < w
    ensures NaturalFor(v, w, restFirst) <==> Kept(v) < Kept(w) || (Kept(v) == Kept(w) && restFirst)
    ensures w < 2147483648 ==> Kept(v) < Kept(w)
  {
    hide Kept;
    KeptInOrder(v, w);
  }

  lemma SamePrefix(p: seq<letter>, a: seq<letter>, b: seq<letter>)
    requires p == [] || !IsDigit(p[|p| - 1])
    ensures Lex(Tokens(p + a), Tokens(p + b)) == Lex(Tokens(a), Tokens(b))
  {
    hide Tokens, Lex;
    TokensConcat(p, a);
    TokensConcat(p, b);
    LexPrefix(Tokens(p), Tokens(a), Tokens(b));
  }

  lemma TokensOfRun(d: seq<letter>, x: seq<letter>)
    requires d != [] && AllDigits(d)
    requires x == [] || !IsDigit(x[0])
    ensures Tokens(d + x) == [Kept(Decimal(d))] + Tokens(x)
  {
    hide Tokens, Kept, Decimal, DigitRun;
    RunOf(d, x);
    TokensDigit(d + x);
    assert (d + x)[..|d|] == d && (d + x)[|d|..] == x;
  }

  lemma {:induction false} RunOf(d: seq<letter>, x: seq<letter>)
    requires AllDigits(d)
    requires x == [] || !IsDigit(x[0])
    ensures DigitRun(d + x) == |d|
  {
    if d == [] {
      assert d + x == x;
    } else {
      assert (d + x)[1..] == d[1..] + x;
      RunOf(d[1..], x);
    }
  }

  /** An input where natural order fails: "2147483648" comes before "1". */
  lemma LargeNumbersWrap()
    ensures Lex(Tokens(TWO_TO_31), Tokens([49])) < 0
  {
    hide Tokens, Decimal;
    var one: seq<letter> := [49];
    TwoTo31();
    DecimalStep([], 49);
    assert [] + [49] == one;
    assert Decimal([]) == 0 by {
      DecimalNone();
    }
    TokensOfRun(TWO_TO_31, []);
    TokensOfRun(one, []);
    assert TWO_TO_31 + [] == TWO_TO_31 && one + [] == one;
    assert Kept(Decimal(TWO_TO_31)) == 0 && Kept(Decimal(one)) == 1;
  }

  const TWO_TO_31: seq<letter> := [50, 49, 52, 55, 52, 56, 51, 54, 52, 56]

  lemma DecimalNone()
    ensures Decimal([]) == 0
  {
  }

  lemma TwoTo31()
    ensures AllDigits(TWO_TO_31)
    ensures Decimal(TWO_TO_31) == 2147483648
  {
    hide Decimal;
    DecimalNone();
    var d: seq<letter> := [];
    for k := 0 to 10
      invariant d == TWO_TO_31[..k]
      invariant AllDigits(d)
      invariant Decimal(d) == [0, 2, 21, 214, 2147, 21474, 214748, 2147483, 21474836, 214748364, 2147483648][k]
    {
      DecimalStep(d, TWO_TO_31[k]);
      d := d + [TWO_TO_31[k]];
    }
    assert d == TWO_TO_31;
  }

  lemma DecimalStep(d: seq<letter>, c: letter)
    requires AllDigits(d) && IsDigit(c)
    ensures AllDigits(d + [c])
    ensures Decimal(d + [c]) == 10 * Decimal(d) + (c as int - 48)
  {
    assert (d + [c])[..|d|] == d;
  }

  // ---- the order of entries --------------------------------------------------------------

  function Rank(e: Entry): int {
    if !e.dir then 2 else if e.name == DOT_DOT then 0 else 1
  }

  function Key(e: Entry): seq<int> {
    [Rank(e)] + (Tokens(e.name) + [-1] + e.name)
  }

  function Order(a: Entry, b: Entry): (r: int)
    ensures -1 <= r <= 1
  {
    Lex(Key(a), Key(b))
  }

  lemma KeyTokens(a: Entry, b: Entry)
    ensures Order(a, b) == if Rank(a) != Rank(b) then (if Rank(a) < Rank(b) then -1 else 1)
                           else if Lex(Tokens(a.name), Tokens(b.name)) != 0 then Lex(Tokens(a.name), Tokens(b.name))
                           else Lex(a.name, b.name)
  {
    hide Tokens;
    TokensNonNegative(a.name);
    TokensNonNegative(b.name);
    LexPair(Tokens(a.name), Tokens(b.name), a.name, b.name);
    assert Key(a)[1..] == Tokens(a.name) + [-1] + a.name;
    assert Key(b)[1..] == Tokens(b.name) + [-1] + b.name;
  }

  /** Entries compare equal only when they are the same; otherwise one comes first. */
  lemma OrderIsTotal(a: Entry, b: Entry)
    ensures Order(a, b) == 0 <==> a == b
    ensures Order(b, a) == -Order(a, b)
  {
    KeyTokens(a, b);
    LexFlip(Key(a), Key(b));
    LexZero(a.name, b.name);
    LexZero(Tokens(a.name), Tokens(b.name));
  }

  lemma OrderIsTransitive(a: Entry, b: Entry, c: Entry)
    requires Order(a, b) < 0 && Order(b, c) < 0
    ensures Order(a, c) < 0
  {
    LexTransitive(Key(a), Key(b), Key(c));
  }

  /** Directories come first, and ".." first of all. */
  lemma DirectoriesFirst(a: Entry, b: Entry)
    ensures a.dir && !b.dir ==> Order(a, b) < 0
    ensures a == Entry(true, [46, 46]) && b != a ==> Order(a, b) < 0
  {
    KeyTokens(a, b);
  }

  // ---- the comparisons in the program ------------------------------------------------------

  predicate SameSign(v: int, r: int) {
    (v < 0 <==> r < 0) && (v == 0 <==> r == 0)
  }

  /** The character at a position, 0 at the end. */
  function At(s: seq<letter>, i: nat): int
    requires i <= |s|
  {
    if i < |s| then s[i] else 0
  }

  /** strtoul on a run of digits: the value, or the largest one once it no longer fits. */
  method StrToUL(s: seq<letter>, from: nat) returns (acc: nat, end: nat)
    requires from < |s| && IsDigit(s[from])
    ensures end == from + DigitRun(s[from..])
    ensures acc == Saturated(Decimal(s[from..][..end - from]))
  {
    hide Decimal, DigitRun;
    var overflow := false;
    acc, end := 0, from;
    RunStart(s, from);
    while IsDigit(At(s, end))
      invariant from <= end <= |s|
      invariant DigitRun(s[from..]) == end - from + DigitRun(s[end..])
      invariant acc == Saturated(Decimal(s[from..][..end - from]))
      invariant overflow ==> Decimal(s[from..][..end - from]) > ULONG_MAX
      invariant !overflow ==> Decimal(s[from..][..end - from]) <= ULONG_MAX
      decreases |s| - end
    {
      var c := s[end] as int - 48;
      RunOn(s, from, end);
      DigitAdded(Decimal(s[from..][..end - from]), c);
      if !overflow {
        if acc > ULONG_MAX / 10 || (acc == ULONG_MAX / 10 && c > ULONG_MAX % 10) {
          overflow := true;
          acc := ULONG_MAX;
        } else {
          acc := acc * 10 + c;
        }
      }
      end := end + 1;
    }
    RunEnd(s, end);
  }

  lemma RunStart(s: seq<letter>, from: nat)
    requires from < |s|
    ensures s[from..][..0] == [] && Decimal([]) == 0
  {
  }

  /** One more digit of a run. */
  lemma RunOn(s: seq<letter>, from: nat, end: nat)
    requires from <= end < |s| && IsDigit(s[end]) && end - from <= DigitRun(s[from..])
    ensures DigitRun(s[end..]) == 1 + DigitRun(s[end + 1..])
    ensures AllDigits(s[from..][..end - from]) && AllDigits(s[from..][..end + 1 - from])
    ensures Decimal(s[from..][..end + 1 - from]) == 10 * Decimal(s[from..][..end - from]) + (s[end] as int - 48)
  {
    hide Decimal;
    assert s[end..][1..] == s[end + 1..];
    var d := s[from..][..end - from];
    assert d + [s[end]] == s[from..][..end + 1 - from];
    DecimalStep(d, s[end]);
  }

  lemma RunEnd(s: seq<letter>, end: nat)
    requires end <= |s| && !IsDigit(At(s, end))
    ensures DigitRun(s[end..]) == 0
  {
  }

  /** When another digit no longer fits. */
  lemma DigitAdded(v: nat, c: nat)
    requires c <= 9
    ensures v > ULONG_MAX ==> 10 * v + c > ULONG_MAX
    ensures v <= ULONG_MAX ==>
              (v > ULONG_MAX / 10 || (v == ULONG_MAX / 10 && c > ULONG_MAX % 10) <==> 10 * v + c > ULONG_MAX)
  {
  }

  /** The comparison where one of the names is used up. */
  lemma AtEnd(a: seq<letter>, b: seq<letter>)
    requires a == [] || b == []
    ensures SameSign(At(a, 0) - At(b, 0), Lex(Tokens(a), Tokens(b)))
  {
    hide Kept, Decimal;
    TokensEmpty();
  }

  /** The comparison where both names go on. */
  lemma NextTokens(a: seq<letter>, b: seq<letter>)
    requires a != [] && b != []
    ensures IsDigit(a[0]) && !IsDigit(b[0]) ==> Lex(Tokens(a), Tokens(b)) == -1
    ensures !IsDigit(a[0]) && IsDigit(b[0]) ==> Lex(Tokens(a), Tokens(b)) == 1
    ensures IsDigit(a[0]) && IsDigit(b[0]) ==>
              var k, l := DigitRun(a), DigitRun(b);
              var v := Kept(Decimal(a[..k])) - Kept(Decimal(b[..l]));
              k > 0 && if v == 0 then Lex(Tokens(a), Tokens(b)) == Lex(Tokens(a[k..]), Tokens(b[l..]))
                       else SameSign(v, Lex(Tokens(a), Tokens(b)))
    ensures !IsDigit(a[0]) && !IsDigit(b[0]) ==>
              var v := Lower(a[0]) - Lower(b[0]);
              if v == 0 then Lex(Tokens(a), Tokens(b)) == Lex(Tokens(a[1..]), Tokens(b[1..]))
              else SameSign(v, Lex(Tokens(a), Tokens(b)))
  {
    hide Tokens, Decimal, DigitRun, Lex;
    var x := if IsDigit(a[0]) then Kept(Decimal(a[..DigitRun(a)])) else NUMBER_MASK + Lower(a[0]);
    var y := if IsDigit(b[0]) then Kept(Decimal(b[..DigitRun(b)])) else NUMBER_MASK + Lower(b[0]);
    var u := Tokens(if IsDigit(a[0]) then a[DigitRun(a)..] else a[1..]);
    var w := Tokens(if IsDigit(b[0]) then b[DigitRun(b)..] else b[1..]);
    if IsDigit(a[0]) {
      TokensDigit(a);
    } else {
      TokensLetter(a);
    }
    if IsDigit(b[0]) {
      TokensDigit(b);
    } else {
      TokensLetter(b);
    }
    LexHeads(x, u, y, w);
  }

  /** _stricmp_logical: the sign of the result is the order of the tokens. */
  method StrICmpLogical(a: seq<letter>, b: seq<letter>) returns (v: int)
    ensures SameSign(v, Lex(Tokens(a), Tokens(b)))
  {
    hide Tokens, Decimal, DigitRun, Lex;
    var i: nat, j: nat := 0, 0;
    assert a[0..] == a && b[0..] == b;
    while true
      invariant i <= |a| && j <= |b|
      invariant Lex(Tokens(a), Tokens(b)) == Lex(Tokens(a[i..]), Tokens(b[j..]))
      decreases |a| - i
    {
      var c1, c2 := At(a, i), At(b, j);
      if c1 == 0 || c2 == 0 {
        AtEnd(a[i..], b[j..]);
        return c1 - c2;
      }
      NextTokens(a[i..], b[j..]);
      var ni, nj := i + 1, j + 1;
      if IsDigit(c1) || IsDigit(c2) {
        if IsDigit(c1) && !IsDigit(c2) {
          return -1;
        } else if !IsDigit(c1) && IsDigit(c2) {
          return 1;
        }
        var n1, n2;
        n1, ni := StrToUL(a, i);
        n2, nj := StrToUL(b, j);
        assert a[i..][ni - i..] == a[ni..] && b[j..][nj - j..] == b[nj..];
        v := n1 % NUMBER_MASK - n2 % NUMBER_MASK;
      } else {
        assert a[i..][1..] == a[ni..] && b[j..][1..] == b[nj..];
        v := Lower(c1) - Lower(c2);
      }
      if v != 0 {
        return;
      }
      i, j := ni, nj;
    }
  }

  /** _strncmp: the order of the first n characters. */
  method StrNCmp(a: seq<letter>, b: seq<letter>, n: nat) returns (v: int)
    requires n >= 1
    ensures SameSign(v, Lex(a[..if n < |a| then n else |a|], b[..if n < |b| then n else |b|]))
  {
    var left, i := n, 0;
    ghost var s, t := a[..if n < |a| then n else |a|], b[..if n < |b| then n else |b|];
    assert s[0..] == s && t[0..] == t;
    while true
      invariant left >= 1 && i + left == n && i <= |s| && i <= |t|
      invariant Lex(s, t) == Lex(s[i..], t[i..])
      decreases left
    {
      var c1, c2 := At(a, i), At(b, i);
      v := c1 - c2;
      if v != 0 || c1 == 0 {
        return;
      }
      assert s[i..][1..] == s[i + 1..] && t[i..][1..] == t[i + 1..];
      i, left := i + 1, left - 1;
      if left == 0 {
        return;
      }
    }
  }

  /** CompareDirEntries: the sign of the result is the order of the entries. */
  method Compare(a: Entry, b: Entry) returns (rc: int)
    ensures (rc < 0 <==> Order(a, b) < 0) && (rc == 0 <==> Order(a, b) == 0)
  {
    KeyTokens(a, b);
    if a.dir && !b.dir {
      return -1;
    }
    if !a.dir && b.dir {
      return 1;
    }
    rc := StrICmpLogical(a.name, b.name);
    DotDotAlone(a.name, b.name);
    if a.dir && a.name == DOT_DOT && rc != 0 {
      return -1;
    }
    if b.dir && b.name == DOT_DOT && rc != 0 {
      return 1;
    }
    if rc == 0 {
      assert a.name[..|a.name|] == a.name && b.name[..|b.name|] == b.name;
      rc := StrNCmp(a.name, b.name, MAX_FILENAME);
    }
  }

  /** No other name has the tokens of "..". */
  lemma DotDotAlone(a: seq<letter>, b: seq<letter>)
    ensures a == b ==> Lex(Tokens(a), Tokens(b)) == 0
    ensures (a == DOT_DOT || b == DOT_DOT) && Lex(Tokens(a), Tokens(b)) == 0 ==> a == b
  {
    LexZero(Tokens(a), Tokens(b));
    if Tokens(a) == Tokens(b) {
      if a == DOT_DOT {
        TokensDotDot(b);
      } else if b == DOT_DOT {
        TokensDotDot(a);
      }
    }
  }

  lemma TokensDotDot(s: seq<letter>)
    requires Tokens(s) == Tokens(DOT_DOT)
    ensures s == DOT_DOT
  {
    hide Tokens, Kept, Decimal;
    var dot := NUMBER_MASK + 46;
    assert DOT_DOT[1..] == [46] && [46][1..] == [];
    TokensLetter(DOT_DOT);
    TokensLetter([46]);
    TokensEmpty();
    assert Tokens(DOT_DOT) == [dot, dot];
    FirstTokenDot(s, [dot]);
    FirstTokenDot(s[1..], []);
    if s[2..] != [] {
      assert s[1..][1..] == s[2..];
      if IsDigit(s[2]) {
        TokensDigit(s[2..]);
      } else {
        TokensLetter(s[2..]);
      }
    }
  }

  lemma SameHead(x: int, u: seq<int>, y: int, w: seq<int>)
    requires [x] + u == [y] + w
    ensures x == y && u == w
  {
    assert ([x] + u)[0] == x && ([y] + w)[0] == y;
    assert ([x] + u)[1..] == u && ([y] + w)[1..] == w;
  }

  lemma FirstTokenDot(s: seq<letter>, rest: seq<int>)
    requires Tokens(s) == [NUMBER_MASK + 46] + rest
    ensures s != [] && s[0] == 46 && Tokens(s[1..]) == rest
  {
    hide Tokens, Decimal;
    if s == [] {
      TokensEmpty();
    } else if IsDigit(s[0]) {
      TokensDigit(s);
      SameHead(Kept(Decimal(s[..DigitRun(s)])), Tokens(s[DigitRun(s)..]), NUMBER_MASK + 46, rest);
      assert false;
    } else {
      TokensLetter(s);
      assert Tokens(s)[1..] == Tokens(s[1..]);
      assert ([NUMBER_MASK + 46] + rest)[1..] == rest;
    }
  }
}
