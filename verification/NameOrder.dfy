/**
 The order of names in characters and numbers: digits are the codes 48 to 57 and come before
 everything else, letters are 65 to 90 and 97 to 122 and their case does not count, and a number
 is the one its decimal digits spell.
 */
module NameOrder {
  import opened DirOrder

  /** A name that goes on with something that does not belong to a number before it. */
  lemma GoesOn(p: seq<letter>, a: seq<letter>, b: seq<letter>)
    requires a != [] && b != [] && !IsDigit(a[0]) && !IsDigit(b[0])
    ensures Lex(Tokens(p + a), Tokens(p + b)) == Lex(Tokens(a), Tokens(b))
  {
    hide Tokens, Lex, IsDigit;
    TokensConcat(p, a);
    TokensConcat(p, b);
    LexPrefix(Tokens(p), Tokens(a), Tokens(b));
  }

  /** Two names that agree up to a character of each which is not a digit. */
  lemma OthersDecide(p: seq<letter>, c: letter, x: seq<letter>, d: letter, y: seq<letter>)
    requires !(48 <= c <= 57) && !(48 <= d <= 57)
    ensures var v := (if 65 <= c <= 90 then c + 32 else c) - (if 65 <= d <= 90 then d + 32 else d);
            Lex(Tokens(p + [c] + x), Tokens(p + [d] + y))
            == if v < 0 then -1 else if v > 0 then 1 else Lex(Tokens(x), Tokens(y))
  {
    hide Tokens, Lex, Lower;
    var a, b := [c] + x, [d] + y;
    assert p + [c] + x == p + a && p + [d] + y == p + b && a[1..] == x && b[1..] == y;
    GoesOn(p, a, b);
    LowerIs(c);
    LowerIs(d);
    TokensLetter(a);
    TokensLetter(b);
    LexHeads(0x8000_0000 + Lower(c), Tokens(x), 0x8000_0000 + Lower(d), Tokens(y));
  }

  lemma LowerIs(c: letter)
    ensures Lower(c) == if 65 <= c <= 90 then c + 32 else c
  {
  }

  /** The case of a letter does not count. */
  lemma CaseIsIgnored(p: seq<letter>, c: letter, x: seq<letter>)
    requires 65 <= c <= 90
    ensures Lex(Tokens(p + [c] + x), Tokens(p + [c + 32] + x)) == 0
  {
    hide Tokens;
    OthersDecide(p, c, x, c + 32, x);
    LexZero(Tokens(x), Tokens(x));
  }

  /** Names that agree up to two different letters are in the order of the alphabet. */
  lemma LettersInOrder(p: seq<letter>, i: nat, big: bool, x: seq<letter>, j: nat, large: bool, y: seq<letter>)
    requires i < 26 && j < 26 && i != j
    ensures var c: letter, d: letter := (if big then 65 else 97) + i, (if large then 65 else 97) + j;
            Lex(Tokens(p + [c] + x), Tokens(p + [d] + y)) < 0 <==> i < j
  {
    hide Tokens, Lex;
    OthersDecide(p, (if big then 65 else 97) + i, x, (if large then 65 else 97) + j, y);
  }

  /** Any other two different characters are in the order of their codes. */
  lemma SignsInOrder(p: seq<letter>, c: letter, x: seq<letter>, d: letter, y: seq<letter>)
    requires !(48 <= c <= 57) && !(48 <= d <= 57) && !(65 <= c <= 90) && !(65 <= d <= 90) && c != d
    ensures Lex(Tokens(p + [c] + x), Tokens(p + [d] + y)) < 0 <==> c < d
  {
    hide Tokens, Lex;
    OthersDecide(p, c, x, d, y);
  }

  /** A number comes before every other character. */
  lemma DigitsFirst(p: seq<letter>, c: letter, x: seq<letter>, d: letter, y: seq<letter>)
    requires 48 <= c <= 57 && !(48 <= d <= 57) && (p == [] || !(48 <= p[|p| - 1] <= 57))
    ensures Lex(Tokens(p + [c] + x), Tokens(p + [d] + y)) < 0
  {
    hide Tokens, Lex;
    var a, b := [c] + x, [d] + y;
    assert p + [c] + x == p + a && p + [d] + y == p + b;
    SamePrefix(p, a, b);
    NextTokens(a, b);
  }

  // ---- numbers in names -----------------------------------------------------------------------

  /** A number in decimal digits. */
  function Spelled(n: nat): (s: seq<letter>)
    ensures s != []
  {
    if n < 10 then [48 + n] else Spelled(n / 10) + [48 + n % 10]
  }

  lemma {:induction false} SpelledIs(n: nat)
    ensures AllDigits(Spelled(n)) && Decimal(Spelled(n)) == n
  {
    hide Decimal;
    if n < 10 {
      DecimalNone();
      DecimalStep([], 48 + n);
      assert [] + [48 + n] == Spelled(n);
    } else {
      SpelledIs(n / 10);
      DecimalStep(Spelled(n / 10), 48 + n % 10);
    }
  }

  /**
   Two names that agree up to two numbers below 2147483648, with something else before and behind
   them, are in the order of the numbers.
   */
  lemma NumberedNames(p: seq<letter>, m: nat, x: seq<letter>, n: nat, y: seq<letter>)
    requires m < n < 2147483648 && (p == [] || !(48 <= p[|p| - 1] <= 57))
    requires (x == [] || !(48 <= x[0] <= 57)) && (y == [] || !(48 <= y[0] <= 57))
    ensures Lex(Tokens(p + Spelled(m) + x), Tokens(p + Spelled(n) + y)) < 0
  {
    hide Tokens, Lex, Spelled;
    var a, b := Spelled(m) + x, Spelled(n) + y;
    assert p + Spelled(m) + x == p + a && p + Spelled(n) + y == p + b;
    SamePrefix(p, a, b);
    NumberToken(m, x);
    NumberToken(n, y);
    LexHeads(m, Tokens(x), n, Tokens(y));
  }

  lemma NumberToken(n: nat, x: seq<letter>)
    requires n < 2147483648 && (x == [] || !(48 <= x[0] <= 57))
    ensures Tokens(Spelled(n) + x) == [n] + Tokens(x)
  {
    hide Tokens, Decimal, Spelled, Kept;
    SpelledIs(n);
    TokensOfRun(Spelled(n), x);
    KeptExactly(n);
  }

  // ---- entries ----------------------------------------------------------------------------------

  /** A name has any number of characters up to 85. */
  lemma LongestName(s: seq<letter>, other: Name) returns (n: Name)
    requires |s| <= 85
    ensures n == s && |other| <= 85
  {
    n := s;
  }

  /** The order of two files is that of their names, and where they differ in case only, of their codes. */
  lemma FilesByName(a: Name, b: Name)
    ensures Order(Entry(false, a), Entry(false, b))
            == if Lex(Tokens(a), Tokens(b)) != 0 then Lex(Tokens(a), Tokens(b)) else Lex(a, b)
  {
    hide Tokens, Lex, Order;
    KeyTokens(Entry(false, a), Entry(false, b));
  }

  /** "apple" comes before "Zebra", and "disk2" before "Disk10". */
  lemma SomeNames()
    ensures Order(Entry(false, [97, 112, 112, 108, 101]), Entry(false, [90, 101, 98, 114, 97])) < 0
    ensures Order(Entry(false, [100, 105, 115, 107, 50]), Entry(false, [68, 105, 115, 107, 49, 48])) < 0
  {
    hide Tokens, Lex, Order;
    var apple: Name, zebra: Name := [97, 112, 112, 108, 101], [90, 101, 98, 114, 97];
    assert apple == [] + [97] + [112, 112, 108, 101] && zebra == [] + [90] + [101, 98, 114, 97];
    LettersInOrder([], 0, false, [112, 112, 108, 101], 25, true, [101, 98, 114, 97]);
    FilesByName(apple, zebra);
    var two: Name, ten: Name := [100, 105, 115, 107, 50], [68, 105, 115, 107, 49, 48];
    var sk: seq<letter> := [105, 115, 107];
    assert two == [] + [100] + (sk + [50]) && ten == [] + [68] + (sk + [49, 48]);
    OthersDecide([], 100, sk + [50], 68, sk + [49, 48]);
    assert Spelled(2) == [50] && Spelled(10) == Spelled(1) + [48] == [49, 48];
    assert sk + [50] == sk + Spelled(2) + [] && sk + [49, 48] == sk + Spelled(10) + [];
    NumberedNames(sk, 2, [], 10, []);
    FilesByName(two, ten);
  }
}
