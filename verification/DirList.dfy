/**
 Sorted lists of directory entries, upwards or downwards, built by insertion and cut to the
 first few: what the bounded arrays of the directory browser are compared with.
 */
module DirList {
  import opened DirOrder

  predicate Before(up: bool, a: Entry, b: Entry) {
    if up then Order(a, b) < 0 else Order(b, a) < 0
  }

  ghost predicate Sorted(up: bool, s: seq<Entry>) {
    forall i, j | 0 <= i < j < |s| :: Before(up, s[i], s[j])
  }

  lemma BeforeTotal(up: bool, a: Entry, b: Entry)
    ensures a != b ==> Before(up, a, b) != Before(up, b, a)
    ensures a == b ==> !Before(up, a, b)
  {
    OrderIsTotal(a, b);
  }

  lemma BeforeTransitive(up: bool, a: Entry, b: Entry, c: Entry)
    requires Before(up, a, b) && Before(up, b, c)
    ensures Before(up, a, c)
  {
    hide Order;
    if up {
      OrderIsTransitive(a, b, c);
    } else {
      OrderIsTransitive(c, b, a);
    }
  }

  /** The list with an entry put at its place; an entry already there is not repeated. */
  function Insert(up: bool, s: seq<Entry>, e: Entry): seq<Entry> {
    if s == [] then [e]
    else if e == s[0] then s
    else if Before(up, e, s[0]) then [e] + s
    else [s[0]] + Insert(up, s[1..], e)
  }

  /** The sorted list of the entries of an enumeration. */
  function SortedList(up: bool, d: seq<Entry>): seq<Entry> {
    if d == [] then [] else Insert(up, SortedList(up, d[..|d| - 1]), d[|d| - 1])
  }

  function First(s: seq<Entry>, n: nat): (r: seq<Entry>)
    ensures |r| == if n < |s| then n else |s|
  {
    if n < |s| then s[..n] else s
  }

  function Select(d: seq<Entry>, keep: Entry -> bool): seq<Entry> {
    if d == [] then []
    else if keep(d[|d| - 1]) then Select(d[..|d| - 1], keep) + [d[|d| - 1]]
    else Select(d[..|d| - 1], keep)
  }

  lemma {:induction false} SelectHas(d: seq<Entry>, keep: Entry -> bool, e: Entry)
    ensures e in Select(d, keep) <==> e in d && keep(e)
  {
    if d != [] {
      SelectHas(d[..|d| - 1], keep, e);
      assert d == d[..|d| - 1] + [d[|d| - 1]];
    }
  }

  lemma {:induction false} InsertHas(up: bool, s: seq<Entry>, e: Entry, x: Entry)
    ensures x in Insert(up, s, e) <==> x == e || x in s
  {
    hide Before;
    if s != [] {
      assert s == [s[0]] + s[1..];
      InsertHas(up, s[1..], e, x);
    }
  }

  lemma {:induction false} InsertSorted(up: bool, s: seq<Entry>, e: Entry)
    requires Sorted(up, s)
    ensures Sorted(up, Insert(up, s, e))
  {
    hide Before;
    if s != [] && e != s[0] {
      BeforeTotal(up, e, s[0]);
      if Before(up, e, s[0]) {
        forall j | 0 <= j < |s|
          ensures Before(up, e, s[j])
        {
          if j > 0 {
            BeforeTransitive(up, e, s[0], s[j]);
          }
        }
      } else {
        var rest := Insert(up, s[1..], e);
        InsertSorted(up, s[1..], e);
        forall j | 0 <= j < |rest|
          ensures Before(up, s[0], rest[j])
        {
          InsertHas(up, s[1..], e, rest[j]);
        }
      }
    }
  }

  lemma {:induction false} SortedListHas(up: bool, d: seq<Entry>, x: Entry)
    ensures x in SortedList(up, d) <==> x in d
  {
    if d != [] {
      assert d == d[..|d| - 1] + [d[|d| - 1]];
      SortedListHas(up, d[..|d| - 1], x);
      InsertHas(up, SortedList(up, d[..|d| - 1]), d[|d| - 1], x);
    }
  }

  lemma {:induction false} SortedListSorted(up: bool, d: seq<Entry>)
    ensures Sorted(up, SortedList(up, d))
  {
    if d != [] {
      SortedListSorted(up, d[..|d| - 1]);
      InsertSorted(up, SortedList(up, d[..|d| - 1]), d[|d| - 1]);
    }
  }

  /** A sorted list is determined by what it holds. */
  lemma {:induction false} SortedUnique(up: bool, s: seq<Entry>, t: seq<Entry>)
    requires Sorted(up, s) && Sorted(up, t)
    requires forall e :: e in s <==> e in t
    ensures s == t
  {
    hide Before;
    assert t != [] ==> t[0] in t;
    if s != [] {
      assert s[0] in s && s[0] in t;
      var j :| 0 <= j < |t| && t[j] == s[0];
      assert t[0] in t && t[0] in s;
      var k :| 0 <= k < |s| && s[k] == t[0];
      BeforeTotal(up, s[0], t[0]);
      assert s[0] == t[0];
      BeforeTotal(up, s[0], s[0]);
      assert s == [s[0]] + s[1..] && t == [t[0]] + t[1..];
      assert s[0] !in s[1..] && t[0] !in t[1..];
      forall e
        ensures e in s[1..] <==> e in t[1..]
      {
        assert e in s <==> e == s[0] || e in s[1..];
        assert e in t <==> e == t[0] || e in t[1..];
      }
      SortedUnique(up, s[1..], t[1..]);
    }
  }

  // ---- cutting to the first few --------------------------------------------------------

  /** Keeping only the first few before an insertion loses nothing of the first few after it. */
  lemma {:induction false} FirstOfInsert(up: bool, s: seq<Entry>, e: Entry, n: nat)
    ensures First(Insert(up, First(s, n), e), n) == First(Insert(up, s, e), n)
  {
    hide Before;
    if n < |s| && n > 0 && e != s[0] && !Before(up, e, s[0]) {
      FirstOfInsert(up, s[1..], e, n - 1);
      assert First(s, n)[1..] == First(s[1..], n - 1);
      FirstOfCons(s[0], Insert(up, First(s[1..], n - 1), e), n);
      FirstOfCons(s[0], Insert(up, s[1..], e), n);
    }
  }

  lemma FirstOfCons(x: Entry, s: seq<Entry>, n: nat)
    requires n > 0
    ensures First([x] + s, n) == [x] + First(s, n - 1)
  {
  }

  /** An entry that is behind the first i entries is inserted behind them. */
  lemma {:induction false} InsertBehind(up: bool, s: seq<Entry>, e: Entry, i: nat)
    requires i <= |s| && forall k | 0 <= k < i :: Before(up, s[k], e)
    ensures Insert(up, s, e) == s[..i] + Insert(up, s[i..], e)
  {
    hide Before;
    if i == 0 {
      assert s[0..] == s;
    } else {
      BeforeTotal(up, s[0], e);
      InsertBehind(up, s[1..], e, i - 1);
      assert s[1..][i - 1..] == s[i..] && s[..i] == [s[0]] + s[1..][..i - 1];
    }
  }

  // ---- parts of one sorted list -----------------------------------------------------------

  /** The entries to be shown that are larger than a reference. */
  function Above(keep: Entry -> bool, ref: Entry): Entry -> bool {
    e => keep(e) && Before(true, ref, e)
  }

  /** The entries to be shown that are smaller than a reference. */
  function Below(keep: Entry -> bool, ref: Entry): Entry -> bool {
    e => keep(e) && Before(true, e, ref)
  }

  function Reversed(s: seq<Entry>): (r: seq<Entry>)
    ensures |r| == |s| && forall i | 0 <= i < |s| :: r[i] == s[|s| - 1 - i]
  {
    seq(|s|, i requires 0 <= i < |s| => s[|s| - 1 - i])
  }

  /** In a sorted list, position and order agree. */
  lemma SplitHas(all: seq<Entry>, p: nat, e: Entry)
    requires Sorted(true, all) && p < |all|
    ensures e in all[..p] <==> e in all && Before(true, e, all[p])
    ensures e in all[p + 1..] <==> e in all && Before(true, all[p], e)
  {
    hide Before;
    if e in all {
      var i :| 0 <= i < |all| && all[i] == e;
      BeforeTotal(true, all[p], e);
      assert i < p ==> all[..p][i] == e;
      assert i > p ==> all[p + 1..][i - p - 1] == e;
    }
    if e in all[..p] {
      var i :| 0 <= i < p && all[..p][i] == e;
      BeforeTotal(true, all[p], e);
    }
    if e in all[p + 1..] {
      var i :| 0 <= i < |all| - p - 1 && all[p + 1..][i] == e;
      assert all[p + 1 + i] == e;
      BeforeTotal(true, all[p], e);
    }
  }

  /** The entries after one of a sorted list are the sorted larger ones. */
  lemma LargerOnes(d: seq<Entry>, keep: Entry -> bool, p: nat)
    requires p < |SortedList(true, Select(d, keep))|
    ensures var all := SortedList(true, Select(d, keep));
            SortedList(true, Select(d, Above(keep, all[p]))) == all[p + 1..]
  {
    hide Before, SortedList, Select;
    var all := SortedList(true, Select(d, keep));
    var larger := Above(keep, all[p]);
    SortedListSorted(true, Select(d, keep));
    SortedListSorted(true, Select(d, larger));
    forall e
      ensures e in SortedList(true, Select(d, larger)) <==> e in all[p + 1..]
    {
      SortedListHas(true, Select(d, larger), e);
      SelectHas(d, larger, e);
      SortedListHas(true, Select(d, keep), e);
      SelectHas(d, keep, e);
      SplitHas(all, p, e);
    }
    SortedUnique(true, SortedList(true, Select(d, larger)), all[p + 1..]);
  }

  lemma ReversedSorted(s: seq<Entry>)
    requires Sorted(true, s)
    ensures Sorted(false, Reversed(s))
  {
    hide Order;
    var r := Reversed(s);
    forall i, j | 0 <= i < j < |r|
      ensures Before(false, r[i], r[j])
    {
      assert Before(true, s[|s| - 1 - j], s[|s| - 1 - i]);
    }
  }

  lemma ReversedHas(s: seq<Entry>, e: Entry)
    ensures e in Reversed(s) <==> e in s
  {
    if e in s {
      var i :| 0 <= i < |s| && s[i] == e;
      assert Reversed(s)[|s| - 1 - i] == e;
    }
  }

  /** The entries before one of a sorted list, read backwards, are the smaller ones sorted downwards. */
  lemma SmallerOnes(d: seq<Entry>, keep: Entry -> bool, p: nat)
    requires p < |SortedList(true, Select(d, keep))|
    ensures var all := SortedList(true, Select(d, keep));
            SortedList(false, Select(d, Below(keep, all[p]))) == Reversed(all[..p])
  {
    hide Before, SortedList, Select;
    var all := SortedList(true, Select(d, keep));
    var smaller := Below(keep, all[p]);
    SortedListSorted(true, Select(d, keep));
    SortedListSorted(false, Select(d, smaller));
    ReversedSorted(all[..p]);
    forall e
      ensures e in SortedList(false, Select(d, smaller)) <==> e in Reversed(all[..p])
    {
      SortedListHas(false, Select(d, smaller), e);
      SelectHas(d, smaller, e);
      SortedListHas(true, Select(d, keep), e);
      SelectHas(d, keep, e);
      SplitHas(all, p, e);
      ReversedHas(all[..p], e);
    }
    SortedUnique(false, SortedList(false, Select(d, smaller)), Reversed(all[..p]));
  }
}
