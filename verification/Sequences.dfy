/**
 Small functions on numbers and lists that several models use.
 */
module Sequences {

  function Min(a: int, b: int): int {
    if a < b then a else b
  }

  function Max(a: int, b: int): int {
    if a < b then b else a
  }

  function Repeat<T>(v: T, n: nat): (s: seq<T>)
    ensures |s| == n
  {
    seq(n, _ => v)
  }

  /** A list with a stretch replaced. */
  function Overlay<T>(s: seq<T>, at: nat, data: seq<T>): (r: seq<T>)
    requires at + |data| <= |s|
    ensures |r| == |s|
    ensures forall k | 0 <= k < |s| :: r[k] == if at <= k < at + |data| then data[k - at] else s[k]
  {
    s[..at] + data + s[at + |data|..]
  }

  lemma SliceOfSlice<T>(s: seq<T>, a: nat, b: nat, c: nat, d: nat)
    requires a <= b <= |s| && c <= d <= b - a
    ensures s[a..b][c..d] == s[a + c..a + d]
  {
    var t := s[a..b];
    forall i | 0 <= i < d - c
      ensures t[c..d][i] == s[a + c..a + d][i]
    {
      assert t[c + i] == s[a + c + i];
    }
  }
}
