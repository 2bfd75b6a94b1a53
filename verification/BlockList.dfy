/**
 Address-ordered lists of memory blocks, in units of one allocator header, as values: what
 freeing and splitting do to the list, to the set of addresses it covers and to its total.
 */
module BlockList {

  datatype Block = Block(addr: int, n: nat)

  predicate Covers(b: Block, u: int) {
    b.addr <= u < b.addr + b.n
  }

  /** Address u belongs to one of the blocks. */
  ghost predicate Held(bs: seq<Block>, u: int) {
    exists i :: 0 <= i < |bs| && Covers(bs[i], u)
  }

  function Total(bs: seq<Block>): nat {
    if bs == [] then 0 else Total(bs[..|bs| - 1]) + bs[|bs| - 1].n
  }

  predicate Below(a: Block, b: Block) {
    a.addr + a.n < b.addr
  }

  /** Strictly ascending, with at least one foreign unit between neighbours. */
  ghost predicate Tidy(bs: seq<Block>) {
    forall i, j | 0 <= i < j < |bs| :: Below(bs[i], bs[j])
  }

  lemma {:induction false} TotalConcat(a: seq<Block>, b: seq<Block>)
    ensures Total(a + b) == Total(a) + Total(b)
  {
    if b == [] {
      assert a + b == a;
    } else {
      assert (a + b)[..|a + b| - 1] == a + b[..|b| - 1];
      TotalConcat(a, b[..|b| - 1]);
    }
  }

  lemma TotalOne(b: Block)
    ensures Total([b]) == b.n
  {
    assert [b][..0] == [];
  }

  // ---- replacing a stretch of the list by at most one block ---------------------

  function Splice(bs: seq<Block>, lo: nat, hi: nat, mid: seq<Block>): seq<Block>
    requires lo <= hi <= |bs| && |mid| <= 1
  {
    bs[..lo] + mid + bs[hi..]
  }

  /** Where element k of the spliced list comes from. */
  lemma SpliceAt(bs: seq<Block>, lo: nat, hi: nat, mid: seq<Block>, k: nat)
    requires lo <= hi <= |bs| && |mid| <= 1
    requires k < |Splice(bs, lo, hi, mid)|
    ensures k < lo ==> Splice(bs, lo, hi, mid)[k] == bs[k]
    ensures lo <= k < lo + |mid| ==> Splice(bs, lo, hi, mid)[k] == mid[0]
    ensures k >= lo + |mid| ==> Splice(bs, lo, hi, mid)[k] == bs[k - |mid| - lo + hi]
  {
  }

  lemma SpliceTidy(bs: seq<Block>, lo: nat, hi: nat, mid: seq<Block>)
    requires Tidy(bs) && lo <= hi <= |bs| && |mid| <= 1
    requires |mid| == 1 ==> forall i | 0 <= i < lo :: Below(bs[i], mid[0])
    requires |mid| == 1 ==> forall i | hi <= i < |bs| :: Below(mid[0], bs[i])
    ensures Tidy(Splice(bs, lo, hi, mid))
  {
    var r := Splice(bs, lo, hi, mid);
    forall i, j | 0 <= i < j < |r|
      ensures Below(r[i], r[j])
    {
      SpliceAt(bs, lo, hi, mid, i);
      SpliceAt(bs, lo, hi, mid, j);
    }
  }

  /** Address u belongs to a block outside positions lo to hi - 1. */
  ghost predicate HeldOutside(bs: seq<Block>, lo: nat, hi: nat, u: int) {
    exists i :: 0 <= i < |bs| && !(lo <= i < hi) && Covers(bs[i], u)
  }

  lemma SpliceHolds(bs: seq<Block>, lo: nat, hi: nat, mid: seq<Block>, u: int)
    requires lo <= hi <= |bs| && |mid| <= 1
    ensures Held(Splice(bs, lo, hi, mid), u)
            <==> HeldOutside(bs, lo, hi, u) || (|mid| == 1 && Covers(mid[0], u))
  {
    var r := Splice(bs, lo, hi, mid);
    if Held(r, u) {
      var k :| 0 <= k < |r| && Covers(r[k], u);
      SpliceAt(bs, lo, hi, mid, k);
    }
    if HeldOutside(bs, lo, hi, u) {
      var i :| 0 <= i < |bs| && !(lo <= i < hi) && Covers(bs[i], u);
      var k := if i < lo then i else i - hi + lo + |mid|;
      SpliceAt(bs, lo, hi, mid, k);
      assert Covers(r[k], u);
    }
    if |mid| == 1 && Covers(mid[0], u) {
      SpliceAt(bs, lo, hi, mid, lo);
      assert Covers(r[lo], u);
    }
  }

  lemma SpliceTotal(bs: seq<Block>, lo: nat, hi: nat, mid: seq<Block>)
    requires lo <= hi <= |bs| && |mid| <= 1
    ensures Total(Splice(bs, lo, hi, mid)) == Total(bs) - Total(bs[lo..hi]) + Total(mid)
  {
    hide Total;
    TotalConcat(bs[..lo] + mid, bs[hi..]);
    TotalConcat(bs[..lo], mid);
    TotalConcat(bs[..lo] + bs[lo..hi], bs[hi..]);
    TotalConcat(bs[..lo], bs[lo..hi]);
    assert bs == bs[..lo] + bs[lo..hi] + bs[hi..];
  }

  // ---- freeing ----------------------------------------------------------------

  /** b goes between positions j - 1 and j, overlapping neither. */
  ghost predicate Slot(bs: seq<Block>, j: nat, b: Block) {
    && j <= |bs|
    && (forall i | 0 <= i < j :: bs[i].addr + bs[i].n <= b.addr && bs[i].addr < b.addr)
    && (forall i | j <= i < |bs| :: b.addr + b.n <= bs[i].addr)
  }

  predicate JoinsRight(bs: seq<Block>, j: nat, b: Block)
    requires j <= |bs|
  {
    j < |bs| && b.addr + b.n == bs[j].addr
  }

  predicate JoinsLeft(bs: seq<Block>, j: nat, b: Block)
    requires j <= |bs|
  {
    j > 0 && bs[j - 1].addr + bs[j - 1].n == b.addr
  }

  /** b together with the neighbours it touches. */
  function Joined(bs: seq<Block>, j: nat, b: Block): Block
    requires j <= |bs|
  {
    var n := b.n + (if JoinsRight(bs, j, b) then bs[j].n else 0);
    if JoinsLeft(bs, j, b) then Block(bs[j - 1].addr, bs[j - 1].n + n) else Block(b.addr, n)
  }

  /** The list after b is returned to position j, joined with its neighbours where they touch. */
  function Insert(bs: seq<Block>, j: nat, b: Block): seq<Block>
    requires j <= |bs|
  {
    Splice(bs, if JoinsLeft(bs, j, b) then j - 1 else j, if JoinsRight(bs, j, b) then j + 1 else j, [Joined(bs, j, b)])
  }

  lemma InsertTidy(bs: seq<Block>, j: nat, b: Block)
    requires Tidy(bs) && Slot(bs, j, b) && b.n > 0
    ensures Tidy(Insert(bs, j, b))
  {
    var lo := if JoinsLeft(bs, j, b) then j - 1 else j;
    var hi := if JoinsRight(bs, j, b) then j + 1 else j;
    var m := Joined(bs, j, b);
    forall i | 0 <= i < lo
      ensures Below(bs[i], m)
    {
      assert i < j - 1 ==> Below(bs[i], bs[j - 1]);
    }
    forall i | hi <= i < |bs|
      ensures Below(m, bs[i])
    {
      assert i > j ==> Below(bs[j], bs[i]);
    }
    SpliceTidy(bs, lo, hi, [m]);
  }

  lemma InsertHolds(bs: seq<Block>, j: nat, b: Block, u: int)
    requires Slot(bs, j, b)
    ensures Held(Insert(bs, j, b), u) <==> Held(bs, u) || Covers(b, u)
  {
    var lo := if JoinsLeft(bs, j, b) then j - 1 else j;
    var hi := if JoinsRight(bs, j, b) then j + 1 else j;
    SpliceHolds(bs, lo, hi, [Joined(bs, j, b)], u);
    if HeldOutside(bs, lo, hi, u) {
      assert Held(bs, u);
    }
    if Held(bs, u) {
      var i :| 0 <= i < |bs| && Covers(bs[i], u);
      assert !(lo <= i < hi) ==> HeldOutside(bs, lo, hi, u);
    }
    if Covers(Joined(bs, j, b), u) && !Covers(b, u) {
      assert u < b.addr ==> Covers(bs[j - 1], u);
      assert u >= b.addr ==> Covers(bs[j], u);
    }
  }

  lemma InsertTotal(bs: seq<Block>, j: nat, b: Block)
    requires j <= |bs|
    ensures Total(Insert(bs, j, b)) == Total(bs) + b.n
  {
    hide Total, Splice;
    var lo := if JoinsLeft(bs, j, b) then j - 1 else j;
    var hi := if JoinsRight(bs, j, b) then j + 1 else j;
    SpliceTotal(bs, lo, hi, [Joined(bs, j, b)]);
    TotalOne(Joined(bs, j, b));
    TotalShort(bs, lo, j);
    TotalShort(bs, j, hi);
    TotalConcat(bs[lo..j], bs[j..hi]);
    assert bs[lo..hi] == bs[lo..j] + bs[j..hi];
  }

  lemma TotalShort(bs: seq<Block>, i: nat, k: nat)
    requires i <= k <= |bs| && k - i <= 1
    ensures Total(bs[i..k]) == if i < k then bs[i].n else 0
  {
    if i < k {
      assert bs[i..k] == [bs[i]];
      TotalOne(bs[i]);
    }
  }

  // ---- taking -----------------------------------------------------------------

  /** The last n units of block i. */
  function Tail(bs: seq<Block>, i: nat, n: nat): Block
    requires i < |bs| && n <= bs[i].n
  {
    Block(bs[i].addr + bs[i].n - n, n)
  }

  /** What is left of block i. */
  function Rest(bs: seq<Block>, i: nat, n: nat): seq<Block>
    requires i < |bs| && n <= bs[i].n
  {
    if bs[i].n == n then [] else [Block(bs[i].addr, bs[i].n - n)]
  }

  /** The list without the last n units of block i. */
  function Take(bs: seq<Block>, i: nat, n: nat): seq<Block>
    requires i < |bs| && n <= bs[i].n
  {
    Splice(bs, i, i + 1, Rest(bs, i, n))
  }

  lemma TakeTidy(bs: seq<Block>, i: nat, n: nat)
    requires Tidy(bs) && i < |bs| && n <= bs[i].n
    ensures Tidy(Take(bs, i, n))
  {
    var rest := Rest(bs, i, n);
    if |rest| == 1 {
      forall k | 0 <= k < i
        ensures Below(bs[k], rest[0])
      {
        assert Below(bs[k], bs[i]);
      }
      forall k | i + 1 <= k < |bs|
        ensures Below(rest[0], bs[k])
      {
        assert Below(bs[i], bs[k]);
      }
    }
    SpliceTidy(bs, i, i + 1, rest);
  }

  /** Taking splits what the list holds into the taken block and the rest. */
  lemma TakeHolds(bs: seq<Block>, i: nat, n: nat, u: int)
    requires Tidy(bs) && i < |bs| && n <= bs[i].n
    ensures Held(bs, u) <==> Held(Take(bs, i, n), u) || Covers(Tail(bs, i, n), u)
    ensures !(Held(Take(bs, i, n), u) && Covers(Tail(bs, i, n), u))
  {
    SpliceHolds(bs, i, i + 1, Rest(bs, i, n), u);
    if Held(bs, u) {
      var k :| 0 <= k < |bs| && Covers(bs[k], u);
      assert k != i ==> HeldOutside(bs, i, i + 1, u);
    }
    if HeldOutside(bs, i, i + 1, u) {
      assert Held(bs, u);
      var k :| 0 <= k < |bs| && k != i && Covers(bs[k], u);
      assert if k < i then Below(bs[k], bs[i]) else Below(bs[i], bs[k]);
    }
    if Covers(bs[i], u) {
      assert Held(bs, u);
    }
  }

  lemma TakeTotal(bs: seq<Block>, i: nat, n: nat)
    requires i < |bs| && n <= bs[i].n
    ensures Total(Take(bs, i, n)) == Total(bs) - n
  {
    SpliceTotal(bs, i, i + 1, Rest(bs, i, n));
    TotalShort(bs, i, i + 1);
    TotalOne(Block(bs[i].addr, bs[i].n - n));
  }

  // ---- complete lists -----------------------------------------------------------

  /** b is a maximal run of owned addresses. */
  ghost predicate MaximalRun(owned: set<int>, b: Block) {
    && b.n > 0
    && b.addr - 1 !in owned
    && b.addr + b.n !in owned
    && forall u | Covers(b, u) :: u in owned
  }

  /** A tidy list that holds exactly the owned addresses has one block per maximal run. */
  lemma TidyBlocksAreMaximal(bs: seq<Block>, owned: set<int>, i: nat)
    requires Tidy(bs) && i < |bs| && bs[i].n > 0
    requires forall u :: u in owned <==> Held(bs, u)
    ensures MaximalRun(owned, bs[i])
  {
    forall j | 0 <= j < |bs|
      ensures !Covers(bs[j], bs[i].addr - 1) && !Covers(bs[j], bs[i].addr + bs[i].n)
    {
      assert j < i ==> Below(bs[j], bs[i]);
      assert i < j ==> Below(bs[i], bs[j]);
    }
    assert !Held(bs, bs[i].addr - 1) && !Held(bs, bs[i].addr + bs[i].n);
    forall u | Covers(bs[i], u)
      ensures u in owned
    {
      assert Held(bs, u);
    }
  }
}
