/**
 The free blocks of an allocator as they lie in memory: each block starts with a header that
 points to the next block, the last one back to the first. What the pointer updates of freeing
 and allocating make of the block list.
 */
module FreeRing {
  import opened BlockList

  datatype Ptr = Null | At(addr: int)

  datatype Header = Header(next: Ptr, num: nat)

  type Memory = map<int, Header>

  function Next(bs: seq<Block>, i: nat): (k: nat)
    requires i < |bs|
    ensures k < |bs|
  {
    if i + 1 == |bs| then 0 else i + 1
  }

  predicate HeaderOf(mem: Memory, bs: seq<Block>, i: nat)
    requires i < |bs|
  {
    bs[i].addr in mem && mem[bs[i].addr] == Header(At(bs[Next(bs, i)].addr), bs[i].n)
  }

  /** The headers in memory spell out exactly the circular list bs. */
  ghost predicate Linked(mem: Memory, bs: seq<Block>) {
    |bs| > 0 && forall i | 0 <= i < |bs| :: HeaderOf(mem, bs, i)
  }

  // ---- searching ----------------------------------------------------------------

  /** The number of leading blocks that start below address a. */
  function Rank(bs: seq<Block>, a: int): (j: nat)
    ensures j <= |bs|
    ensures forall i | 0 <= i < j :: bs[i].addr < a
    ensures j < |bs| ==> bs[j].addr >= a
  {
    if bs == [] || bs[0].addr >= a then 0 else 1 + Rank(bs[1..], a)
  }

  /** A block that shares no address with the list, nor with its empty root, has a slot. */
  lemma RankIsSlot(bs: seq<Block>, b: Block, root: int)
    requires Tidy(bs) && b.n > 0 && !Covers(b, root)
    requires forall i | 0 <= i < |bs| :: bs[i].n == 0 ==> bs[i].addr == root
    requires forall u | Covers(b, u) :: !Held(bs, u)
    ensures Slot(bs, Rank(bs, b.addr), b)
  {
    var j := Rank(bs, b.addr);
    assert Covers(b, b.addr);
    forall i | 0 <= i < |bs|
      ensures i < j ==> bs[i].addr + bs[i].n <= b.addr && bs[i].addr < b.addr
      ensures j <= i ==> b.addr + b.n <= bs[i].addr
    {
      assert i > j && j < |bs| ==> Below(bs[j], bs[i]);
      assert !Covers(bs[i], b.addr);
      if j <= i && bs[i].addr < b.addr + b.n {
        assert Covers(b, bs[i].addr) && Covers(bs[i], bs[i].addr);
        assert false;
      }
    }
  }

  /** The position after which a block of rank j is linked in: the last one when it wraps. */
  function Before(bs: seq<Block>, j: nat): (k: nat)
    requires 0 < |bs| && j <= |bs|
    ensures k < |bs|
  {
    if j == 0 then |bs| - 1 else j - 1
  }

  /** The search of FreeList_Free stops at p, with successor q, for the block at address b. */
  predicate StopsAt(p: int, q: int, b: int) {
    (p < b && b < q) || (p >= q && (p < b || b < q))
  }

  /** The search stops at one position only, the one the block belongs after. */
  lemma StopsOnlyBefore(bs: seq<Block>, j: nat, b: Block, k: nat)
    requires Tidy(bs) && 0 < |bs| && Slot(bs, j, b) && b.n > 0 && k < |bs|
    ensures StopsAt(bs[k].addr, bs[Next(bs, k)].addr, b.addr) <==> k == Before(bs, j)
  {
    var n := |bs|;
    assert k + 1 < n ==> Below(bs[k], bs[k + 1]);
    assert 0 < n - 1 ==> Below(bs[0], bs[n - 1]);
    assert k < n - 1 && j == 0 ==> b.addr < bs[k].addr;
    assert 0 < k && k == n - 1 ==> Below(bs[0], bs[k]);
  }

  // ---- linking a block in ---------------------------------------------------------

  /** Memory after the first half of FreeList_Free: the block takes over what follows p. */
  function LinkBlock(mem: Memory, p: int, b: Block): (m: Memory)
    requires p in mem && mem[p].next.At? && mem[p].next.addr in mem
    ensures b.addr in m
    ensures p in m
  {
    var q := mem[p].next.addr;
    if b.addr + b.n == q then mem[b.addr := Header(mem[q].next, b.n + mem[q].num)]
    else mem[b.addr := Header(At(q), b.n)]
  }

  /** Memory after the second half: p absorbs the block or points to it. */
  function LinkPrevious(mem: Memory, p: int, b: int): Memory
    requires p in mem && b in mem
  {
    if p + mem[p].num == b then mem[p := Header(mem[b].next, mem[p].num + mem[b].num)]
    else mem[p := Header(At(b), mem[p].num)]
  }

  ghost predicate MayInsert(mem: Memory, bs: seq<Block>, j: nat, b: Block) {
    && Tidy(bs) && Slot(bs, j, b) && b.n > 0
    && Linked(mem, bs)
    && (JoinsRight(bs, j, b) ==> bs[j].n > 0 && |bs| >= 2)
  }

  lemma Distinct(bs: seq<Block>, i: nat, k: nat)
    requires Tidy(bs) && i < |bs| && k < |bs| && i != k
    ensures bs[i].addr != bs[k].addr
  {
    assert if i < k then Below(bs[i], bs[k]) else Below(bs[k], bs[i]);
  }

  /** What the two pointer updates leave in memory. */
  lemma LinkedMemory(mem: Memory, bs: seq<Block>, j: nat, b: Block)
    requires MayInsert(mem, bs, j, b)
    ensures HeaderOf(mem, bs, Before(bs, j))
    ensures HeaderOf(mem, bs, Next(bs, Before(bs, j)))
    ensures Next(bs, Before(bs, j)) == (if j == |bs| then 0 else j)
    ensures var p := bs[Before(bs, j)];
            var q := Next(bs, Before(bs, j));
            var after := if JoinsRight(bs, j, b) then bs[Next(bs, q)].addr else bs[q].addr;
            var m := Joined(bs, j, b);
            LinkPrevious(LinkBlock(mem, p.addr, b), p.addr, b.addr)
            == (if JoinsLeft(bs, j, b) then
                  mem[b.addr := LinkBlock(mem, p.addr, b)[b.addr]][p.addr := Header(At(after), m.n)]
                else mem[b.addr := Header(At(after), m.n)][p.addr := Header(At(b.addr), p.n)])
  {
    var i := Before(bs, j);
    var p := bs[i];
    var q := Next(bs, i);
    assert HeaderOf(mem, bs, i) && HeaderOf(mem, bs, q);
    assert p.addr != b.addr;
    if j == 0 {
      assert p.addr + p.n != b.addr;
    }
    if j == |bs| {
      assert b.addr + b.n != bs[0].addr;
    }
  }

  /** Linking a block in makes the memory spell out the list with the block inserted. */
  lemma InsertLinked(mem: Memory, bs: seq<Block>, j: nat, b: Block)
    requires MayInsert(mem, bs, j, b)
    ensures var p := bs[Before(bs, j)].addr;
            p in mem && mem[p].next.At? && mem[p].next.addr in mem
            && Linked(LinkPrevious(LinkBlock(mem, p, b), p, b.addr), Insert(bs, j, b))
  {
    LinkedMemory(mem, bs, j, b);
    var i := Before(bs, j);
    var p := bs[i].addr;
    var mem' := LinkPrevious(LinkBlock(mem, p, b), p, b.addr);
    var r := Insert(bs, j, b);
    forall k | 0 <= k < |r|
      ensures HeaderOf(mem', r, k)
    {
      InsertedHeader(mem, bs, j, b, k);
    }
  }

  lemma InsertedHeader(mem: Memory, bs: seq<Block>, j: nat, b: Block, k: nat)
    requires MayInsert(mem, bs, j, b) && k < |Insert(bs, j, b)|
    requires var p := bs[Before(bs, j)].addr; p in mem && mem[p].next.At? && mem[p].next.addr in mem
    ensures var p := bs[Before(bs, j)].addr;
            HeaderOf(LinkPrevious(LinkBlock(mem, p, b), p, b.addr), Insert(bs, j, b), k)
  {
    hide Tidy, LinkBlock, LinkPrevious;
    LinkedMemory(mem, bs, j, b);
    var lo := if JoinsLeft(bs, j, b) then j - 1 else j;
    var hi := if JoinsRight(bs, j, b) then j + 1 else j;
    var r := Insert(bs, j, b);
    SpliceAt(bs, lo, hi, [Joined(bs, j, b)], k);
    SpliceAt(bs, lo, hi, [Joined(bs, j, b)], Next(r, k));
    if k != lo {
      OtherHeader(mem, bs, j, b, k);
    } else {
      MergedHeader(mem, bs, j, b);
    }
  }

  /** The block that was put in, joined or not, points to what followed it. */
  lemma MergedHeader(mem: Memory, bs: seq<Block>, j: nat, b: Block)
    requires MayInsert(mem, bs, j, b)
    ensures var q := Next(bs, Before(bs, j));
            var after := if JoinsRight(bs, j, b) then bs[Next(bs, q)].addr else bs[q].addr;
            var lo := if JoinsLeft(bs, j, b) then j - 1 else j;
            var r := Insert(bs, j, b);
            lo < |r| && r[lo] == Joined(bs, j, b) && r[Next(r, lo)].addr == after
  {
    hide Tidy, Linked;
    var lo := if JoinsLeft(bs, j, b) then j - 1 else j;
    var hi := if JoinsRight(bs, j, b) then j + 1 else j;
    var r := Insert(bs, j, b);
    SpliceAt(bs, lo, hi, [Joined(bs, j, b)], lo);
    SpliceAt(bs, lo, hi, [Joined(bs, j, b)], Next(r, lo));
    JoinsAtEnds(mem, bs, j, b);
  }

  /** A block below all others joins no predecessor, one above all others no successor. */
  lemma JoinsAtEnds(mem: Memory, bs: seq<Block>, j: nat, b: Block)
    requires MayInsert(mem, bs, j, b)
    ensures 0 < |bs|
    ensures j == 0 ==> !JoinsLeft(bs, j, b)
    ensures j == |bs| ==> !JoinsRight(bs, j, b)
    ensures j < |bs| && |bs| == 1 ==> !JoinsRight(bs, j, b)
  {
  }

  /** The address that follows an old block in the new list. */
  lemma Follower(bs: seq<Block>, j: nat, b: Block, k: nat)
    requires 0 < |bs| && Slot(bs, j, b) && k < |Insert(bs, j, b)|
    requires k != (if JoinsLeft(bs, j, b) then j - 1 else j)
    requires JoinsRight(bs, j, b) ==> |bs| >= 2
    requires j == |bs| ==> !JoinsRight(bs, j, b)
    ensures var lo := if JoinsLeft(bs, j, b) then j - 1 else j;
            var hi := if JoinsRight(bs, j, b) then j + 1 else j;
            var i := if k < lo then k else k - 1 - lo + hi;
            var r := Insert(bs, j, b);
            i < |bs| && r[k] == bs[i]
            && r[Next(r, k)].addr == (if i == Before(bs, j) then b.addr else bs[Next(bs, i)].addr)
  {
    var lo := if JoinsLeft(bs, j, b) then j - 1 else j;
    var hi := if JoinsRight(bs, j, b) then j + 1 else j;
    var r := Insert(bs, j, b);
    SpliceAt(bs, lo, hi, [Joined(bs, j, b)], k);
    SpliceAt(bs, lo, hi, [Joined(bs, j, b)], Next(r, k));
  }

  /** The other blocks keep their sizes, and point to blocks at the addresses they pointed to. */
  lemma OtherHeader(mem: Memory, bs: seq<Block>, j: nat, b: Block, k: nat)
    requires MayInsert(mem, bs, j, b) && k < |Insert(bs, j, b)|
    requires k != (if JoinsLeft(bs, j, b) then j - 1 else j)
    requires var p := bs[Before(bs, j)].addr; p in mem && mem[p].next.At? && mem[p].next.addr in mem
    ensures var p := bs[Before(bs, j)].addr;
            HeaderOf(LinkPrevious(LinkBlock(mem, p, b), p, b.addr), Insert(bs, j, b), k)
  {
    hide Tidy, LinkBlock, LinkPrevious, Insert, Joined;
    LinkedMemory(mem, bs, j, b);
    Follower(bs, j, b, k);
    var lo := if JoinsLeft(bs, j, b) then j - 1 else j;
    var hi := if JoinsRight(bs, j, b) then j + 1 else j;
    var i := if k < lo then k else k - 1 - lo + hi;
    assert HeaderOf(mem, bs, i);
    if i != Before(bs, j) {
      Distinct(bs, i, Before(bs, j));
    } else {
      assert !JoinsLeft(bs, j, b);
    }
  }

  // ---- taking a block out -----------------------------------------------------------

  /** Memory after FreeList_Alloc took n units from the block at q, which p points to. */
  function Unlink(mem: Memory, p: int, q: int, n: nat, junk: Ptr): Memory
    requires p in mem && q in mem && n <= mem[q].num
  {
    if mem[q].num == n then mem[p := Header(mem[q].next, mem[p].num)]
    else mem[q := Header(mem[q].next, mem[q].num - n)][q + mem[q].num - n := Header(junk, n)]
  }

  /** Taking from the block after position i makes the memory spell out the shorter list. */
  lemma TakeLinked(mem: Memory, bs: seq<Block>, i: nat, n: nat, junk: Ptr)
    requires Tidy(bs) && Linked(mem, bs) && i < |bs| && 0 < n <= bs[Next(bs, i)].n
    requires |bs| >= 2
    ensures HeaderOf(mem, bs, i) && HeaderOf(mem, bs, Next(bs, i))
    ensures Linked(Unlink(mem, bs[i].addr, bs[Next(bs, i)].addr, n, junk), Take(bs, Next(bs, i), n))
  {
    var t := Next(bs, i);
    assert HeaderOf(mem, bs, i) && HeaderOf(mem, bs, t);
    var r := Take(bs, t, n);
    var mem' := Unlink(mem, bs[i].addr, bs[t].addr, n, junk);
    forall k | 0 <= k < |r|
      ensures HeaderOf(mem', r, k)
    {
      TakenHeader(mem, bs, i, n, junk, k);
    }
  }

  lemma TakenHeader(mem: Memory, bs: seq<Block>, i: nat, n: nat, junk: Ptr, k: nat)
    requires Tidy(bs) && Linked(mem, bs) && i < |bs| && 0 < n <= bs[Next(bs, i)].n
    requires HeaderOf(mem, bs, i) && HeaderOf(mem, bs, Next(bs, i))
    requires |bs| >= 2 && k < |Take(bs, Next(bs, i), n)|
    ensures HeaderOf(Unlink(mem, bs[i].addr, bs[Next(bs, i)].addr, n, junk), Take(bs, Next(bs, i), n), k)
  {
    hide Tidy;
    var t := Next(bs, i);
    var r := Take(bs, t, n);
    var rest := Rest(bs, t, n);
    SpliceAt(bs, t, t + 1, rest, k);
    SpliceAt(bs, t, t + 1, rest, Next(r, k));
    var o := if k < t then k else k - |rest| + 1;
    if rest == [] {
      assert HeaderOf(mem, bs, o);
      if o != i {
        Distinct(bs, o, i);
      }
    } else {
      assert HeaderOf(mem, bs, k);
      NotInside(bs, t, n, k);
      if k != t {
        Distinct(bs, k, t);
      }
    }
  }

  /** No header of the list lies strictly inside another block. */
  lemma NotInside(bs: seq<Block>, t: nat, n: nat, k: nat)
    requires Tidy(bs) && t < |bs| && k < |bs| && 0 < n < bs[t].n
    ensures bs[k].addr != bs[t].addr + bs[t].n - n
  {
    if k != t {
      assert if k < t then Below(bs[k], bs[t]) else Below(bs[t], bs[k]);
    }
  }
}
