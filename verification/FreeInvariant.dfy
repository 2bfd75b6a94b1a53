/**
 What makes an allocator consistent: the free list in memory, the live blocks and the memory
 obtained so far fit together. Freeing, allocating and growing keep this.
 */
module FreeInvariant {
  import opened BlockList
  import opened FreeRing

  function Region(b: Block): set<int> {
    set u | b.addr <= u < b.addr + b.n && Covers(b, u)
  }

  /** The empty root block is in the list, and is its only empty block. */
  ghost predicate Rooted(bs: seq<Block>, root: int) {
    Block(root, 0) in bs && forall i | 0 <= i < |bs| :: bs[i].n == 0 ==> bs[i].addr == root
  }

  /** Every live block starts with a header that tells its size. */
  ghost predicate LiveHeaders(mem: Memory, live: seq<Block>) {
    forall i | 0 <= i < |live| :: live[i].n > 0 && live[i].addr in mem && mem[live[i].addr].num == live[i].n
  }

  /** No address belongs to two of the blocks. */
  ghost predicate Apart(live: seq<Block>) {
    forall i, u | 0 <= i < |live| && Covers(live[i], u) :: !HeldOutside(live, i, i + 1, u)
  }

  /** Free and live blocks share no address and together are what was obtained from sbrk. */
  ghost predicate Partition(owned: set<int>, free: seq<Block>, live: seq<Block>) {
    && (forall u :: u in owned <==> Held(free, u) || Held(live, u))
    && (forall u :: !(Held(free, u) && Held(live, u)))
  }

  ghost predicate Consistent(mem: Memory, free: seq<Block>, live: seq<Block>, owned: set<int>, root: int) {
    && Tidy(free)
    && Linked(mem, free)
    && Rooted(free, root)
    && LiveHeaders(mem, live)
    && Apart(live)
    && Partition(owned, free, live)
    && root !in owned
    && root - 1 !in owned
  }

  function Without(bs: seq<Block>, i: nat): seq<Block>
    requires i < |bs|
  {
    Splice(bs, i, i + 1, [])
  }

  lemma HeldAt(bs: seq<Block>, i: nat, u: int)
    requires i < |bs| && Covers(bs[i], u)
    ensures Held(bs, u)
  {
  }

  /** A live block has a place in the free list. */
  lemma LiveHasSlot(mem: Memory, free: seq<Block>, live: seq<Block>, owned: set<int>, root: int, i: nat)
    requires Consistent(mem, free, live, owned, root) && i < |live|
    ensures var j := Rank(free, live[i].addr); MayInsert(mem, free, j, live[i])
  {
    var b := live[i];
    forall u | Covers(b, u)
      ensures !Held(free, u) && u in owned
    {
      HeldAt(live, i, u);
    }
    RankIsSlot(free, b, root);
    var j := Rank(free, b.addr);
    if JoinsRight(free, j, b) {
      assert Covers(b, b.addr + b.n - 1);
      assert free[j].addr != root;
      assert |free| >= 2 by {
        var r :| 0 <= r < |free| && free[r] == Block(root, 0);
        assert r != j;
      }
    }
  }

  /** The pointer updates of FreeList_Free keep the allocator consistent. */
  lemma FreeKeeps(mem: Memory, free: seq<Block>, live: seq<Block>, owned: set<int>, root: int, i: nat)
    requires Consistent(mem, free, live, owned, root) && i < |live|
    requires MayInsert(mem, free, Rank(free, live[i].addr), live[i])
    ensures var j := Rank(free, live[i].addr);
            var p := free[Before(free, j)].addr;
            p in mem && mem[p].next.At? && mem[p].next.addr in mem
            && Consistent(LinkPrevious(LinkBlock(mem, p, live[i]), p, live[i].addr),
                          Insert(free, j, live[i]), Without(live, i), owned, root)
  {
    hide Linked, Slot, Insert, LinkBlock, LinkPrevious, Apart, LiveHeaders, Rooted, Partition, Splice;
    var b, j := live[i], Rank(free, live[i].addr);
    InsertLinked(mem, free, j, b);
    InsertTidy(free, j, b);
    LiveAwayFromRoot(mem, free, live, owned, root, i);
    InsertRooted(free, j, b, root);
    FreeKeepsLive(mem, free, live, owned, root, i);
    WithoutApart(live, i);
    FreeKeepsPartition(free, live, owned, i, j);
  }

  /** A live block neither starts at the root nor ends next to it. */
  lemma LiveAwayFromRoot(mem: Memory, free: seq<Block>, live: seq<Block>, owned: set<int>, root: int, i: nat)
    requires Consistent(mem, free, live, owned, root) && i < |live|
    ensures live[i].n > 0 && live[i].addr != root && live[i].addr + live[i].n != root
  {
    hide Tidy, Linked, Apart;
    HeldAt(live, i, live[i].addr);
    HeldAt(live, i, live[i].addr + live[i].n - 1);
  }

  lemma InsertRooted(free: seq<Block>, j: nat, b: Block, root: int)
    requires Rooted(free, root) && j <= |free| && b.n > 0 && b.addr != root && b.addr + b.n != root
    ensures Rooted(Insert(free, j, b), root)
  {
    var lo := if JoinsLeft(free, j, b) then j - 1 else j;
    var hi := if JoinsRight(free, j, b) then j + 1 else j;
    var m := Joined(free, j, b);
    var r := Insert(free, j, b);
    var k :| 0 <= k < |free| && free[k] == Block(root, 0);
    assert k < lo || k >= hi;
    var k' := if k < lo then k else k - hi + lo + 1;
    SpliceAt(free, lo, hi, [m], k');
    assert r[k'] == Block(root, 0);
    forall q | 0 <= q < |r|
      ensures r[q].n == 0 ==> r[q].addr == root
    {
      SpliceAt(free, lo, hi, [m], q);
    }
  }

  lemma FreeKeepsLive(mem: Memory, free: seq<Block>, live: seq<Block>, owned: set<int>, root: int, i: nat)
    requires Consistent(mem, free, live, owned, root) && i < |live|
    requires MayInsert(mem, free, Rank(free, live[i].addr), live[i])
    requires var p := free[Before(free, Rank(free, live[i].addr))].addr;
             p in mem && mem[p].next.At? && mem[p].next.addr in mem
    ensures var p := free[Before(free, Rank(free, live[i].addr))].addr;
            LiveHeaders(LinkPrevious(LinkBlock(mem, p, live[i]), p, live[i].addr), Without(live, i))
  {
    hide Tidy, Linked, Slot;
    var p := free[Before(free, Rank(free, live[i].addr))];
    var rest := Without(live, i);
    forall k | 0 <= k < |rest|
      ensures rest[k].addr in mem && rest[k].addr != p.addr && rest[k].addr != live[i].addr
      ensures rest[k].n > 0 && mem[rest[k].addr].num == rest[k].n
    {
      SpliceAt(live, i, i + 1, [], k);
      var o := if k < i then k else k + 1;
      assert rest[k] == live[o];
      HeldAt(live, o, live[o].addr);
      if p.n > 0 {
        HeldAt(free, Before(free, Rank(free, live[i].addr)), p.addr);
      }
      ApartAt(live, o, i, live[o].addr);
    }
  }

  lemma ApartAt(live: seq<Block>, o: nat, i: nat, u: int)
    requires Apart(live) && o < |live| && i < |live| && o != i && Covers(live[o], u)
    ensures !Covers(live[i], u)
  {
    assert !HeldOutside(live, o, o + 1, u);
  }

  lemma WithoutApart(live: seq<Block>, i: nat)
    requires Apart(live) && i < |live|
    ensures Apart(Without(live, i))
  {
    var rest := Without(live, i);
    forall k, u | 0 <= k < |rest| && Covers(rest[k], u)
      ensures !HeldOutside(rest, k, k + 1, u)
    {
      SpliceAt(live, i, i + 1, [], k);
      var o := if k < i then k else k + 1;
      forall q | 0 <= q < |rest| && q != k
        ensures !Covers(rest[q], u)
      {
        SpliceAt(live, i, i + 1, [], q);
        ApartAt(live, o, if q < i then q else q + 1, u);
      }
    }
  }

  /** What one live block gives up is what the others do not hold. */
  lemma WithoutHolds(live: seq<Block>, i: nat, u: int)
    requires Apart(live) && i < |live|
    ensures Held(live, u) <==> Held(Without(live, i), u) || Covers(live[i], u)
    ensures !(Held(Without(live, i), u) && Covers(live[i], u))
  {
    SpliceHolds(live, i, i + 1, [], u);
    if Held(live, u) {
      var k :| 0 <= k < |live| && Covers(live[k], u);
      assert k != i ==> HeldOutside(live, i, i + 1, u);
    }
    if HeldOutside(live, i, i + 1, u) {
      assert Held(live, u);
    }
  }

  lemma FreeKeepsPartition(free: seq<Block>, live: seq<Block>, owned: set<int>, i: nat, j: nat)
    requires Partition(owned, free, live) && Apart(live) && i < |live|
    requires j <= |free| && Slot(free, j, live[i])
    ensures Partition(owned, Insert(free, j, live[i]), Without(live, i))
  {
    hide Held, Apart, Insert, Splice, Slot;
    forall u
      ensures u in owned <==> Held(Insert(free, j, live[i]), u) || Held(Without(live, i), u)
      ensures !(Held(Insert(free, j, live[i]), u) && Held(Without(live, i), u))
    {
      InsertHolds(free, j, live[i], u);
      WithoutHolds(live, i, u);
    }
  }

  /** The pointer updates of FreeList_Alloc keep the allocator consistent. */
  lemma TakeKeeps(mem: Memory, free: seq<Block>, live: seq<Block>, owned: set<int>, root: int,
                  i: nat, n: nat, junk: Ptr)
    requires Consistent(mem, free, live, owned, root) && i < |free| && 0 < n <= free[Next(free, i)].n
    ensures |free| >= 2
    ensures var p := free[i].addr;
            var t := Next(free, i);
            HeaderOf(mem, free, i) && HeaderOf(mem, free, t)
            && Consistent(Unlink(mem, p, free[t].addr, n, junk), Take(free, t, n),
                          live + [Tail(free, t, n)], owned, root)
  {
    hide Linked, Take, Unlink, Apart, LiveHeaders, Partition, Tidy;
    var t := Next(free, i);
    var k :| 0 <= k < |free| && free[k] == Block(root, 0);
    assert k != t;
    TakeLinked(mem, free, i, n, junk);
    TakeTidy(free, t, n);
    TakeRooted(free, t, n, root);
    TakeKeepsLive(mem, free, live, owned, root, i, n, junk);
    TakeKeepsApart(free, live, owned, t, n);
    TakeKeepsPartition(free, live, owned, t, n);
  }

  lemma TakeRooted(free: seq<Block>, t: nat, n: nat, root: int)
    requires Rooted(free, root) && t < |free| && 0 < n <= free[t].n
    ensures Rooted(Take(free, t, n), root)
  {
    var r, rest := Take(free, t, n), Rest(free, t, n);
    var k :| 0 <= k < |free| && free[k] == Block(root, 0);
    var k' := if k < t then k else k - 1 + |rest|;
    SpliceAt(free, t, t + 1, rest, k');
    assert r[k'] == Block(root, 0);
    forall q | 0 <= q < |r|
      ensures r[q].n == 0 ==> r[q].addr == root
    {
      SpliceAt(free, t, t + 1, rest, q);
    }
  }

  lemma TakeKeepsLive(mem: Memory, free: seq<Block>, live: seq<Block>, owned: set<int>, root: int,
                      i: nat, n: nat, junk: Ptr)
    requires Consistent(mem, free, live, owned, root) && i < |free| && 0 < n <= free[Next(free, i)].n
    requires HeaderOf(mem, free, i) && HeaderOf(mem, free, Next(free, i)) && i != Next(free, i)
    ensures LiveHeaders(Unlink(mem, free[i].addr, free[Next(free, i)].addr, n, junk),
                        live + [Tail(free, Next(free, i), n)])
  {
    hide Tidy, Linked, Apart;
    var t := Next(free, i);
    var b := Tail(free, t, n);
    var mem' := Unlink(mem, free[i].addr, free[t].addr, n, junk);
    HeldAt(free, t, free[t].addr);
    HeldAt(free, t, b.addr);
    if free[i].n > 0 {
      HeldAt(free, i, free[i].addr);
    }
    assert free[i].addr != free[t].addr by {
      Distinct(free, i, t);
    }
    forall k | 0 <= k < |live|
      ensures live[k].addr in mem' && mem'[live[k].addr] == mem[live[k].addr]
    {
      HeldAt(live, k, live[k].addr);
    }
  }

  lemma TakeKeepsApart(free: seq<Block>, live: seq<Block>, owned: set<int>, t: nat, n: nat)
    requires Partition(owned, free, live) && Apart(live) && t < |free| && n <= free[t].n
    ensures Apart(live + [Tail(free, t, n)])
  {
    var b := Tail(free, t, n);
    AppendApart(live, b) by {
      forall u | Covers(b, u)
        ensures !Held(live, u)
      {
        HeldAt(free, t, u);
      }
    }
  }

  lemma AppendApart(live: seq<Block>, b: Block)
    requires Apart(live) && forall u | Covers(b, u) :: !Held(live, u)
    ensures Apart(live + [b])
  {
    var more := live + [b];
    forall k, u | 0 <= k < |more| && Covers(more[k], u)
      ensures !HeldOutside(more, k, k + 1, u)
    {
      forall q | 0 <= q < |more| && q != k
        ensures !Covers(more[q], u)
      {
        if k < |live| {
          HeldAt(live, k, u);
          if q < |live| {
            ApartAt(live, k, q, u);
          }
        }
      }
    }
  }

  lemma AppendHolds(live: seq<Block>, b: Block, u: int)
    ensures Held(live + [b], u) <==> Held(live, u) || Covers(b, u)
  {
    var more := live + [b];
    assert more[|live|] == b;
    if Held(live, u) {
      var k :| 0 <= k < |live| && Covers(live[k], u);
      assert Covers(more[k], u);
    }
  }

  lemma TakeKeepsPartition(free: seq<Block>, live: seq<Block>, owned: set<int>, t: nat, n: nat)
    requires Partition(owned, free, live) && Tidy(free) && t < |free| && n <= free[t].n
    ensures Partition(owned, Take(free, t, n), live + [Tail(free, t, n)])
  {
    hide Held, Tidy, Take, Tail;
    forall u
      ensures u in owned <==> Held(Take(free, t, n), u) || Held(live + [Tail(free, t, n)], u)
      ensures !(Held(Take(free, t, n), u) && Held(live + [Tail(free, t, n)], u))
    {
      TakeHolds(free, t, n, u);
      AppendHolds(live, Tail(free, t, n), u);
    }
  }

  /** A new region with a header on it is one more live block. */
  lemma GrowKeeps(mem: Memory, free: seq<Block>, live: seq<Block>, owned: set<int>, root: int, b: Block)
    requires Consistent(mem, free, live, owned, root) && b.n > 0
    requires Region(b) !! (owned + {root - 1, root})
    ensures Consistent(mem[b.addr := Header(Null, b.n)], free, live + [b], owned + Region(b), root)
  {
    hide Tidy;
    forall u
      ensures u in Region(b) <==> Covers(b, u)
      ensures u in owned + Region(b) <==> Held(free, u) || Held(live + [b], u)
      ensures !(Held(free, u) && Held(live + [b], u))
    {
      AppendHolds(live, b, u);
    }
    assert Covers(b, b.addr);
    GrowKeepsHeaders(mem, free, live, b, root);
    AppendApart(live, b);
  }

  lemma HeadersElsewhere(mem: Memory, free: seq<Block>, u: int, h: Header)
    requires Linked(mem, free) && forall k | 0 <= k < |free| :: free[k].addr != u
    ensures Linked(mem[u := h], free)
  {
    var mem' := mem[u := h];
    forall k | 0 <= k < |free|
      ensures HeaderOf(mem', free, k)
    {
      assert HeaderOf(mem, free, k);
    }
  }

  lemma GrowKeepsHeaders(mem: Memory, free: seq<Block>, live: seq<Block>, b: Block, root: int)
    requires Linked(mem, free) && Rooted(free, root) && LiveHeaders(mem, live)
    requires b.n > 0 && b.addr != root && !Held(free, b.addr) && !Held(live, b.addr)
    ensures Linked(mem[b.addr := Header(Null, b.n)], free)
    ensures LiveHeaders(mem[b.addr := Header(Null, b.n)], live + [b])
  {
    forall i | 0 <= i < |free|
      ensures free[i].addr != b.addr
    {
      if free[i].n > 0 {
        assert Covers(free[i], free[i].addr);
      }
    }
    HeadersElsewhere(mem, free, b.addr, Header(Null, b.n));
    forall i | 0 <= i < |live|
      ensures live[i].addr != b.addr
    {
      assert Covers(live[i], live[i].addr);
    }
  }

  /** Whatever the owner of a live block writes behind its header leaves the allocator consistent. */
  lemma PayloadWrite(mem: Memory, free: seq<Block>, live: seq<Block>, owned: set<int>, root: int,
                     i: nat, u: int, h: Header)
    requires Consistent(mem, free, live, owned, root) && i < |live|
    requires live[i].addr < u < live[i].addr + live[i].n
    ensures Consistent(mem[u := h], free, live, owned, root)
  {
    hide Tidy;
    HeldAt(live, i, u);
    forall k | 0 <= k < |free|
      ensures free[k].addr != u
    {
      if free[k].n > 0 {
        HeldAt(free, k, free[k].addr);
      }
    }
    HeadersElsewhere(mem, free, u, h);
    forall k | 0 <= k < |live|
      ensures live[k].addr != u
    {
      if k != i {
        ApartAt(live, i, k, u);
        assert Covers(live[k], live[k].addr);
      }
    }
  }
}
