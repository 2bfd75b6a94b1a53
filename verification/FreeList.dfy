/**
 The free-list allocator: a circular list of free blocks in address order, searched from where
 the last call stopped, split from the tail, joined with both neighbours on release, and grown
 through an sbrk-like function. Addresses count allocator headers of eight bytes each; header
 fields live in a memory map that the program updates in place.
 */
module FreeList {
  import opened BlockList
  import opened FreeInvariant
  import opened FreeRing
  import Bits

  const HEADER_SIZE: nat := 8
  const MIN_GROWTH: nat := 1024
  const WORD: nat := 0x1_0000_0000

  // ---- sizes ------------------------------------------------------------------------

  /** The header count FreeList_Alloc computes for a request, in 32-bit arithmetic. */
  function Units(size: nat): (n: nat)
    requires size < WORD
    ensures n >= 1
  {
    ((size + HEADER_SIZE - 1) % WORD) / HEADER_SIZE + 1
  }

  /** The byte count of a number of headers, in 32-bit arithmetic. */
  function Bytes(units: nat): nat {
    (units * HEADER_SIZE) % WORD
  }

  /** The block holds the requested bytes behind its header unless the rounding wrapped. */
  lemma UnitsHold(size: nat)
    requires size < WORD
    ensures (Units(size) - 1) * 8 >= size <==> size + 7 < 0x1_0000_0000
    ensures size + 7 < 0x1_0000_0000 ==> (Units(size) - 1) * 8 < size + 8
  {
    var s := size + HEADER_SIZE - 1;
    if s < WORD {
      assert s % WORD == s;
      assert s == (s / HEADER_SIZE) * HEADER_SIZE + s % HEADER_SIZE;
    } else {
      assert s % WORD == s - WORD;
    }
  }

  /** Which requests make the shrinking retry compare against a wrapped byte count. */
  lemma UnitsWrap(size: nat)
    requires size < WORD
    ensures Units(size) <= 0x2000_0000
    ensures Units(size) == 0x2000_0000 <==> 0xffff_fff1 <= size <= 0xffff_fff8
  {
    var s := size + HEADER_SIZE - 1;
    assert s % WORD == if s < WORD then s else s - WORD;
  }

  function Growth(units: nat): nat {
    if units < MIN_GROWTH then MIN_GROWTH else units
  }

  /** The bytes asked for at the d-th try of the shrinking retry. */
  function Ask(units: nat, d: nat): nat
    requires d >= 1
  {
    Bytes(Growth(units) / d)
  }

  lemma BytesExact(units: nat)
    ensures units < 0x2000_0000 ==> Bytes(units) == units * 8
    ensures units == 0x2000_0000 ==> Bytes(units) == 0
  {
  }

  /**
   The shrinking retry gives up after some number of refusals for every request except those
   whose byte count wraps to zero; for these every retry is followed by another one.
   */
  lemma RetryGivesUp(units: nat)
    requires 1 <= units <= 0x2000_0000
    ensures (exists d: nat :: d >= 1 && Ask(units, d) < Bytes(units)) <==> units < 0x2000_0000
  {
    hide Ask, Bytes;
    BytesExact(units);
    LastAsk(units);
  }

  /** The first try asks for at least eight kilobytes, each further one for a smaller part of that. */
  lemma AskInNumbers(units: nat, d: nat)
    requires units < 0x2000_0000 && d >= 1
    ensures Ask(units, d) == 8 * ((if units < 1024 then 1024 else units) / d)
  {
    hide Bytes;
    QuotientNotAbove(Growth(units), d);
    BytesExact(Growth(units) / d);
  }

  lemma QuotientNotAbove(a: nat, d: nat)
    requires d >= 1
    ensures a / d <= a
  {
    var q := a / d;
    assert q * d <= a;
    assert q * d == q * (d - 1) + q;
    Bits.MulNonNegative(q, d - 1);
  }

  lemma LastAsk(units: nat)
    ensures Ask(units, Growth(units) + 1) == 0
  {
    hide Growth;
    NoQuotient(Growth(units), Growth(units) + 1);
  }

  lemma QuotientAtLeast(blocks: nat, d: nat, units: nat)
    requires d >= 1 && blocks / d >= units
    ensures units * d <= blocks
  {
    var q := blocks / d;
    assert q * d <= blocks;
    assert units * d <= q * d;
  }

  /** Only requests for a bare header can make the retry ask sbrk for nothing. */
  lemma AsksForNothing(units: nat, d: nat)
    requires units >= 1 && d >= 1 && (d == 1 || Growth(units) / (d - 1) >= units)
    requires Growth(units) / d == 0
    ensures units == 1 && d == 1025
  {
    if d > 1 {
      QuotientAtLeast(Growth(units), d - 1, units);
      assert d > Growth(units);
      assert units >= 2 ==> units * (d - 1) >= 2 * (d - 1);
    }
  }

  // ---- the source of memory ---------------------------------------------------------

  /** One call of an sbrk: refused without effect, or a new region out of a finite budget. */
  ghost predicate Granted(avoid: set<int>, granted: set<int>, remaining: nat,
                          bytes: nat, p: Ptr, granted': set<int>, remaining': nat)
  {
    match p
    case Null => granted' == granted && remaining' == remaining
    case At(a) =>
      && bytes >= HEADER_SIZE
      && Region(Block(a, bytes / HEADER_SIZE)) !! (granted + avoid)
      && granted' == granted + Region(Block(a, bytes / HEADER_SIZE))
      && remaining' + bytes / HEADER_SIZE <= remaining
  }

  /** Any sbrk with a finite budget: it may refuse at will and place regions where it likes. */
  class Sbrk {
    const avoid: set<int>
    var granted: set<int>
    var remaining: nat
    ghost var asked: seq<nat>

    constructor (avoid: set<int>, budget: nat)
      ensures this.avoid == avoid && granted == {} && remaining == budget && asked == []
    {
      this.avoid, granted, remaining, asked := avoid, {}, budget, [];
    }

    method Grow(bytes: nat) returns (p: Ptr)
      modifies this
      ensures Granted(avoid, old(granted), old(remaining), bytes, p, granted, remaining)
      ensures asked == old(asked) + [bytes]
    {
      asked := asked + [bytes];
      var a: int := *;
      var willing: bool := *;
      var units := bytes / HEADER_SIZE;
      if willing && 0 < units <= remaining && Region(Block(a, units)) !! (granted + avoid) {
        granted, remaining := granted + Region(Block(a, units)), remaining - units;
        return At(a);
      }
      return Null;
    }
  }

  /** ff_sbrk: one static buffer of 4096 bytes, handed out whole to the first request that fits. */
  class StaticHeap {
    const base: int
    const avoid: set<int>
    var init: bool
    ghost var given: nat

    ghost predicate Valid() {
      Region(Block(base, 512)) !! avoid
    }

    ghost function GrantedSet(): set<int>
      reads this
    {
      if init then Region(Block(base, given)) else {}
    }

    ghost function Remaining(): nat
      reads this
    {
      if init then 0 else 512
    }

    constructor (base: int, avoid: set<int>)
      requires Region(Block(base, 512)) !! avoid
      ensures Valid() && !init && this.base == base && this.avoid == avoid
    {
      this.base, this.avoid, init, given := base, avoid, false, 0;
    }

    /** Keeps the general contract, but for a first request of nothing at all. */
    method Grow(bytes: nat) returns (p: Ptr)
      requires Valid()
      modifies this
      ensures Valid()
      ensures bytes >= HEADER_SIZE || old(init)
              ==> Granted(avoid, old(GrantedSet()), old(Remaining()), bytes, p, GrantedSet(), Remaining())
      ensures p.At? <==> !old(init) && bytes <= 4096
    {
      if init {
        return Null;
      }
      if bytes > 4096 {
        return Null;
      }
      init, given := true, bytes / HEADER_SIZE;
      p := At(base);
      assert {} + Region(Block(base, given)) == Region(Block(base, given));
      forall u | u in Region(Block(base, given))
        ensures u in Region(Block(base, 512))
      {
        assert Covers(Block(base, 512), u);
      }
    }
  }

  // ---- the allocator ------------------------------------------------------------------

  /** The position i steps of at most |bs| past the start. */
  function Around(bs: seq<Block>, i: nat): (k: nat)
    requires i < 2 * |bs|
    ensures k < |bs|
  {
    if i < |bs| then i else i - |bs|
  }

  /** The byte counts of the first d tries of the retry for so many headers. */
  function Asks(units: nat, d: nat): seq<nat> {
    if d == 0 then [] else Asks(units, d - 1) + [Ask(units, d)]
  }

  /** The retry gave up after the d-th try: the first one too small for the request. */
  ghost predicate GaveUpAfter(units: nat, d: nat) {
    d >= 1 && Ask(units, d) < Bytes(units) && forall k | 1 <= k < d :: Ask(units, k) >= Bytes(units)
  }

  lemma AskIs(units: nat, d: nat)
    requires d >= 1
    ensures Ask(units, d) == Bytes(Growth(units) / d)
  {
  }

  lemma BytesWhole(units: nat)
    ensures Bytes(units) % HEADER_SIZE == 0
  {
  }

  lemma BytesAdd(units: nat, bytes: nat)
    requires bytes % HEADER_SIZE == 0
    ensures (Bytes(units) + bytes) % WORD == Bytes(units + bytes / HEADER_SIZE)
  {
  }

  lemma RetryBound(units: nat, d: nat)
    requires 1 <= units < WORD / HEADER_SIZE && d >= 1 && Ask(units, d) >= Bytes(units)
    ensures d <= Growth(units)
  {
    hide Bytes, Growth;
    BytesExact(units);
    BytesExact(0);
    if d > Growth(units) {
      NoQuotient(Growth(units), d);
    }
  }

  lemma NoQuotient(a: nat, d: nat)
    requires a < d
    ensures a / d == 0
  {
  }

  /** What the walk through the list and the two pointer updates read. */
  lemma PartsFit(mem: Memory, free: seq<Block>, live: seq<Block>, owned: set<int>, root: int, i: nat)
    requires Consistent(mem, free, live, owned, root) && i < |live|
    requires MayInsert(mem, free, Rank(free, live[i].addr), live[i])
    ensures Tidy(free) && Linked(mem, free)
    ensures live[i].addr in mem && mem[live[i].addr].num == live[i].n
    ensures var p := free[Before(free, Rank(free, live[i].addr))].addr; p != live[i].addr
  {
  }

  lemma LinkBlockIs(mem: Memory, p: int, b: Block)
    requires p in mem && mem[p].next.At? && mem[p].next.addr in mem
    ensures var q := mem[p].next.addr;
            LinkBlock(mem, p, b) == mem[b.addr := if b.addr + b.n == q then Header(mem[q].next, b.n + mem[q].num)
                                                  else Header(At(q), b.n)]
  {
  }

  lemma LinkPreviousIs(mem: Memory, p: int, b: int)
    requires p in mem && b in mem
    ensures LinkPrevious(mem, p, b) == mem[p := if p + mem[p].num == b then Header(mem[b].next, mem[p].num + mem[b].num)
                                                else Header(At(b), mem[p].num)]
  {
  }

  /** Where the block that now precedes or contains the inserted one is found. */
  function PreviousAfter(bs: seq<Block>, j: nat, b: Block): nat
    requires j <= |bs|
  {
    if j == 0 then |bs| - (if JoinsRight(bs, j, b) then 1 else 0) else j - 1
  }

  lemma PreviousStays(mem: Memory, bs: seq<Block>, j: nat, b: Block)
    requires MayInsert(mem, bs, j, b)
    ensures PreviousAfter(bs, j, b) < |Insert(bs, j, b)|
    ensures Insert(bs, j, b)[PreviousAfter(bs, j, b)].addr == bs[Before(bs, j)].addr
  {
    var lo := if JoinsLeft(bs, j, b) then j - 1 else j;
    var hi := if JoinsRight(bs, j, b) then j + 1 else j;
    SpliceAt(bs, lo, hi, [Joined(bs, j, b)], PreviousAfter(bs, j, b));
  }

  /** Freeing moves units from the live blocks to the free ones. */
  lemma FreeTotal(free: seq<Block>, j: nat, live: seq<Block>, i: nat)
    requires j <= |free| && i < |live|
    ensures Total(Insert(free, j, live[i])) + Total(Without(live, i)) == Total(free) + Total(live)
  {
    hide Insert;
    InsertTotal(free, j, live[i]);
    SpliceTotal(live, i, i + 1, []);
    assert live[i..i + 1] == [live[i]];
    TotalOne(live[i]);
  }

  lemma WithoutLast(live: seq<Block>, b: Block)
    ensures Without(live + [b], |live|) == live
  {
  }

  lemma GrantedIs(avoid: set<int>, granted: set<int>, remaining: nat,
                  bytes: nat, p: Ptr, granted': set<int>, remaining': nat)
    requires Granted(avoid, granted, remaining, bytes, p, granted', remaining') && p.At?
    ensures bytes >= HEADER_SIZE && remaining' < remaining
    ensures Region(Block(p.addr, bytes / HEADER_SIZE)) !! (granted + avoid)
    ensures granted' == granted + Region(Block(p.addr, bytes / HEADER_SIZE))
  {
  }

  lemma AppendTotal(live: seq<Block>, b: Block)
    ensures Total(live + [b]) == Total(live) + b.n
  {
    TotalConcat(live, [b]);
    TotalOne(b);
  }

  /** The root block alone is a consistent allocator that owns nothing. */
  lemma RootAlone(mem: Memory, owned: set<int>, root: int)
    requires root in mem && mem[root] == Header(At(root), 0) && owned == {}
    ensures Consistent(mem, [Block(root, 0)], [], owned, root)
  {
    var bs := [Block(root, 0)];
    assert HeaderOf(mem, bs, 0);
    assert bs[0] in bs;
  }

  lemma NextInMemory(mem: Memory, free: seq<Block>, live: seq<Block>, owned: set<int>, root: int, i: nat)
    requires Consistent(mem, free, live, owned, root) && i < |free|
    ensures HeaderOf(mem, free, i)
  {
  }

  lemma PreviousRemains(bs: seq<Block>, i: nat, n: nat)
    requires i < |bs| && |bs| >= 2 && 0 < n <= bs[Next(bs, i)].n
    ensures var t := Next(bs, i);
            var k := if bs[t].n == n && t < i then i - 1 else i;
            k < |Take(bs, t, n)| && Take(bs, t, n)[k].addr == bs[i].addr
  {
    var t := Next(bs, i);
    SpliceAt(bs, t, t + 1, Rest(bs, t, n), if bs[t].n == n && t < i then i - 1 else i);
  }

  /** The units taken from a free block were not live. */
  lemma TailIsNew(mem: Memory, free: seq<Block>, live: seq<Block>, owned: set<int>, root: int, t: nat, n: nat)
    requires Consistent(mem, free, live, owned, root) && t < |free| && n <= free[t].n
    ensures forall u | Covers(Tail(free, t, n), u) :: u in owned && !Held(live, u)
  {
    forall u | Covers(Tail(free, t, n), u)
      ensures u in owned && !Held(live, u)
    {
      HeldAt(free, t, u);
    }
  }

  /** How many steps after position cur position i is reached. */
  function Ahead(bs: seq<Block>, cur: nat, i: nat): nat
    requires cur < |bs|
  {
    if i > cur then i - cur else i + |bs| - cur
  }

  /** The t blocks that follow position cur are too small. */
  ghost predicate SeenTooSmall(bs: seq<Block>, cur: nat, t: nat, units: nat) {
    cur < |bs| && forall i | 0 <= i < |bs| && Ahead(bs, cur, i) <= t :: bs[i].n < units
  }

  /** No block of the list is large enough. */
  ghost predicate AllSmall(bs: seq<Block>, units: nat) {
    forall i | 0 <= i < |bs| :: bs[i].n < units
  }

  /** The units come from the end of the first block behind position cur that is large enough. */
  ghost predicate NextFit(bs: seq<Block>, cur: nat, units: nat, bs': seq<Block>, b: Block) {
    exists t: nat :: t < |bs| && SeenTooSmall(bs, cur, t, units) && TakenAt(bs, cur + t + 1, units, bs', b)
  }

  ghost predicate TakenAt(bs: seq<Block>, p: nat, units: nat, bs': seq<Block>, b: Block)
    requires 0 < |bs|
  {
    && p < 2 * |bs|
    && var k := Around(bs, p);
    units <= bs[k].n && bs' == Take(bs, k, units) && b == Tail(bs, k, units)
  }

  lemma IsNextFit(bs: seq<Block>, cur: nat, t: nat, units: nat, bs': seq<Block>, b: Block)
    requires SeenTooSmall(bs, cur, t, units) && t < |bs|
    requires var k := Next(bs, Around(bs, cur + t));
             units <= bs[k].n && bs' == Take(bs, k, units) && b == Tail(bs, k, units)
    ensures NextFit(bs, cur, units, bs', b)
  {
    hide SeenTooSmall, Take;
    SeenBound(bs, cur, t, units);
    assert TakenAt(bs, cur + t + 1, units, bs', b);
  }

  lemma SeenBound(bs: seq<Block>, cur: nat, t: nat, units: nat)
    requires SeenTooSmall(bs, cur, t, units)
    ensures cur < |bs|
  {
  }

  lemma NothingSeen(bs: seq<Block>, cur: nat, units: nat)
    requires cur < |bs|
    ensures SeenTooSmall(bs, cur, 0, units)
  {
  }

  lemma SeeOneMore(bs: seq<Block>, cur: nat, t: nat, units: nat)
    requires SeenTooSmall(bs, cur, t, units) && t < |bs| && bs[Around(bs, cur + t + 1)].n < units
    ensures SeenTooSmall(bs, cur, t + 1, units)
    ensures t + 1 < |bs| ==> Around(bs, cur + t + 1) == Next(bs, Around(bs, cur + t))
  {
  }

  lemma NoneFits(units: nat)
    ensures AllSmall([], units)
  {
  }

  /** Once the search is back where it began, it has seen every block. */
  lemma AllTooSmall(mem: Memory, free: seq<Block>, live: seq<Block>, owned: set<int>, root: int,
                    cur: nat, t: nat, units: nat)
    requires Consistent(mem, free, live, owned, root) && cur < |free| && t < |free|
    requires SeenTooSmall(free, cur, t, units)
    requires free[Around(free, cur + t + 1)].addr == free[cur].addr && free[Around(free, cur + t + 1)].n < units
    ensures AllSmall(free, units)
  {
    if Around(free, cur + t + 1) != cur {
      Distinct(free, Around(free, cur + t + 1), cur);
    }
    assert t + 1 == |free|;
  }

  class Context {
    const root: int
    const sbrk: Sbrk?
    var mem: Memory
    var freeList: Ptr
    var heapSize: nat
    ghost var cur: nat
    ghost var free: seq<Block>
    ghost var live: seq<Block>
    ghost var owned: set<int>

    /** The memory obtained so far came from sbrk, which stays clear of the root header. */
    ghost predicate Sourced()
      reads `owned, sbrk
    {
      sbrk != null ==> owned <= sbrk.granted && root in sbrk.avoid && root - 1 in sbrk.avoid
    }

    ghost predicate Pointed()
      reads `freeList, `free, `cur
    {
      freeList.At? && cur < |free| && free[cur].addr == freeList.addr
    }

    /** Everything but the byte count, once the root header is set up. */
    ghost predicate Core()
      reads this, sbrk
    {
      Pointed() && Sourced() && Consistent(mem, free, live, owned, root)
    }

    ghost predicate Valid()
      reads this, sbrk
    {
      && (freeList.Null? ==>
            free == [] && live == [] && owned == {} && Sourced() && root !in owned && root - 1 !in owned)
      && (freeList.At? ==> Core())
      && heapSize == Bytes(Total(free) + Total(live))
    }

    constructor (root: int, sbrk: Sbrk?)
      requires sbrk != null ==> root in sbrk.avoid && root - 1 in sbrk.avoid
      ensures Valid() && live == [] && this.root == root && this.sbrk == sbrk
    {
      this.root, this.sbrk := root, sbrk;
      mem, freeList, heapSize := map[], Null, 0;
      cur, free, live, owned := 0, [], [], {};
    }

    /** Find the free block after which the block at an address belongs. */
    method FindPrevious(block: int, ghost b: Block) returns (p: int)
      requires Pointed() && Tidy(free) && Linked(mem, free)
      requires block == b.addr && b.n > 0 && Slot(free, Rank(free, block), b)
      ensures p == free[Before(free, Rank(free, block))].addr
    {
      ghost var target := Before(free, Rank(free, block));
      ghost var k: nat := cur;
      p := freeList.addr;
      while true
        invariant k < |free| && p == free[k].addr
        decreases if k <= target then target - k else target - k + |free|
      {
        StopsOnlyBefore(free, Rank(free, block), b, k);
        assert HeaderOf(mem, free, k);
        var q := mem[p].next.addr;
        if p < block && block < q {
          return;
        }
        if p >= q && (p < block || block < q) {
          return;
        }
        p := q;
        k := Next(free, k);
      }
    }

    /** The pointer updates at the end of FreeList_Free. */
    method LinkIn(block: int, p: int, ghost b: Block)
      requires block == b.addr && block in mem && mem[block].num == b.n && p != block
      requires p in mem && mem[p].next.At? && mem[p].next.addr in mem
      modifies `mem
      ensures mem == LinkPrevious(LinkBlock(old(mem), p, b), p, block)
    {
      hide LinkPrevious, LinkBlock;
      var q := mem[p].next.addr;
      if block + mem[block].num == q {
        mem := mem[block := Header(mem[q].next, mem[block].num + mem[q].num)];
      } else {
        mem := mem[block := Header(At(q), mem[block].num)];
      }
      LinkBlockIs(old(mem), p, b);
      if p + mem[p].num == block {
        mem := mem[p := Header(mem[block].next, mem[p].num + mem[block].num)];
      } else {
        mem := mem[p := Header(At(block), mem[p].num)];
      }
      LinkPreviousIs(LinkBlock(old(mem), p, b), p, block);
    }

    /**
     FreeList_Free on live block i: the block goes to its place in address order, joined with
     the neighbours it touches; no memory and no other live block is lost or gained.
     */
    method Free(ptr: Ptr, ghost i: nat)
      requires Core() && i < |live| && ptr == At(live[i].addr + 1)
      modifies `mem, `freeList, `cur, `free, `live
      ensures Core()
      ensures live == Without(old(live), i)
      ensures free == Insert(old(free), Rank(old(free), ptr.addr - 1), old(live[i]))
      ensures Total(free) + Total(live) == old(Total(free) + Total(live))
    {
      hide Rank, Insert, Without, Before, Total, Consistent, LinkPrevious, LinkBlock;
      var block := ptr.addr - 1;
      ghost var b := live[i];
      ghost var j := Rank(free, block);
      LiveHasSlot(mem, free, live, owned, root, i);
      FreeKeeps(mem, free, live, owned, root, i);
      FreeTotal(free, j, live, i);
      PartsFit(mem, free, live, owned, root, i);
      var p := FindPrevious(block, b);
      PreviousStays(mem, free, j, b);
      LinkIn(block, p, b);
      freeList := At(p);
      cur := PreviousAfter(free, j, b);
      free := Insert(free, j, b);
      live := Without(live, i);
    }

    /** Ask sbrk for ever less until it agrees or less than the request was refused. */
    method Retry(units: nat) returns (p: Ptr, bytes: nat)
      requires sbrk != null && 1 <= units < WORD / HEADER_SIZE
      modifies sbrk
      ensures p.Null? ==> sbrk.granted == old(sbrk.granted)
      ensures p.Null? ==> exists d :: GaveUpAfter(units, d) && sbrk.asked == old(sbrk.asked) + Asks(units, d)
      ensures p.At? ==> bytes % HEADER_SIZE == 0
      ensures p.At? ==> Granted(sbrk.avoid, old(sbrk.granted), old(sbrk.remaining), bytes, p,
                                sbrk.granted, sbrk.remaining)
    {
      hide Ask, Bytes;
      var blocks := units;
      if blocks < MIN_GROWTH {
        blocks := MIN_GROWTH;
      }
      var divider := 1;
      while true
        invariant 1 <= divider && blocks == Growth(units)
        invariant sbrk.granted == old(sbrk.granted) && sbrk.remaining == old(sbrk.remaining)
        invariant sbrk.asked == old(sbrk.asked) + Asks(units, divider - 1)
        invariant forall k | 1 <= k < divider :: Ask(units, k) >= Bytes(units)
        decreases blocks + 1 - divider
      {
        bytes := Bytes(blocks / divider);
        assert bytes == Ask(units, divider) by {
          AskIs(units, divider);
        }
        p := sbrk.Grow(bytes);
        divider := divider + 1;
        assert sbrk.asked == old(sbrk.asked) + Asks(units, divider - 1);
        if !(p.Null? && bytes >= Bytes(units)) {
          assert p.Null? ==> GaveUpAfter(units, divider - 1);
          BytesWhole(blocks / (divider - 1));
          return;
        }
        RetryBound(units, divider - 1);
      }
    }

    /** Extend the heap for a request and put the new memory on the free list. */
    method Extend(units: nat) returns (ok: bool)
      requires Core() && sbrk != null && 1 <= units < WORD / HEADER_SIZE
      requires heapSize == Bytes(Total(free) + Total(live))
      modifies this, sbrk
      ensures Core() && heapSize == Bytes(Total(free) + Total(live))
      ensures live == old(live) && old(owned) <= owned
      ensures !ok ==> free == old(free) && owned == old(owned)
      ensures !ok ==> exists d :: GaveUpAfter(units, d) && sbrk.asked == old(sbrk.asked) + Asks(units, d)
      ensures ok ==> sbrk.remaining < old(sbrk.remaining)
    {
      hide Consistent, Bytes, Total, Without, Granted, GaveUpAfter, Asks;
      var p, bytes := Retry(units);
      if p.Null? {
        return false;
      }
      ghost var b := Block(p.addr, bytes / HEADER_SIZE);
      GrantedIs(sbrk.avoid, old(sbrk.granted), old(sbrk.remaining), bytes, p, sbrk.granted, sbrk.remaining);
      GrowKeeps(mem, free, live, owned, root, b);
      AppendTotal(live, b);
      BytesAdd(Total(free) + Total(live), bytes);
      mem := mem[p.addr := Header(Null, bytes / HEADER_SIZE)];
      live, owned := live + [b], owned + Region(b);
      Free(At(p.addr + 1), |live| - 1);
      WithoutLast(old(live), b);
      heapSize := (heapSize + bytes) % WORD;
      return true;
    }

    /** First call: the empty root block becomes the whole circular list. */
    method SetUpRoot()
      requires Valid() && freeList.Null?
      modifies `mem, `freeList, `free, `cur
      ensures Core() && Total(free) + Total(live) == old(Total(free) + Total(live))
    {
      hide Consistent;
      mem := mem[root := Header(At(root), 0)];
      freeList := At(root);
      cur, free := 0, [Block(root, 0)];
      TotalOne(free[0]);
      RootAlone(mem, owned, root);
    }

    /** Take a request from the block after position i, from its end or as a whole. */
    method Take(prev: int, p: int, units: nat, ghost i: nat) returns (ptr: Ptr)
      requires Core() && i < |free| && prev == free[i].addr && p == free[Next(free, i)].addr
      requires 0 < units <= free[Next(free, i)].n && p in mem && mem[p].num >= units
      modifies `mem, `freeList, `free, `live, `cur
      ensures Core()
      ensures free == BlockList.Take(old(free), Next(old(free), i), units)
      ensures live == old(live) + [Tail(old(free), Next(old(free), i), units)]
      ensures ptr == At(Tail(old(free), Next(old(free), i), units).addr + 1)
      ensures Total(free) + Total(live) == old(Total(free) + Total(live))
    {
      hide Consistent, Total, BlockList.Take;
      ghost var t := Next(free, i);
      var junk: Ptr := *;
      TakeKeeps(mem, free, live, owned, root, i, units, junk);
      TakeTotal(free, t, units);
      AppendTotal(live, Tail(free, t, units));
      PreviousRemains(free, i, units);
      var q := p;
      if mem[p].num == units {
        mem := mem[prev := Header(mem[p].next, mem[prev].num)];
      } else {
        mem := mem[p := Header(mem[p].next, mem[p].num - units)];
        q := p + mem[p].num;
        mem := mem[q := Header(junk, units)];
      }
      assert mem == Unlink(old(mem), prev, p, units, junk);
      freeList := At(prev);
      cur := if free[t].n == units && t < i then i - 1 else i;
      live := live + [Tail(free, t, units)];
      free := BlockList.Take(free, t, units);
      return At(q + 1);
    }

    /** The search has passed t blocks that are too small and is about to look at p. */
    ghost predicate Searching(prev: int, p: int, t: nat, units: nat)
      reads `free, `cur
    {
      && t < |free| && cur < |free|
      && prev == free[Around(free, cur + t)].addr && p == free[Around(free, cur + t + 1)].addr
      && SeenTooSmall(free, cur, t, units)
    }

    lemma SearchBegins(units: nat)
      requires Core()
      ensures freeList.addr in mem && mem[freeList.addr].next.At?
      ensures Searching(freeList.addr, mem[freeList.addr].next.addr, 0, units)
    {
      NextInMemory(mem, free, live, owned, root, cur);
      NothingSeen(free, cur, units);
    }

    lemma SearchAt(prev: int, p: int, t: nat, units: nat)
      requires Core() && Searching(prev, p, t, units)
      ensures t < |free| && p in mem && mem[p].next.At?
      ensures p == free[Next(free, Around(free, cur + t))].addr && mem[p].num == free[Next(free, Around(free, cur + t))].n
    {
      hide Consistent, SeenTooSmall;
      NextInMemory(mem, free, live, owned, root, Next(free, Around(free, cur + t)));
    }

    /** One more block was too small: the search goes on, or has seen all of them. */
    lemma SearchOn(prev: int, p: int, t: nat, units: nat)
      requires Core() && Searching(prev, p, t, units) && p in mem && mem[p].next.At? && mem[p].num < units
      ensures p == freeList.addr ==> AllSmall(free, units)
      ensures p != freeList.addr ==> t + 1 < |free| && Searching(p, mem[p].next.addr, t + 1, units)
    {
      hide Consistent, SeenTooSmall, AllSmall;
      SearchAt(prev, p, t, units);
      NextInMemory(mem, free, live, owned, root, Next(free, Around(free, cur + t)));
      SeeOneMore(free, cur, t, units);
      if p == freeList.addr {
        AllTooSmall(mem, free, live, owned, root, cur, t, units);
      }
    }

    /** The end of a successful search. */
    method TakeFit(prev: int, p: int, units: nat, ghost t: nat) returns (ptr: Ptr)
      requires Core() && Searching(prev, p, t, units) && p == free[Next(free, Around(free, cur + t))].addr
      requires 0 < units && p in mem && mem[p].num >= units && mem[p].num == free[Next(free, Around(free, cur + t))].n
      modifies `mem, `freeList, `free, `live, `cur
      ensures Core() && ptr.At? && Total(free) + Total(live) == old(Total(free) + Total(live))
      ensures live == old(live) + [Block(ptr.addr - 1, units)]
      ensures forall u | Covers(Block(ptr.addr - 1, units), u) :: u in owned && !Held(old(live), u)
      ensures NextFit(old(free), old(cur), units, free, Block(ptr.addr - 1, units))
    {
      hide Consistent, Total, BlockList.Take, SeenTooSmall, Sourced, Held, NextFit;
      ghost var i := Around(free, cur + t);
      TailIsNew(mem, free, live, owned, root, Next(free, i), units);
      ghost var b := Tail(free, Next(free, i), units);
      IsNextFit(free, cur, t, units, BlockList.Take(free, Next(free, i), units), b);
      ptr := Take(prev, p, units, i);
      assert b == Block(ptr.addr - 1, units);
    }

    /**
     FreeList_Alloc: the first block that is large enough, searched once around from where the
     last call stopped and again each time the heap grows. It always ends, asks sbrk for nothing
     as long as a free block is large enough, and fails only when none is and sbrk refused even
     less than the request.
     */
    method Alloc(size: nat) returns (ptr: Ptr)
      requires Valid() && size < WORD && Units(size) < WORD / HEADER_SIZE
      modifies this, sbrk
      ensures Valid() && old(owned) <= owned
      ensures ptr.At? ==> live == old(live) + [Block(ptr.addr - 1, Units(size))]
      ensures ptr.At? ==> forall u | Covers(Block(ptr.addr - 1, Units(size)), u) ::
                            u in owned && !Held(old(live), u)
      ensures ptr.Null? ==> live == old(live)
      ensures ptr.Null? ==> AllSmall(free, Units(size))
      ensures !AllSmall(old(free), Units(size)) ==>
                && ptr.At? && owned == old(owned)
                && NextFit(old(free), old(cur), Units(size), free, Block(ptr.addr - 1, Units(size)))
      ensures ptr.Null? && sbrk != null ==>
                exists d, before :: GaveUpAfter(Units(size), d) && sbrk.asked == before + Asks(Units(size), d)
    {
      hide Consistent, Total, Bytes, Units, BlockList.Take, GaveUpAfter, Asks, Searching, Around, Sourced, Held, AllSmall, NextFit;
      var units := Units(size);
      NoneFits(units);
      if freeList.Null? {
        SetUpRoot();
      }
      ghost var t := 0;
      SearchBegins(units);
      var prev := freeList.addr;
      var p := mem[prev].next.addr;
      while true
        invariant Core() && live == old(live) && old(owned) <= owned
        invariant heapSize == Bytes(Total(free) + Total(live))
        invariant Searching(prev, p, t, units)
        invariant AllSmall(old(free), units) || (free == old(free) && cur == old(cur) && owned == old(owned))
        decreases if sbrk == null then 0 else sbrk.remaining, |free| - t
      {
        SearchAt(prev, p, t, units);
        if mem[p].num >= units {
          ptr := TakeFit(prev, p, units, t);
          return;
        }
        SearchOn(prev, p, t, units);
        if p == freeList.addr {
          if sbrk == null {
            return Null;
          }
          var ok := Extend(units);
          if !ok {
            return Null;
          }
          t := 0;
          SearchBegins(units);
          prev := freeList.addr;
          p := mem[prev].next.addr;
        } else {
          t := t + 1;
          prev := p;
          p := mem[p].next.addr;
        }
      }
    }
  }

  // ---- what follows for whole runs ------------------------------------------------------

  /** What was obtained from sbrk and is not live. */
  ghost function Idle(owned: set<int>, live: seq<Block>): set<int> {
    set u | u in owned && !Held(live, u)
  }

  /**
   The free blocks are exactly the maximal stretches of memory that is not live; once
   everything was freed, they are the maximal stretches obtained from sbrk.
   */
  lemma FreeBlocksAreMaximal(mem: Memory, free: seq<Block>, live: seq<Block>, owned: set<int>, root: int, b: Block)
    requires Consistent(mem, free, live, owned, root) && b.n > 0
    ensures b in free <==> MaximalRun(Idle(owned, live), b)
    ensures live == [] ==> Idle(owned, live) == owned
  {
    var idle := Idle(owned, live);
    assert forall u :: u in idle <==> Held(free, u);
    if b in free {
      var i :| 0 <= i < |free| && free[i] == b;
      TidyBlocksAreMaximal(free, idle, i);
    }
    if MaximalRun(idle, b) {
      assert Covers(b, b.addr);
      var i :| 0 <= i < |free| && Covers(free[i], b.addr);
      TidyBlocksAreMaximal(free, idle, i);
      SameRun(idle, free[i], b);
    }
  }

  /** Two maximal stretches that meet are the same. */
  lemma SameRun(owned: set<int>, a: Block, b: Block)
    requires MaximalRun(owned, a) && MaximalRun(owned, b) && Covers(a, b.addr)
    ensures a == b
  {
    assert Covers(a, b.addr - 1) ==> b.addr - 1 in owned;
    assert Covers(a, b.addr + b.n) ==> b.addr + b.n in owned;
    assert Covers(b, a.addr + a.n) ==> a.addr + a.n in owned;
  }
}
