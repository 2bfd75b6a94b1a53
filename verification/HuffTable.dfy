/**
 The decoding tables of tinfl: a 1024 entry table indexed by the next ten stream bits and an
 overflow tree for longer codes.  A positive look_up entry holds length * 512 + symbol, a
 negative entry -(2j + 1) points at tree node j, whose two children are m_tree[2j] and
 m_tree[2j + 1]; a non-negative m_tree entry is a symbol.
 */
module HuffTable {
  import opened Bits
  import opened Huffman

  const LOOKUP_SIZE: nat := 1024
  const TREE_SIZE: nat := 576
  const MAX_SYMBOLS: nat := 288

  /** Table index of ten stream bits. */
  function Index(b: seq<bool>): (i: nat)
    requires |b| == 10
    ensures i < LOOKUP_SIZE
  {
    Pow2Ten();
    Value(b)
  }

  lemma Pow2Ten()
    ensures Pow2(10) == 1024 && Pow2(9) == 512
  {
    assert Pow2(5) == 32 && Pow2(4) == 16;
    Pow2Add(5, 5);
    Pow2Add(5, 4);
  }

  // ---- what the tables mean -------------------------------------------------

  /** p is a proper prefix of the code of s. */
  ghost predicate Inside(lens: CodeLengths, p: seq<bool>, s: nat) {
    Used(lens, s) && |p| < lens[s] && p <= Code(lens, s)
  }

  ghost predicate Inner(lens: CodeLengths, p: seq<bool>) {
    exists s: nat :: Inside(lens, p, s)
  }

  ghost predicate InnerBefore(lens: CodeLengths, k: nat, p: seq<bool>) {
    exists s: nat | s < k :: Inside(lens, p, s)
  }

  /** Entry e points at the node that stands for the bit string p. */
  ghost predicate PointsAt(nodes: seq<seq<bool>>, e: int, p: seq<bool>) {
    e < 0 && (-e - 1) % 2 == 0 && (-e - 1) / 2 < |nodes| && nodes[(-e - 1) / 2] == p
  }

  /** None of the first k symbols has a code comparable with p. */
  ghost predicate Untouched(lens: CodeLengths, k: nat, p: seq<bool>) {
    forall s: nat | s < k && Used(lens, s) :: !(Code(lens, s) <= p) && !(p <= Code(lens, s))
  }

  ghost predicate LookEntryOk(lens: CodeLengths, k: nat, nodes: seq<seq<bool>>, e: int, b: seq<bool>) {
    if e == 0 then Untouched(lens, k, b) && b !in nodes
    else if e < 0 then PointsAt(nodes, e, b)
    else e % 512 < k && Used(lens, e % 512) && e / 512 == lens[e % 512] && Code(lens, e % 512) <= b
  }

  ghost predicate TreeEntryOk(lens: CodeLengths, k: nat, nodes: seq<seq<bool>>, e: int, p: seq<bool>) {
    || PointsAt(nodes, e, p)
    || (e == 0 && Untouched(lens, k, p) && p !in nodes)
    || (0 <= e < k && Used(lens, e) && Code(lens, e) == p)
  }

  /** The bit string that m_tree[i] stands for. */
  ghost function ChildPath(nodes: seq<seq<bool>>, i: nat): seq<bool>
    requires i < 2 * |nodes|
  {
    nodes[i / 2] + [i % 2 == 1]
  }

  ghost predicate LookOk(lens: CodeLengths, k: nat, nodes: seq<seq<bool>>, look: seq<int>) {
    && |look| == LOOKUP_SIZE
    && forall b: seq<bool> | |b| == 10 :: LookEntryOk(lens, k, nodes, look[Index(b)], b)
  }

  ghost predicate TreeOk(lens: CodeLengths, k: nat, nodes: seq<seq<bool>>, tree: seq<int>) {
    && |tree| == TREE_SIZE
    && 2 * |nodes| <= TREE_SIZE
    && (forall i | 0 <= i < 2 * |nodes| :: TreeEntryOk(lens, k, nodes, tree[i], ChildPath(nodes, i)))
    && (forall i | 2 * |nodes| <= i < TREE_SIZE :: tree[i] == 0)
  }

  ghost predicate Distinct(nodes: seq<seq<bool>>) {
    forall i, j | 0 <= i < j < |nodes| :: nodes[i] != nodes[j]
  }

  /** Every node lies inside the code of one of the first k symbols or on the current path. */
  ghost predicate NodesOk(lens: CodeLengths, k: nat, nodes: seq<seq<bool>>, path: seq<bool>) {
    && Distinct(nodes)
    && forall j | 0 <= j < |nodes| ::
         |nodes[j]| >= 10 && (nodes[j] <= path || InnerBefore(lens, k, nodes[j]))
  }

  /** The tables after the first k symbols, with path the nodes opened for symbol k so far. */
  ghost predicate Partial(lens: CodeLengths, k: nat, nodes: seq<seq<bool>>, path: seq<bool>,
                          look: seq<int>, tree: seq<int>) {
    LookOk(lens, k, nodes, look) && TreeOk(lens, k, nodes, tree) && NodesOk(lens, k, nodes, path)
  }

  /** The finished tables of a complete code. */
  ghost predicate TableFor(lens: CodeLengths, nodes: seq<seq<bool>>, look: seq<int>, tree: seq<int>) {
    Complete(lens) && |lens| <= MAX_SYMBOLS && Partial(lens, |lens|, nodes, [], look, tree)
  }

  // ---- the node bound -------------------------------------------------------

  ghost predicate LeafOf(lens: CodeLengths, p: seq<bool>, t: nat) {
    Used(lens, t) && lens[t] > |p| && Code(lens, t) == p + [true] + Zeros(lens[t] - |p| - 1)
  }

  /** The leftmost code below the right child of an inner node. */
  lemma RightLeaf(lens: CodeLengths, p: seq<bool>, s: nat) returns (t: nat)
    requires Complete(lens) && Inside(lens, p, s)
    ensures LeafOf(lens, p, t)
  {
    var w := p + [true] + Zeros(15);
    t := Covering(lens, w);
    if lens[t] <= |p| {
      assert Code(lens, t) <= p;
      PrefixFree(lens, t, s);
      assert false;
    }
    assert Code(lens, t) == w[..lens[t]];
  }

  lemma RightLeafInjective(p: seq<bool>, q: seq<bool>, m: nat, n: nat)
    requires p + [true] + Zeros(m) == q + [true] + Zeros(n)
    ensures p == q
  {
    var w := p + [true] + Zeros(m);
    assert w[|p|] && w[|q|];
    assert forall i | |p| < i < |w| :: !w[i];
    assert forall i | |q| < i < |w| :: !(q + [true] + Zeros(n))[i];
    assert |p| == |q|;
    assert p == w[..|p|] && q == w[..|q|];
  }

  lemma {:induction false} NodeLeaves(lens: CodeLengths, nodes: seq<seq<bool>>) returns (leaves: seq<nat>)
    requires Complete(lens) && Distinct(nodes)
    requires forall j | 0 <= j < |nodes| :: Inner(lens, nodes[j])
    ensures |leaves| == |nodes|
    ensures forall j | 0 <= j < |nodes| :: LeafOf(lens, nodes[j], leaves[j])
  {
    if nodes == [] {
      leaves := [];
    } else {
      var last := nodes[|nodes| - 1];
      var init := nodes[..|nodes| - 1];
      assert forall j | 0 <= j < |init| :: init[j] == nodes[j];
      var rest := NodeLeaves(lens, init);
      var s :| Inside(lens, last, s);
      var t := RightLeaf(lens, last, s);
      leaves := rest + [t];
    }
  }

  lemma {:induction false} DistinctBelow(xs: seq<nat>, n: nat)
    requires forall i | 0 <= i < |xs| :: xs[i] < n
    requires forall i, j | 0 <= i < j < |xs| :: xs[i] != xs[j]
    ensures |xs| <= n
    decreases n
  {
    if xs != [] {
      assert xs[0] < n;
      var top: nat := n - 1;
      if top in xs {
        var i :| 0 <= i < |xs| && xs[i] == top;
        var rest := xs[..i] + xs[i + 1..];
        assert forall j | 0 <= j < |rest| :: rest[j] == xs[if j < i then j else j + 1];
        DistinctBelow(rest, top);
      } else {
        DistinctBelow(xs, top);
      }
    }
  }

  /** A complete code over n symbols has at most n inner nodes, so m_tree never overflows. */
  lemma NodeBound(lens: CodeLengths, nodes: seq<seq<bool>>)
    requires Complete(lens) && Distinct(nodes)
    requires forall j | 0 <= j < |nodes| :: Inner(lens, nodes[j])
    ensures |nodes| <= |lens|
  {
    var leaves := NodeLeaves(lens, nodes);
    forall i, j | 0 <= i < j < |leaves|
      ensures leaves[i] != leaves[j]
    {
      if leaves[i] == leaves[j] {
        RightLeafInjective(nodes[i], nodes[j],
          lens[leaves[i]] - |nodes[i]| - 1, lens[leaves[j]] - |nodes[j]| - 1);
      }
    }
    DistinctBelow(leaves, |lens|);
  }

  // ---- filling the tables ---------------------------------------------------

  lemma CompleteClash(lens: CodeLengths, s: nat, t: nat, p: seq<bool>)
    requires Complete(lens) && Used(lens, s) && Inside(lens, p, t)
    ensures !(Code(lens, s) <= p)
  {
    if Code(lens, s) <= p {
      PrefixFree(lens, s, t);
      assert false;
    }
  }

  /** An entry still zero stays right when symbol k is added, unless it is k's own. */
  lemma LookEntryNext(lens: CodeLengths, k: nat, nodes: seq<seq<bool>>, e: int, b: seq<bool>)
    requires LookEntryOk(lens, k, nodes, e, b)
    requires e == 0 && Used(lens, k) ==> !(Code(lens, k) <= b) && !(b <= Code(lens, k))
    ensures LookEntryOk(lens, k + 1, nodes, e, b)
  {
  }

  lemma TreeEntryNext(lens: CodeLengths, k: nat, nodes: seq<seq<bool>>, e: int, p: seq<bool>)
    requires TreeEntryOk(lens, k, nodes, e, p)
    requires e == 0 && Used(lens, k) ==> !(Code(lens, k) <= p) && !(p <= Code(lens, k))
    ensures TreeEntryOk(lens, k + 1, nodes, e, p)
  {
  }

  lemma NodesNext(lens: CodeLengths, k: nat, nodes: seq<seq<bool>>, path: seq<bool>)
    requires NodesOk(lens, k, nodes, path)
    requires path == [] || Inside(lens, path, k)
    ensures NodesOk(lens, k + 1, nodes, [])
  {
    forall j | 0 <= j < |nodes|
      ensures |nodes[j]| >= 10 && InnerBefore(lens, k + 1, nodes[j])
    {
      if nodes[j] <= path {
        assert Inside(lens, nodes[j], k);
      } else {
        var t: nat :| t < k && Inside(lens, nodes[j], t);
      }
    }
  }

  /** Skipping an unused symbol changes nothing. */
  lemma SkipSymbol(lens: CodeLengths, k: nat, nodes: seq<seq<bool>>, look: seq<int>, tree: seq<int>)
    requires Partial(lens, k, nodes, [], look, tree)
    requires !Used(lens, k)
    ensures Partial(lens, k + 1, nodes, [], look, tree)
  {
    forall b: seq<bool> | |b| == 10
      ensures LookEntryOk(lens, k + 1, nodes, look[Index(b)], b)
    {
      LookEntryNext(lens, k, nodes, look[Index(b)], b);
    }
    forall i | 0 <= i < 2 * |nodes|
      ensures TreeEntryOk(lens, k + 1, nodes, tree[i], ChildPath(nodes, i))
    {
      TreeEntryNext(lens, k, nodes, tree[i], ChildPath(nodes, i));
    }
    NodesNext(lens, k, nodes, []);
  }

  /** A code is never a prefix of, nor inside, the path to a child it did not create. */
  lemma NewCodeApart(lens: CodeLengths, k: nat, nodes: seq<seq<bool>>, i: nat)
    requires Complete(lens) && NodesOk(lens, k, nodes, [])
    requires Used(lens, k) && i < 2 * |nodes|
    ensures Code(lens, k) <= ChildPath(nodes, i) ==> Code(lens, k) == ChildPath(nodes, i)
  {
    var p := nodes[i / 2];
    assert p != [];
    var t: nat :| t < k && Inside(lens, p, t);
    CompleteClash(lens, k, t, p);
    var q := ChildPath(nodes, i);
    assert q[..|p|] == p;
  }

  /** A short code fills every lookup entry that starts with it. */
  lemma ShortSymbol(lens: CodeLengths, k: nat, nodes: seq<seq<bool>>, look: seq<int>, look': seq<int>, tree: seq<int>)
    requires Complete(lens) && Partial(lens, k, nodes, [], look, tree)
    requires k <= 511 && Used(lens, k) && lens[k] <= 10
    requires |look'| == LOOKUP_SIZE
    requires forall b: seq<bool> | |b| == 10 ::
               look'[Index(b)] == if Code(lens, k) <= b then lens[k] * 512 + k else look[Index(b)]
    ensures Partial(lens, k + 1, nodes, [], look', tree)
  {
    var c := Code(lens, k);
    forall b: seq<bool> | |b| == 10
      ensures LookEntryOk(lens, k + 1, nodes, look'[Index(b)], b)
    {
      if c <= b {
        DivModUnique(look'[Index(b)], 512, lens[k], k);
      } else {
        assert b <= c ==> b == c;
        LookEntryNext(lens, k, nodes, look[Index(b)], b);
      }
    }
    forall i | 0 <= i < 2 * |nodes|
      ensures TreeEntryOk(lens, k + 1, nodes, tree[i], ChildPath(nodes, i))
    {
      NewCodeApart(lens, k, nodes, i);
      TreeEntryNext(lens, k, nodes, tree[i], ChildPath(nodes, i));
    }
    NodesNext(lens, k, nodes, []);
  }

  lemma EntriesGrow(lens: CodeLengths, k: nat, nodes: seq<seq<bool>>, p: seq<bool>, e: int, q: seq<bool>)
    requires e == 0 ==> q != p
    ensures LookEntryOk(lens, k, nodes, e, q) ==> LookEntryOk(lens, k, nodes + [p], e, q)
    ensures TreeEntryOk(lens, k, nodes, e, q) ==> TreeEntryOk(lens, k, nodes + [p], e, q)
  {
    assert forall j | 0 <= j < |nodes| :: (nodes + [p])[j] == nodes[j];
    assert q in nodes + [p] ==> q in nodes || q == p;
  }

  lemma ChildPathInjective(nodes: seq<seq<bool>>, i: nat, j: nat)
    requires Distinct(nodes) && i < 2 * |nodes| && j < 2 * |nodes|
    requires ChildPath(nodes, i) == ChildPath(nodes, j)
    ensures i == j
  {
    var p, q := ChildPath(nodes, i), ChildPath(nodes, j);
    assert p[..|p| - 1] == nodes[i / 2] && q[..|q| - 1] == nodes[j / 2];
    assert p[|p| - 1] == (i % 2 == 1) && q[|q| - 1] == (j % 2 == 1);
  }

  /** Adding a node that no earlier code touches keeps the node list in order. */
  lemma NodesGrow(lens: CodeLengths, k: nat, nodes: seq<seq<bool>>, path: seq<bool>, p: seq<bool>)
    requires Complete(lens) && |lens| <= MAX_SYMBOLS
    requires NodesOk(lens, k, nodes, path) && Inside(lens, p, k)
    requires path < p && |p| >= 10 && p !in nodes
    ensures NodesOk(lens, k, nodes + [p], p)
    ensures |nodes| + 1 <= MAX_SYMBOLS
  {
    var nodes' := nodes + [p];
    forall j | 0 <= j < |nodes'|
      ensures Inner(lens, nodes'[j])
    {
      if j == |nodes| || nodes[j] <= path {
        assert Inside(lens, nodes'[j], k);
      } else {
        var t: nat :| t < k && Inside(lens, nodes[j], t);
      }
    }
    NodeBound(lens, nodes');
  }

  /** The two children of a node just opened are empty. */
  lemma FreshChildren(lens: CodeLengths, k: nat, nodes: seq<seq<bool>>, path: seq<bool>, p: seq<bool>, b: bool)
    requires NodesOk(lens, k, nodes, path) && path < p && Untouched(lens, k, p)
    ensures TreeEntryOk(lens, k, nodes + [p], 0, p + [b])
  {
    var q := p + [b];
    forall s: nat | s < k && Used(lens, s)
      ensures !(Code(lens, s) <= q) && !(q <= Code(lens, s))
    {
      assert p == q[..|p|];
    }
    forall j | 0 <= j < |nodes|
      ensures nodes[j] != q
    {
      if !(nodes[j] <= path) {
        var t: nat :| t < k && Inside(lens, nodes[j], t);
        assert !(p <= Code(lens, t));
        assert !(p <= nodes[j]);
      }
    }
  }

  /** Opening a node in the lookup table for a code longer than ten bits. */
  lemma OpenLookNode(lens: CodeLengths, k: nat, nodes: seq<seq<bool>>, look: seq<int>, tree: seq<int>)
    requires Complete(lens) && |lens| <= MAX_SYMBOLS && Partial(lens, k, nodes, [], look, tree)
    requires Used(lens, k) && lens[k] > 10 && look[Index(Code(lens, k)[..10])] == 0
    ensures Partial(lens, k, nodes + [Code(lens, k)[..10]], Code(lens, k)[..10],
                    look[Index(Code(lens, k)[..10]) := -2 * |nodes| - 1], tree)
  {
    var p := Code(lens, k)[..10];
    var e := -2 * |nodes| - 1;
    var nodes', look' := nodes + [p], look[Index(p) := e];
    assert LookEntryOk(lens, k, nodes, look[Index(p)], p);
    NodesGrow(lens, k, nodes, [], p);
    forall b: seq<bool> | |b| == 10
      ensures LookEntryOk(lens, k, nodes', look'[Index(b)], b)
    {
      if b == p {
        assert PointsAt(nodes', e, p);
      } else {
        ValueInjectiveContra(b, p);
        EntriesGrow(lens, k, nodes, p, look[Index(b)], b);
      }
    }
    forall i | 0 <= i < 2 * |nodes'|
      ensures TreeEntryOk(lens, k, nodes', tree[i], ChildPath(nodes', i))
    {
      if i < 2 * |nodes| {
        assert ChildPath(nodes', i) == ChildPath(nodes, i);
        assert |ChildPath(nodes, i)| > 10;
        EntriesGrow(lens, k, nodes, p, tree[i], ChildPath(nodes, i));
      } else {
        FreshChildren(lens, k, nodes, [], p, i % 2 == 1);
      }
    }
  }

  lemma ValueInjectiveContra(a: seq<bool>, b: seq<bool>)
    requires |a| == |b| && a != b
    ensures Value(a) != Value(b)
  {
    if Value(a) == Value(b) {
      ValueInjective(a, b);
    }
  }

  /** Opening a node one level further down the tree. */
  lemma OpenTreeNode(lens: CodeLengths, k: nat, nodes: seq<seq<bool>>, d: nat, look: seq<int>, tree: seq<int>, i: nat)
    requires Complete(lens) && |lens| <= MAX_SYMBOLS
    requires Used(lens, k) && 10 <= d && d + 1 < lens[k]
    requires Partial(lens, k, nodes, Code(lens, k)[..d], look, tree)
    requires i < 2 * |nodes| && ChildPath(nodes, i) == Code(lens, k)[..d + 1] && tree[i] == 0
    ensures Partial(lens, k, nodes + [Code(lens, k)[..d + 1]], Code(lens, k)[..d + 1],
                    look, tree[i := -2 * |nodes| - 1])
  {
    var path, p := Code(lens, k)[..d], Code(lens, k)[..d + 1];
    var e := -2 * |nodes| - 1;
    var nodes', tree' := nodes + [p], tree[i := e];
    EmptyChild(lens, k, nodes, d, tree, i);
    NodesGrow(lens, k, nodes, path, p);
    forall b: seq<bool> | |b| == 10
      ensures LookEntryOk(lens, k, nodes', look[Index(b)], b)
    {
      EntriesGrow(lens, k, nodes, p, look[Index(b)], b);
    }
    forall j | 0 <= j < 2 * |nodes'|
      ensures TreeEntryOk(lens, k, nodes', tree'[j], ChildPath(nodes', j))
    {
      if j == i {
        assert PointsAt(nodes', e, p);
      } else if j < 2 * |nodes| {
        assert ChildPath(nodes', j) == ChildPath(nodes, j);
        if ChildPath(nodes, j) == p {
          ChildPathInjective(nodes, i, j);
        }
        EntriesGrow(lens, k, nodes, p, tree[j], ChildPath(nodes, j));
      } else {
        FreshChildren(lens, k, nodes, path, p, j % 2 == 1);
      }
    }
  }

  /** A zero child on the path of k's code is free, never the leaf of symbol 0. */
  lemma EmptyChild(lens: CodeLengths, k: nat, nodes: seq<seq<bool>>, d: nat, tree: seq<int>, i: nat)
    requires Complete(lens) && TreeOk(lens, k, nodes, tree)
    requires Used(lens, k) && d + 1 < lens[k]
    requires i < 2 * |nodes| && ChildPath(nodes, i) == Code(lens, k)[..d + 1]
    ensures tree[i] == 0 ==> Untouched(lens, k, Code(lens, k)[..d + 1]) && Code(lens, k)[..d + 1] !in nodes
    ensures tree[i] != 0 ==> PointsAt(nodes, tree[i], Code(lens, k)[..d + 1])
  {
    var p, e := Code(lens, k)[..d + 1], tree[i];
    assert TreeEntryOk(lens, k, nodes, e, p);
    if 0 <= e < k && Used(lens, e) && Code(lens, e) == p {
      PrefixFree(lens, e, k);
    }
  }

  /** A non-zero lookup entry on the path of a long code points at a node. */
  lemma UsedLookEntry(lens: CodeLengths, k: nat, nodes: seq<seq<bool>>, look: seq<int>)
    requires Complete(lens) && LookOk(lens, k, nodes, look)
    requires Used(lens, k) && lens[k] > 10 && look[Index(Code(lens, k)[..10])] != 0
    ensures PointsAt(nodes, look[Index(Code(lens, k)[..10])], Code(lens, k)[..10])
  {
    var p := Code(lens, k)[..10];
    var e := look[Index(p)];
    assert LookEntryOk(lens, k, nodes, e, p);
    if e > 0 {
      PrefixFree(lens, e % 512, k);
    }
  }

  /** All prefixes of c with 10 to d bits are nodes. */
  ghost predicate PathOpen(nodes: seq<seq<bool>>, c: seq<bool>, d: nat) {
    d <= |c| && forall e | 10 <= e <= d :: c[..e] in nodes
  }

  /** Writing the leaf completes symbol k. */
  lemma WriteLeaf(lens: CodeLengths, k: nat, nodes: seq<seq<bool>>, look: seq<int>, tree: seq<int>, i: nat)
    requires Complete(lens) && Used(lens, k) && lens[k] > 10
    requires Partial(lens, k, nodes, Code(lens, k)[..lens[k] - 1], look, tree)
    requires PathOpen(nodes, Code(lens, k), lens[k] - 1)
    requires i < 2 * |nodes| && ChildPath(nodes, i) == Code(lens, k)
    ensures Partial(lens, k + 1, nodes, [], look, tree[i := k])
  {
    var c := Code(lens, k);
    NodesNext(lens, k, nodes, c[..lens[k] - 1]);
    LookupsAfterLeaf(lens, k, nodes, look);
    forall j | 0 <= j < 2 * |nodes|
      ensures TreeEntryOk(lens, k + 1, nodes, tree[i := k][j], ChildPath(nodes, j))
    {
      if j != i {
        if tree[j] == 0 {
          OtherChild(lens, k, nodes, tree, i, j);
        }
        TreeEntryNext(lens, k, nodes, tree[j], ChildPath(nodes, j));
      }
    }
  }

  lemma LookupsAfterLeaf(lens: CodeLengths, k: nat, nodes: seq<seq<bool>>, look: seq<int>)
    requires Used(lens, k) && lens[k] > 10 && LookOk(lens, k, nodes, look)
    requires PathOpen(nodes, Code(lens, k), lens[k] - 1)
    ensures LookOk(lens, k + 1, nodes, look)
  {
    forall b: seq<bool> | |b| == 10
      ensures LookEntryOk(lens, k + 1, nodes, look[Index(b)], b)
    {
      assert b <= Code(lens, k) ==> b == Code(lens, k)[..10];
      LookEntryNext(lens, k, nodes, look[Index(b)], b);
    }
  }

  lemma OtherChild(lens: CodeLengths, k: nat, nodes: seq<seq<bool>>, tree: seq<int>, i: nat, j: nat)
    requires Complete(lens) && Used(lens, k) && lens[k] > 10
    requires NodesOk(lens, k + 1, nodes, []) && TreeOk(lens, k, nodes, tree)
    requires PathOpen(nodes, Code(lens, k), lens[k] - 1)
    requires i < 2 * |nodes| && ChildPath(nodes, i) == Code(lens, k)
    requires j < 2 * |nodes| && j != i && tree[j] == 0
    ensures !(Code(lens, k) <= ChildPath(nodes, j)) && !(ChildPath(nodes, j) <= Code(lens, k))
  {
    var c, q := Code(lens, k), ChildPath(nodes, j);
    assert TreeEntryOk(lens, k, nodes, 0, q);
    if c == q {
      ChildPathInjective(nodes, i, j);
      assert false;
    }
    if q <= c {
      assert q == c[..|q|];
      LeafOrFree(lens, k, nodes, q);
      assert false;
    }
    if c <= q {
      var p := nodes[j / 2];
      assert p == q[..|p|] && p != [];
      var t: nat :| t < k + 1 && Inside(lens, p, t);
      CompleteClash(lens, k, t, p);
    }
  }

  lemma LeafOrFree(lens: CodeLengths, k: nat, nodes: seq<seq<bool>>, q: seq<bool>)
    requires Complete(lens) && Used(lens, k) && q <= Code(lens, k) && q != Code(lens, k) && q in nodes
    ensures !TreeEntryOk(lens, k, nodes, 0, q)
  {
    if Used(lens, 0) && Code(lens, 0) == q {
      PrefixFree(lens, 0, k);
    }
  }

  // ---- construction ---------------------------------------------------------

  /** Number of symbols with a code length between 1 and l. */
  function UsedUpTo(lens: CodeLengths, l: nat): nat {
    if l == 0 then 0 else UsedUpTo(lens, l - 1) + Count(lens, l)
  }

  method CountLengths(lens: CodeLengths) returns (totalSyms: array<nat>)
    ensures fresh(totalSyms) && totalSyms.Length == 16
    ensures forall l {:trigger totalSyms[l]} | 0 <= l < 16 :: totalSyms[l] == Count(lens, l)
  {
    totalSyms := new nat[16](_ => 0);
    for i := 0 to |lens|
      invariant forall l | 0 <= l < 16 :: totalSyms[l] == Count(lens[..i], l)
    {
      totalSyms[lens[i]] := totalSyms[lens[i]] + 1;
      assert lens[..i + 1][..i] == lens[..i];
    }
    assert lens[..|lens|] == lens;
  }

  method FirstCodes(lens: CodeLengths) returns (nextCode: array<nat>, usedSyms: nat, total: nat)
    ensures fresh(nextCode) && nextCode.Length == 17
    ensures forall l {:trigger nextCode[l]} | 1 <= l <= 16 :: nextCode[l] == FirstCode(lens, l)
    ensures usedSyms == UsedUpTo(lens, MAX_CODE_LENGTH)
    ensures total == FirstCode(lens, MAX_CODE_LENGTH + 1)
  {
    var totalSyms := CountLengths(lens);
    nextCode := new nat[17](_ => 0);
    usedSyms, total := 0, 0;
    assert FirstCode(lens, 1) == 0;
    for i := 1 to MAX_CODE_LENGTH + 1
      invariant forall l {:trigger totalSyms[l]} | 0 <= l < 16 :: totalSyms[l] == Count(lens, l)
      invariant total == FirstCode(lens, i) && usedSyms == UsedUpTo(lens, i - 1)
      invariant forall l {:trigger nextCode[l]} | 1 <= l <= i :: nextCode[l] == FirstCode(lens, l)
    {
      usedSyms := usedSyms + totalSyms[i];
      total := (total + totalSyms[i]) * 2;
      nextCode[i + 1] := total;
      assert FirstCode(lens, i + 1) == 2 * (FirstCode(lens, i) + Count(lens, i));
    }
  }

  /** Codes are packed most significant bit first, the bit buffer is read from the other end. */
  method ReverseCode(code: nat, n: nat) returns (rev: nat)
    ensures rev == Value(MsbBits(code, n))
  {
    var cur, l := code, n;
    rev := 0;
    ghost var tail: seq<bool> := [];
    while l > 0
      invariant MsbBits(code, n) == MsbBits(cur, l) + tail
      invariant rev == Value(tail)
    {
      ghost var bit := cur % 2 == 1;
      assert ([bit] + tail)[1..] == tail;
      rev := rev * 2 + cur % 2;
      tail := [bit] + tail;
      cur, l := cur / 2, l - 1;
    }
    assert MsbBits(code, n) == tail;
  }

  lemma StartsWith(c: seq<bool>, b: seq<bool>)
    requires |c| <= 10 == |b|
    ensures c <= b <==> Index(b) % Pow2(|c|) == Value(c)
  {
    ValueSplit(b, |c|);
    var front := b[..|c|];
    assert c <= b <==> front == c;
    if Value(front) == Value(c) {
      ValueInjective(front, c);
    }
  }

  method InsertShort(lens: CodeLengths, k: nat, revCode: nat, look: array<int>)
    requires Complete(lens) && Used(lens, k) && lens[k] <= 10
    requires revCode == Value(Code(lens, k)) && look.Length == LOOKUP_SIZE
    modifies look
    ensures forall b: seq<bool> | |b| == 10 ::
              look[Index(b)] == if Code(lens, k) <= b then lens[k] * 512 + k else old(look[Index(b)])
  {
    var r, step := revCode, Pow2(lens[k]);
    var entry := lens[k] * 512 + k;
    SmallRemainder(r, step);
    while r < LOOKUP_SIZE
      invariant r % step == revCode
      invariant forall i | 0 <= i < LOOKUP_SIZE ::
                  look[i] == if i < r && i % step == revCode then entry else old(look[i])
    {
      look[r] := entry;
      StepKeepsRemainder(r, step);
      r := r + step;
    }
    forall b: seq<bool> | |b| == 10
      ensures look[Index(b)] == if Code(lens, k) <= b then lens[k] * 512 + k else old(look[Index(b)])
    {
      StartsWith(Code(lens, k), b);
    }
  }

  /** Nothing below the first hit has its remainder. */
  lemma SmallRemainder(r: nat, step: nat)
    requires r < step
    ensures r % step == r
    ensures forall i | 0 <= i < r :: i % step != r
  {
    forall i | 0 <= i <= r
      ensures i % step == i
    {
      DivModUnique(i, step, 0, i);
    }
  }

  lemma StepKeepsRemainder(r: nat, step: nat)
    requires step > 0
    ensures (r + step) % step == r % step
    ensures forall i | r < i < r + step :: i % step != r % step
  {
    DivModUnique(r + step, step, r / step + 1, r % step);
    forall i | r < i < r + step
      ensures i % step != r % step
    {
      if i % step == r % step {
        assert step * (i / step - r / step) == i - r by {
          assert step * (i / step - r / step) == step * (i / step) - step * (r / step);
        }
        SmallMultiple(step, i / step - r / step);
        assert false;
      }
    }
  }

  /** Finds or opens the node for the first ten bits of a long code. */
  method EnterTree(lens: CodeLengths, k: nat, revCode: nat, treeNext0: int, look: array<int>, tree: array<int>,
                   ghost nodes0: seq<seq<bool>>)
    returns (treeCur: int, treeNext: int, ghost nodes: seq<seq<bool>>)
    requires Complete(lens) && |lens| <= MAX_SYMBOLS && Used(lens, k) && lens[k] > 10
    requires look != tree && Partial(lens, k, nodes0, [], look[..], tree[..])
    requires revCode == Value(Code(lens, k)) && treeNext0 == -2 * |nodes0| - 1
    modifies look
    ensures Partial(lens, k, nodes, Code(lens, k)[..10], look[..], tree[..])
    ensures PointsAt(nodes, treeCur, Code(lens, k)[..10]) && treeNext == -2 * |nodes| - 1
  {
    ghost var p := Code(lens, k)[..10];
    nodes, treeNext := nodes0, treeNext0;
    Pow2Ten();
    ValueSplit(Code(lens, k), 10);
    treeCur := look[revCode % LOOKUP_SIZE];
    if treeCur == 0 {
      OpenLookNode(lens, k, nodes, look[..], tree[..]);
      look[revCode % LOOKUP_SIZE] := treeNext;
      nodes := nodes + [p];
      treeCur := treeNext;
      treeNext := treeNext - 2;
    } else {
      UsedLookEntry(lens, k, nodes, look[..]);
      WidenPath(lens, k, nodes, [], p);
    }
  }

  lemma WidenPath(lens: CodeLengths, k: nat, nodes: seq<seq<bool>>, path: seq<bool>, p: seq<bool>)
    requires NodesOk(lens, k, nodes, path) && path <= p
    ensures NodesOk(lens, k, nodes, p)
  {
  }

  /** Follows, or opens, the child for bit d of a long code. */
  method Descend(lens: CodeLengths, k: nat, ghost d: nat, treeCur0: int, treeNext0: int, look: array<int>,
                 tree: array<int>, ghost nodes0: seq<seq<bool>>)
    returns (treeCur: int, treeNext: int, ghost nodes: seq<seq<bool>>)
    requires Complete(lens) && |lens| <= MAX_SYMBOLS && Used(lens, k) && 10 <= d && d + 1 < lens[k]
    requires look != tree && Partial(lens, k, nodes0, Code(lens, k)[..d], look[..], tree[..])
    requires treeNext0 == -2 * |nodes0| - 1
    requires 0 <= -treeCur0 - 1 < 2 * |nodes0| && ChildPath(nodes0, -treeCur0 - 1) == Code(lens, k)[..d + 1]
    modifies tree
    ensures Partial(lens, k, nodes, Code(lens, k)[..d + 1], look[..], tree[..])
    ensures PointsAt(nodes, treeCur, Code(lens, k)[..d + 1]) && treeNext == -2 * |nodes| - 1
    ensures nodes0 <= nodes
  {
    ghost var i, p := -treeCur0 - 1, Code(lens, k)[..d + 1];
    nodes, treeNext := nodes0, treeNext0;
    EmptyChild(lens, k, nodes, d, tree[..], i);
    if tree[-treeCur0 - 1] == 0 {
      OpenTreeNode(lens, k, nodes, d, look[..], tree[..], i);
      tree[-treeCur0 - 1] := treeNext;
      nodes := nodes + [p];
      treeCur := treeNext;
      treeNext := treeNext - 2;
    } else {
      treeCur := tree[-treeCur0 - 1];
      WidenPath(lens, k, nodes, Code(lens, k)[..d], p);
    }
  }

  lemma PathGrows(nodes: seq<seq<bool>>, nodes': seq<seq<bool>>, c: seq<bool>, d: nat)
    requires PathOpen(nodes, c, d) && nodes <= nodes' && d < |c| && c[..d + 1] in nodes'
    ensures PathOpen(nodes', c, d + 1)
  {
    forall e | 10 <= e <= d + 1
      ensures c[..e] in nodes'
    {
      if e <= d {
        var j :| 0 <= j < |nodes| && nodes[j] == c[..e];
        assert nodes'[j] == c[..e];
      }
    }
  }

  /** The child slot the next reversed code bit selects. */
  lemma NextBit(c: seq<bool>, d: nat, nodes: seq<seq<bool>>, treeCur: int)
    requires 1 <= d < |c| && PointsAt(nodes, treeCur, c[..d])
    ensures Value(c[d - 1..]) / 2 == Value(c[d..])
    ensures 0 <= -(treeCur - Value(c[d..]) % 2) - 1 < 2 * |nodes|
    ensures ChildPath(nodes, -(treeCur - Value(c[d..]) % 2) - 1) == c[..d + 1]
  {
    assert c[d - 1..][1..] == c[d..] && c[d..][0] == c[d];
    assert c[..d + 1] == c[..d] + [c[d]];
  }

  /** Walks from the ten bit node to the parent of the new leaf. */
  method WalkDown(lens: CodeLengths, k: nat, revCode0: nat, treeCur0: int, treeNext0: int, look: array<int>,
                  tree: array<int>, ghost nodes0: seq<seq<bool>>)
    returns (treeCur: int, treeNext: int, revCode: nat, ghost nodes: seq<seq<bool>>)
    requires Complete(lens) && |lens| <= MAX_SYMBOLS && Used(lens, k) && lens[k] > 10
    requires look != tree && Partial(lens, k, nodes0, Code(lens, k)[..10], look[..], tree[..])
    requires PointsAt(nodes0, treeCur0, Code(lens, k)[..10]) && treeNext0 == -2 * |nodes0| - 1
    requires revCode0 == Value(Code(lens, k)[9..])
    modifies tree
    ensures Partial(lens, k, nodes, Code(lens, k)[..lens[k] - 1], look[..], tree[..])
    ensures PointsAt(nodes, treeCur, Code(lens, k)[..lens[k] - 1]) && treeNext == -2 * |nodes| - 1
    ensures PathOpen(nodes, Code(lens, k), lens[k] - 1)
    ensures revCode == Value(Code(lens, k)[lens[k] - 2..])
    ensures 2 * |nodes| <= TREE_SIZE
  {
    hide Partial;
    ghost var c := Code(lens, k);
    treeCur, treeNext, revCode, nodes := treeCur0, treeNext0, revCode0, nodes0;
    var j: int := lens[k];
    ghost var d: int := 10;
    while j > 11
      invariant 11 <= j <= lens[k] && j + d - 10 == lens[k]
      invariant Partial(lens, k, nodes, c[..d], look[..], tree[..])
      invariant PointsAt(nodes, treeCur, c[..d])
      invariant PathOpen(nodes, c, d)
      invariant treeNext == -2 * |nodes| - 1
      invariant revCode == Value(c[d - 1..])
    {
      NextBit(c, d, nodes, treeCur);
      revCode := revCode / 2;
      treeCur := treeCur - revCode % 2;
      ghost var before := nodes;
      treeCur, treeNext, nodes := Descend(lens, k, d, treeCur, treeNext, look, tree, nodes);
      PathGrows(before, nodes, c, d);
      j, d := j - 1, d + 1;
    }
    NodesFit(lens, k, nodes, c[..d], look[..], tree[..]);
  }

  lemma NodesFit(lens: CodeLengths, k: nat, nodes: seq<seq<bool>>, path: seq<bool>, look: seq<int>, tree: seq<int>)
    requires Partial(lens, k, nodes, path, look, tree)
    ensures 2 * |nodes| <= TREE_SIZE
  {
  }

  /** Opens the missing nodes on the path of a long code and writes its leaf. */
  method InsertLong(lens: CodeLengths, k: nat, revCode0: nat, treeNext0: int, look: array<int>, tree: array<int>,
                    ghost nodes0: seq<seq<bool>>)
    returns (treeNext: int, ghost nodes: seq<seq<bool>>)
    requires Complete(lens) && |lens| <= MAX_SYMBOLS && Used(lens, k) && lens[k] > 10
    requires look != tree && tree.Length == TREE_SIZE
    requires Partial(lens, k, nodes0, [], look[..], tree[..])
    requires revCode0 == Value(Code(lens, k)) && treeNext0 == -2 * |nodes0| - 1
    modifies look, tree
    ensures Partial(lens, k + 1, nodes, [], look[..], tree[..])
    ensures treeNext == -2 * |nodes| - 1
  {
    hide Partial, Value, Code, PathOpen, Complete;
    ghost var c := Code(lens, k);
    var treeCur, revCode;
    treeCur, treeNext, nodes := EnterTree(lens, k, revCode0, treeNext0, look, tree, nodes0);
    Pow2Ten();
    ValueSplit(c, 9);
    revCode := revCode0 / 512;
    treeCur, treeNext, revCode, nodes := WalkDown(lens, k, revCode, treeCur, treeNext, look, tree, nodes);
    NextBit(c, lens[k] - 1, nodes, treeCur);
    revCode := revCode / 2;
    treeCur := treeCur - revCode % 2;
    SetLeaf(lens, k, -treeCur - 1, look, tree, nodes);
  }

  method SetLeaf(lens: CodeLengths, k: nat, slot: nat, look: array<int>, tree: array<int>, ghost nodes: seq<seq<bool>>)
    requires Complete(lens) && Used(lens, k) && lens[k] > 10
    requires look != tree && tree.Length == TREE_SIZE && 2 * |nodes| <= TREE_SIZE
    requires Partial(lens, k, nodes, Code(lens, k)[..lens[k] - 1], look[..], tree[..])
    requires PathOpen(nodes, Code(lens, k), lens[k] - 1)
    requires slot < 2 * |nodes| && ChildPath(nodes, slot) == Code(lens, k)[..lens[k]]
    modifies tree
    ensures Partial(lens, k + 1, nodes, [], look[..], tree[..])
  {
    hide Partial;
    assert Code(lens, k)[..lens[k]] == Code(lens, k);
    WriteLeaf(lens, k, nodes, look[..], tree[..], slot);
    ghost var before := tree[..];
    tree[slot] := k;
    assert tree[..] == before[slot := k];
  }

  /** Empty tables for no symbols at all. */
  lemma EmptyTables(lens: CodeLengths, look: seq<int>, tree: seq<int>)
    requires |look| == LOOKUP_SIZE && |tree| == TREE_SIZE
    requires forall i | 0 <= i < LOOKUP_SIZE :: look[i] == 0
    requires forall i | 0 <= i < TREE_SIZE :: tree[i] == 0
    ensures Partial(lens, 0, [], [], look, tree)
  {
  }

  method ClearTables(look: array<int>, tree: array<int>)
    requires look != tree
    modifies look, tree
    ensures forall i | 0 <= i < look.Length :: look[i] == 0
    ensures forall i | 0 <= i < tree.Length :: tree[i] == 0
  {
    for i := 0 to look.Length
      invariant forall j | 0 <= j < i :: look[j] == 0
    {
      look[i] := 0;
    }
    for i := 0 to tree.Length
      invariant forall j | 0 <= j < i :: tree[j] == 0
      invariant forall j | 0 <= j < look.Length :: look[j] == 0
    {
      tree[i] := 0;
    }
  }

  /** Enters symbol k, whose code number is curCode, into the tables. */
  method InsertSymbol(lens: CodeLengths, k: nat, curCode: nat, treeNext0: int, look: array<int>, tree: array<int>,
                      ghost nodes0: seq<seq<bool>>)
    returns (treeNext: int, ghost nodes: seq<seq<bool>>)
    requires Complete(lens) && |lens| <= MAX_SYMBOLS && Used(lens, k) && curCode == CodeNumber(lens, k)
    requires look != tree && look.Length == LOOKUP_SIZE && tree.Length == TREE_SIZE
    requires Partial(lens, k, nodes0, [], look[..], tree[..])
    requires treeNext0 == -2 * |nodes0| - 1
    modifies look, tree
    ensures Partial(lens, k + 1, nodes, [], look[..], tree[..])
    ensures treeNext == -2 * |nodes| - 1
  {
    hide Partial;
    treeNext, nodes := treeNext0, nodes0;
    var revCode := ReverseCode(curCode, lens[k]);
    if lens[k] <= 10 {
      ghost var before := look[..];
      InsertShort(lens, k, revCode, look);
      ShortSymbol(lens, k, nodes, before, look[..], tree[..]);
    } else {
      treeNext, nodes := InsertLong(lens, k, revCode, treeNext, look, tree, nodes);
    }
  }

  /**
   Builds the decoding tables for one code, or refuses a code that does not fill the code
   space.  Sets with at most one used symbol and an unfilled space are accepted by the
   program without a meaning for most inputs; they are kept out by the requires.
   */
  method BuildTable(lens: CodeLengths, look: array<int>, tree: array<int>)
    returns (ok: bool, ghost nodes: seq<seq<bool>>)
    requires |lens| <= MAX_SYMBOLS && look != tree
    requires look.Length == LOOKUP_SIZE && tree.Length == TREE_SIZE
    requires Complete(lens) || UsedUpTo(lens, MAX_CODE_LENGTH) > 1
    modifies look, tree
    ensures ok <==> Complete(lens)
    ensures ok ==> TableFor(lens, nodes, look[..], tree[..])
  {
    hide Partial;
    nodes := [];
    ClearTables(look, tree);
    EmptyTables(lens, look[..], tree[..]);
    var nextCode, usedSyms, total := FirstCodes(lens);
    if total != FULL_SPACE && usedSyms > 1 {
      return false, nodes;
    }
    var treeNext := -1;
    for symIndex := 0 to |lens|
      invariant fresh(nextCode) && nextCode.Length == 17
      invariant forall l {:trigger nextCode[l]} | 1 <= l <= 15 ::
                  nextCode[l] == FirstCode(lens, l) + Count(lens[..symIndex], l)
      invariant Partial(lens, symIndex, nodes, [], look[..], tree[..])
      invariant treeNext == -2 * |nodes| - 1
    {
      var codeSize := lens[symIndex];
      assert lens[..symIndex + 1][..symIndex] == lens[..symIndex];
      if codeSize == 0 {
        SkipSymbol(lens, symIndex, nodes, look[..], tree[..]);
        continue;
      }
      var curCode := nextCode[codeSize];
      nextCode[codeSize] := curCode + 1;
      treeNext, nodes := InsertSymbol(lens, symIndex, curCode, treeNext, look, tree, nodes);
    }
    return true, nodes;
  }

  // ---- decoding -------------------------------------------------------------

  /** The lookup entry for a stream that starts with the code of s. */
  lemma LookupStep(lens: CodeLengths, nodes: seq<seq<bool>>, look: seq<int>, tree: seq<int>, c: seq<bool>, s: nat)
    requires TableFor(lens, nodes, look, tree)
    requires Used(lens, s) && Code(lens, s) <= c && |c| >= 10
    ensures look[Index(c[..10])] >= 0 ==> look[Index(c[..10])] == lens[s] * 512 + s && lens[s] <= 10
    ensures look[Index(c[..10])] < 0 ==> lens[s] > 10 && PointsAt(nodes, look[Index(c[..10])], c[..10])
  {
    var b := c[..10];
    var e := look[Index(b)];
    assert LookEntryOk(lens, |lens|, nodes, e, b);
    assert Code(lens, s) <= b || b <= Code(lens, s);
    if e > 0 {
      Comparable(lens, e % 512, s, b, c);
    } else if e < 0 {
      assert b in nodes;
      NodeLongerThanPrefix(lens, nodes, b, s, c);
    } else {
      assert false;
    }
  }

  lemma Comparable(lens: CodeLengths, t: nat, s: nat, b: seq<bool>, c: seq<bool>)
    requires Complete(lens) && Used(lens, s) && Used(lens, t) && b <= c
    requires Code(lens, t) <= b && Code(lens, s) <= c
    ensures s == t
  {
    if lens[t] <= lens[s] {
      assert Code(lens, t) == c[..lens[t]] == Code(lens, s)[..lens[t]];
      PrefixFree(lens, t, s);
    } else {
      assert Code(lens, s) == c[..lens[s]] == Code(lens, t)[..lens[s]];
      PrefixFree(lens, s, t);
    }
  }

  /** A node on the path of a stream lies strictly inside the code the stream starts with. */
  lemma NodeLongerThanPrefix(lens: CodeLengths, nodes: seq<seq<bool>>, b: seq<bool>, s: nat, c: seq<bool>)
    requires Complete(lens) && NodesOk(lens, |lens|, nodes, []) && b in nodes && b <= c
    requires Used(lens, s) && Code(lens, s) <= c
    ensures |b| < lens[s]
  {
    var t: nat :| t < |lens| && Inside(lens, b, t);
    CompleteClash(lens, s, t, b);
  }

  /** One step down the tree for a stream that starts with the code of s. */
  lemma TreeStep(lens: CodeLengths, nodes: seq<seq<bool>>, look: seq<int>, tree: seq<int>, c: seq<bool>, s: nat,
                 e: int, d: nat)
    requires TableFor(lens, nodes, look, tree) && |tree| == TREE_SIZE && 2 * |nodes| <= TREE_SIZE
    requires Used(lens, s) && Code(lens, s) <= c && 10 <= d < lens[s]
    requires PointsAt(nodes, e, c[..d])
    ensures 0 <= -e - 1 + BitValue(c[d]) < TREE_SIZE
    ensures tree[-e - 1 + BitValue(c[d])] >= 0 ==> tree[-e - 1 + BitValue(c[d])] == s && lens[s] == d + 1
    ensures tree[-e - 1 + BitValue(c[d])] < 0 ==>
              lens[s] > d + 1 && PointsAt(nodes, tree[-e - 1 + BitValue(c[d])], c[..d + 1])
  {
    hide TableFor, Complete;
    var i := -e - 1 + BitValue(c[d]);
    var p := c[..d + 1];
    assert ChildPath(nodes, i) == p;
    TreeEntryAt(lens, nodes, look, tree, i);
    assert Code(lens, s) <= p || p <= Code(lens, s);
    if PointsAt(nodes, tree[i], p) {
      assert p in nodes;
      NodeLongerThanPrefix(lens, nodes, p, s, c);
    } else if tree[i] >= 0 && Used(lens, tree[i]) && Code(lens, tree[i]) == p {
      Comparable(lens, tree[i], s, p, c);
    } else {
      assert false;
    }
  }

  lemma TreeEntryAt(lens: CodeLengths, nodes: seq<seq<bool>>, look: seq<int>, tree: seq<int>, i: nat)
    requires TableFor(lens, nodes, look, tree) && i < 2 * |nodes|
    ensures |tree| == TREE_SIZE && 2 * |nodes| <= TREE_SIZE
    ensures TreeEntryOk(lens, |lens|, nodes, tree[i], ChildPath(nodes, i))
    ensures Complete(lens) && NodesOk(lens, |lens|, nodes, [])
  {
  }
}
