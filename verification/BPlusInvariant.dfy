/** The invariant of a whole index tree, kept by every insertion and deletion, and what follows
    from it: the sorted map, the exactness of seeks in an index that only grew, and the height
    bound. */
module BPlusInvariant {
  import opened BPlusTree

  ghost function Height(t: Tree): nat
    requires Sized(t)
  {
    if t.Leaf? then 0 else 1 + Height(t.children[0])
  }

  lemma {:induction false} HeightIs(t: Tree, d: nat, lo: Bound, hi: Bound)
    requires Ordered(t, d, lo, hi)
    ensures Height(t) == d
  {
    if t.Node? {
      HeightIs(t.children[0], d - 1, ChildLo(t.keys, lo, 0), ChildHi(t.keys, hi, 0));
    }
  }

  /** The pages 1..next-1 of an index file form one ordered, balanced, filled tree whose leaves
      are chained from left to right. */
  ghost predicate Good(t: Tree, cap: nat, next: int) {
    && Sized(t)
    && Ordered(t, Height(t), Unbounded, Unbounded)
    && Filled(t, 1, cap)
    && Distinct(t)
    && Pages(t) == PageRange(1, next)
    && Chained(Leaves(t))
  }

  ghost function Content(t: Tree): map<int, Slot>
    requires Sized(t) && Ordered(t, Height(t), Unbounded, Unbounded)
  {
    TreeEntriesSorted(t, Height(t), Unbounded, Unbounded);
    EntryMap(TreeEntries(t))
  }

  predicate Even(cap: nat) { cap >= 2 && cap % 2 == 0 }

  /** The first entry makes page 1 a leaf. */
  lemma FirstLeafGood(k: int, rid: Slot, cap: nat)
    requires Even(cap)
    ensures var t := Leaf(1, [k], [rid], Slot(-1, -1)); Good(t, cap, 2) && Tight(t) && Content(t) == map[k := rid]
  {
    var t := Leaf(1, [k], [rid], Slot(-1, -1));
    EntriesOfOne(t);
    assert PageRange(1, 2) == {1};
    assert TreeEntries(t) == [Entry(k, rid)];
    MapLookup(TreeEntries(t), 0);
  }

  // ---------------------------------------------------------------- insertion

  ghost function Root(g: Grown, page: int): Tree {
    match g
    case One(t) => t
    case Two(left, sep, right) => Node(page, [sep], [left, right])
  }

  lemma RootLeaves(g: Grown, page: int)
    ensures Leaves(Root(g, page)) == GrownLeaves(g)
  {
    if g.Two? {
      LeavesOfSplit([g.left, g.right], 0);
      LeavesOfOne(g.right);
      assert [g.left, g.right][1..] == [g.right];
      assert [g.left, g.right][..0] == [];
    }
  }

  lemma RootOrdered(g: Grown, page: int, d: nat)
    requires GrownOrdered(g, d, Unbounded, Unbounded)
    ensures Ordered(Root(g, page), if g.One? then d else d + 1, Unbounded, Unbounded)
  {
  }

  lemma RootPages(g: Grown, page: int)
    requires GrownDistinct(g) && page !in GrownPages(g)
    ensures Distinct(Root(g, page)) && Pages(Root(g, page)) == GrownPages(g) + (if g.One? then {} else {page})
  {
    if g.Two? {
      PagesConcat([g.left], [g.right]);
      PagesOfOne(g.left);
      PagesOfOne(g.right);
      assert [g.left] + [g.right] == [g.left, g.right];
    }
  }

  lemma InsertKeepsOrder(t: Tree, k: int, rid: Slot, cap: nat, next: int)
    requires Even(cap) && Good(t, cap, next) && !Has(t, k)
    ensures var u := InsertRoot(t, k, rid, cap, next).0;
            Sized(u) && Ordered(u, Height(u), Unbounded, Unbounded) && Filled(u, 1, cap)
  {
    var g := Insert(t, k, rid, cap, next).grown;
    var n := Insert(t, k, rid, cap, next).next;
    InsertOrdered(t, k, rid, cap, next, Height(t), Unbounded, Unbounded);
    RootOrdered(g, n, Height(t));
    HeightIs(Root(g, n), if g.One? then Height(t) else Height(t) + 1, Unbounded, Unbounded);
    InsertFilled(t, k, rid, cap, next, 1);
  }

  lemma InsertKeepsPages(t: Tree, k: int, rid: Slot, cap: nat, next: int)
    requires Even(cap) && Good(t, cap, next) && !Has(t, k) && next >= 1
    ensures var (u, n) := InsertRoot(t, k, rid, cap, next);
            Distinct(u) && Pages(u) == PageRange(1, n) && next <= n
  {
    hide Insert, Ordered, Filled, Chained, Has;
    var r := Insert(t, k, rid, cap, next);
    InsertPages(t, k, rid, cap, next);
    assert PageRange(1, next) + PageRange(next, r.next) == PageRange(1, r.next);
    RootPages(r.grown, r.next);
    assert PageRange(1, r.next) + {r.next} == PageRange(1, r.next + 1);
  }

  lemma InsertKeepsChain(t: Tree, k: int, rid: Slot, cap: nat, next: int)
    requires Even(cap) && Good(t, cap, next)
    ensures Chained(Leaves(InsertRoot(t, k, rid, cap, next).0))
  {
    var r := Insert(t, k, rid, cap, next);
    LeavesAreLeaves(t);
    InsertLeaves(t, k, rid, cap, next);
    InsertChained(Leaves(t), LeafIndex(t, k), k, rid, cap, next);
    RootLeaves(r.grown, r.next);
  }

  /** Inserting an absent key keeps the whole invariant, through any cascade of splits and a new
      root, and adds exactly that key with its record to the map. */
  lemma InsertGood(t: Tree, k: int, rid: Slot, cap: nat, next: int)
    requires Even(cap) && Good(t, cap, next) && !Has(t, k) && next >= 1
    ensures var (u, n) := InsertRoot(t, k, rid, cap, next);
            Good(u, cap, n) && next <= n && k !in Content(t) && Content(u) == Content(t)[k := rid]
  {
    InsertKeepsOrder(t, k, rid, cap, next);
    InsertKeepsPages(t, k, rid, cap, next);
    InsertKeepsChain(t, k, rid, cap, next);
    var (u, n) := InsertRoot(t, k, rid, cap, next);
    InsertEntries(t, Height(t), k, rid, cap, next);
    RootLeaves(Insert(t, k, rid, cap, next).grown, Insert(t, k, rid, cap, next).next);
    TreeEntriesSorted(t, Height(t), Unbounded, Unbounded);
    TreeEntriesSorted(u, Height(u), Unbounded, Unbounded);
    InsertedElements(TreeEntries(t), EntryIndex(t, k), Entry(k, rid));
    InsertedMap(TreeEntries(t), EntryIndex(t, k), Entry(k, rid), TreeEntries(u));
  }

  // ---------------------------------------------------------------- deletion

  /** Deleting a present key keeps the whole invariant and removes exactly that key; the pages
      and every separator stay as they are. */
  lemma DeleteGood(t: Tree, k: int, cap: nat, next: int)
    requires Good(t, cap, next) && Has(t, k)
    ensures Good(Delete(t, k), cap, next) && k in Content(t) && Content(Delete(t, k)) == Content(t) - {k}
  {
    var u := Delete(t, k);
    hide Ordered, Filled, Distinct, Pages, Chained, Delete, Has, Leaves, LeafIndex, Height, EntryMap, RemovedAt;
    DeleteOrdered(t, k, Height(t), Unbounded, Unbounded);
    HeightIs(u, Height(t), Unbounded, Unbounded);
    DeleteFilled(t, k, 1, cap);
    DeletePages(t, k);
    DeleteLeaves(t, k);
    SwapChained(Leaves(t), LeafIndex(t, k), TrimmedLeaf(Leaves(t)[LeafIndex(t, k)], k));
    HasIff(t, Height(t), k);
    DeleteEntries(t, Height(t), k);
    TreeEntriesSorted(t, Height(t), Unbounded, Unbounded);
    RemovedMap(TreeEntries(t), EntryIndex(t, k));
  }

  // ---------------------------------------------------------------- seeks

  /** k is the last key of the rightmost leaf below t. */
  ghost predicate MaxIs(t: Tree, k: int) {
    match t
    case Leaf(_, keys, _, _) => keys != [] && keys[|keys| - 1] == k
    case Node(_, _, children) => children != [] && MaxIs(children[|children| - 1], k)
  }

  /** Every separator is the largest key of the subtree on its left. */
  ghost predicate Tight(t: Tree) {
    t.Node? ==>
      && |t.children| == |t.keys| + 1
      && (forall i :: 0 <= i < |t.children| ==> Tight(t.children[i]))
      && (forall i :: 0 <= i < |t.keys| ==> MaxIs(t.children[i], t.keys[i]))
  }

  ghost predicate GrownTight(g: Grown) {
    match g
    case One(t) => Tight(t)
    case Two(left, sep, right) => Tight(left) && Tight(right) && MaxIs(left, sep)
  }

  ghost predicate GrownMax(g: Grown, m: int) {
    MaxIs(if g.One? then g.tree else g.right, m)
  }

  lemma WideTight(t: Tree, i: nat, left: Tree, sep: int, right: Tree)
    requires t.Node? && Tight(t) && i < |t.children|
    requires Tight(left) && Tight(right) && MaxIs(left, sep)
    requires i < |t.keys| ==> MaxIs(right, t.keys[i])
    ensures Tight(WideNode(t, i, left, sep, right))
  {
    var w := WideNode(t, i, left, sep, right);
    forall j | 0 <= j < |w.children|
      ensures Tight(w.children[j]) && (j < |w.keys| ==> MaxIs(w.children[j], w.keys[j]))
    {
      WideChild(t, i, left, sep, right, j);
      if j < i {
        assert w.keys[j] == t.keys[j];
      } else if j > i && j < |w.keys| {
        assert w.keys[j] == t.keys[j - 1];
      }
    }
  }

  lemma CutTight(w: Tree, cap: nat, page: int)
    requires w.Node? && Tight(w) && cap / 2 < |w.keys|
    ensures GrownTight(CutNode(w, cap, page))
  {
    var g := CutNode(w, cap, page);
    assert forall j :: 0 <= j < |g.left.children| ==> g.left.children[j] == w.children[j];
    assert forall j :: 0 <= j < |g.right.children| ==> g.right.children[j] == w.children[cap / 2 + 1 + j];
  }

  lemma GrownNodeTight(t: Tree, i: nat, left: Tree, sep: int, right: Tree, cap: nat, next: int)
    requires t.Node? && Tight(t) && i < |t.children|
    requires Tight(left) && Tight(right) && MaxIs(left, sep)
    requires i < |t.keys| ==> MaxIs(right, t.keys[i])
    ensures GrownTight(GrownNode(t, i, left, sep, right, cap, next).grown)
    ensures forall m :: MaxIs(t, m) && (i == |t.keys| ==> MaxIs(right, m)) ==>
              GrownMax(GrownNode(t, i, left, sep, right, cap, next).grown, m)
  {
    hide *;
    GrownNodeIs(t, i, left, sep, right, cap, next);
    var w := WideNode(t, i, left, sep, right);
    WideTight(t, i, left, sep, right);
    if |t.keys| >= cap { CutTight(w, cap, next); }
    forall m | MaxIs(t, m) && (i == |t.keys| ==> MaxIs(right, m))
      ensures GrownMax(GrownNode(t, i, left, sep, right, cap, next).grown, m)
    {
      WideMax(t, i, left, sep, right, m);
      if |t.keys| >= cap { CutMax(w, cap, next, m); }
    }
  }

  // A grown node is the wide node, or its two halves.
  lemma GrownNodeIs(t: Tree, i: nat, left: Tree, sep: int, right: Tree, cap: nat, next: int)
    requires t.Node? && Tight(t) && i < |t.children|
    ensures i < |t.children| == |t.keys| + 1
    ensures var w, g := WideNode(t, i, left, sep, right), GrownNode(t, i, left, sep, right, cap, next).grown;
            && w.Node? && |w.keys| == |t.keys| + 1 && |w.children| == |w.keys| + 1
            && (|t.keys| >= cap ==> cap / 2 < |w.keys| && g == CutNode(w, cap, next))
            && (|t.keys| < cap ==> (GrownTight(g) <==> Tight(w)) && forall m :: GrownMax(g, m) <==> MaxIs(w, m))
  {
  }

  lemma WideMax(t: Tree, i: nat, left: Tree, sep: int, right: Tree, m: int)
    requires t.Node? && i < |t.children| == |t.keys| + 1 && MaxIs(t, m) && (i == |t.keys| ==> MaxIs(right, m))
    ensures MaxIs(WideNode(t, i, left, sep, right), m)
  {
    WideChild(t, i, left, sep, right, |t.children|);
  }

  lemma CutMax(w: Tree, cap: nat, page: int, m: int)
    requires w.Node? && |w.children| == |w.keys| + 1 && cap / 2 < |w.keys| && MaxIs(w, m)
    ensures GrownMax(CutNode(w, cap, page), m)
  {
  }

  lemma LeafTight(t: Tree, k: int, rid: Slot, cap: nat, next: int)
    requires t.Leaf? && |t.rids| == |t.keys| && Even(cap)
    ensures GrownTight(GrownLeaf(t, k, rid, cap, next).grown)
    ensures forall m :: MaxIs(t, m) && k < m ==> GrownMax(GrownLeaf(t, k, rid, cap, next).grown, m)
  {
    var w := WideLeaf(t, k, rid);
    forall m | MaxIs(t, m) && k < m ensures MaxIs(w, m) {
      assert Pos(t.keys, k) < |t.keys|;
    }
  }

  /** Insertion keeps every separator the largest key on its left. */
  lemma {:induction false} InsertTight(t: Tree, k: int, rid: Slot, cap: nat, next: int, d: nat, lo: Bound, hi: Bound)
    requires Even(cap) && Ordered(t, d, lo, hi) && Tight(t) && !Has(t, k)
    ensures GrownTight(Insert(t, k, rid, cap, next).grown)
    ensures forall m :: MaxIs(t, m) && k < m ==> GrownMax(Insert(t, k, rid, cap, next).grown, m)
  {
    if t.Leaf? {
      LeafTight(t, k, rid, cap, next);
    } else {
      var i := Pos(t.keys, k);
      InsertTight(t.children[i], k, rid, cap, next, d - 1, ChildLo(t.keys, lo, i), ChildHi(t.keys, hi, i));
      if i < |t.keys| && k == t.keys[i] {
        TightFinds(t.children[i], k, k);
        FindsTop(t.children[i], k, d - 1, ChildLo(t.keys, lo, i));
      }
      var g := Insert(t.children[i], k, rid, cap, next).grown;
      assert i < |t.keys| ==> GrownMax(g, t.keys[i]);
      if g.One? {
        ReplacedTight(t, i, g.tree);
      } else {
        GrownNodeTight(t, i, g.left, g.sep, g.right, cap, Insert(t.children[i], k, rid, cap, next).next);
      }
    }
  }

  lemma ReplacedTight(t: Tree, i: nat, c: Tree)
    requires t.Node? && Tight(t) && i < |t.children| && Tight(c)
    requires i < |t.keys| ==> MaxIs(c, t.keys[i])
    ensures Tight(t.(children := t.children[i := c]))
    ensures forall m :: MaxIs(t, m) && (i == |t.keys| ==> MaxIs(c, m)) ==> MaxIs(t.(children := t.children[i := c]), m)
  {
  }

  /** The leaf that a descent for k ends in holds a key at or above k. */
  ghost predicate Finds(t: Tree, k: int)
    requires Sized(t)
  {
    var i := Pos(t.keys, k);
    if t.Leaf? then i < |t.keys| else Finds(t.children[i], k)
  }

  lemma {:induction false} TightFinds(t: Tree, k: int, m: int)
    requires Sized(t) && Tight(t) && MaxIs(t, m) && k <= m
    ensures Finds(t, k)
  {
    if t.Node? {
      var i := Pos(t.keys, k);
      if i < |t.keys| {
        TightFinds(t.children[i], k, t.keys[i]);
      } else {
        TightFinds(t.children[i], k, m);
      }
    }
  }

  lemma {:induction false} FindsTop(t: Tree, k: int, d: nat, lo: Bound)
    requires Ordered(t, d, lo, At(k)) && Finds(t, k)
    ensures Has(t, k)
  {
    var i := Pos(t.keys, k);
    if t.Node? {
      if i < |t.keys| { assert Under(t.keys[i], At(k)); }
      FindsTop(t.children[i], k, d - 1, ChildLo(t.keys, lo, i));
    } else {
      assert Under(t.keys[i], At(k));
    }
  }

  lemma {:induction false} FindsLeaf(t: Tree, k: int)
    requires Sized(t)
    ensures LeafIndex(t, k) < |Leaves(t)|
    ensures var l := Leaves(t)[LeafIndex(t, k)]; Finds(t, k) <==> Pos(l.keys, k) < |l.keys|
  {
    if t.Node? {
      var i := Pos(t.keys, k);
      FindsLeaf(t.children[i], k);
      LeavesOfSplit(t.children, i);
    }
  }

  /** In a tree whose separators are exact, a descent that finds no key at or above k has ended
      in a rightmost leaf, so that there is none in the whole tree. */
  lemma {:induction false} TightMiss(t: Tree, k: int, d: nat, lo: Bound, hi: Bound)
    requires Ordered(t, d, lo, hi) && Tight(t) && !Finds(t, k)
    ensures KeysUnder(Leaves(t), k)
  {
    if t.Node? {
      var i := Pos(t.keys, k);
      if i < |t.keys| { TightFinds(t.children[i], k, t.keys[i]); }
      TightMiss(t.children[i], k, d - 1, ChildLo(t.keys, lo, i), ChildHi(t.keys, hi, i));
      ChildrenLeft(t, d, lo, hi, i, k);
      LeavesOfSplit(t.children, i);
      assert t.children[i + 1..] == [];
    }
  }

  lemma FindsIndex(t: Tree, k: int, d: nat)
    requires Ordered(t, d, Unbounded, Unbounded)
    ensures LeafIndex(t, k) < |Leaves(t)| && EntryIndex(t, k) <= |TreeEntries(t)|
    ensures Finds(t, k) ==> EntryIndex(t, k) < |TreeEntries(t)|
  {
    EntryIndexSplits(t, d, k);
    FindsLeaf(t, k);
    LeavesAreLeaves(t);
    if Finds(t, k) {
      EntryAt(Leaves(t), LeafIndex(t, k), Pos(Leaves(t)[LeafIndex(t, k)].keys, k));
    }
  }

  /** A seek in an index with exact separators misses only when there is nothing to find. */
  lemma TightSeek(t: Tree, k: int, d: nat)
    requires Ordered(t, d, Unbounded, Unbounded) && Tight(t)
    ensures LeafIndex(t, k) < |Leaves(t)|
    ensures Finds(t, k) <==> EntryIndex(t, k) < |TreeEntries(t)|
  {
    FindsIndex(t, k, d);
    EntryIndexSplits(t, d, k);
    if !Finds(t, k) {
      TightMiss(t, k, d, Unbounded, Unbounded);
      EntriesUnder(t, k);
    }
  }

  lemma EntriesUnder(t: Tree, k: int)
    requires Sized(t) && KeysUnder(Leaves(t), k)
    ensures forall e :: 0 <= e < |TreeEntries(t)| ==> TreeEntries(t)[e].key < k
  {
    LeavesAreLeaves(t);
    forall e | 0 <= e < |TreeEntries(t)| ensures TreeEntries(t)[e].key < k {
      var i, j := EntrySource(Leaves(t), e);
    }
  }

  /** Exact separators are kept by every insertion, including those that grow the root. */
  lemma InsertRootTight(t: Tree, k: int, rid: Slot, cap: nat, next: int)
    requires Even(cap) && Good(t, cap, next) && Tight(t) && !Has(t, k)
    ensures Tight(InsertRoot(t, k, rid, cap, next).0)
  {
    InsertTight(t, k, rid, cap, next, Height(t), Unbounded, Unbounded);
  }

  /** An index of node capacity 2 after the insertions of 1, 2 and 3. */
  ghost function ThreeInserted(rid: Slot): (Tree, int) {
    var (t, n) := InsertRoot(Leaf(1, [1], [rid], Slot(-1, -1)), 2, rid, 2, 2);
    InsertRoot(t, 3, rid, 2, n)
  }

  lemma ThreeInsertedIs(s: Slot)
    ensures ThreeInserted(s) ==
        (Node(3, [2], [Leaf(1, [1, 2], [s, s], Slot(-1, 2)), Leaf(2, [3], [s], Slot(1, -1))]), 4)
    ensures Good(ThreeInserted(s).0, 2, 4) && Tight(ThreeInserted(s).0)
  {
    var t1 := Leaf(1, [1], [s], Slot(-1, -1));
    assert Pos([1], 2) == 1 && Pos([1, 2], 3) == 2;
    var t2 := Leaf(1, [1, 2], [s, s], Slot(-1, -1));
    assert InsertedAt([1], 1, 2) == [1, 2] && InsertedAt([s], 1, s) == [s, s];
    assert InsertRoot(t1, 2, s, 2, 2) == (t2, 2);
    assert InsertedAt([1, 2], 2, 3) == [1, 2, 3] && InsertedAt([s, s], 2, s) == [s, s, s];
    assert [1, 2, 3][..2] == [1, 2] && [1, 2, 3][2..] == [3] && [s, s, s][..2] == [s, s] && [s, s, s][2..] == [s];
    FirstLeafGood(1, s, 2);
    InsertGood(t1, 2, s, 2, 2);
    InsertRootTight(t1, 2, s, 2, 2);
    InsertGood(t2, 3, s, 2, 2);
    InsertRootTight(t2, 3, s, 2, 2);
  }

  /** A deletion can make a separator inexact: after the insertions of 1, 2 and 3 and the deletion of 2, a seek for 2
      ends in the first of the leaves [1] [3] and misses the entry 3. */
  lemma DeletionBreaksSeek(s: Slot)
    ensures Has(ThreeInserted(s).0, 2)
    ensures var u := Delete(ThreeInserted(s).0, 2); Good(u, 2, 4) && !Finds(u, 2) && 3 in Content(u)
  {
    ThreeInsertedIs(s);
    var t := ThreeInserted(s).0;
    assert Pos([2], 2) == 0 && Pos([1, 2], 2) == 1 && Pos([1], 2) == 1;
    assert Has(t.children[0], 2);
    DeleteGood(t, 2, 2, 4);
    var u := Delete(t, 2);
    assert u.children[0] == Leaf(1, [1], [s], Slot(-1, 2));
    assert Pos([2], 3) == 1 && Pos([3], 3) == 0;
    assert u.children[1] == t.children[1] && Has(t.children[1], 3);
    HasIff(u, Height(u), 3);
  }

  // ---------------------------------------------------------------- height

  function Power(b: nat, e: nat): nat {
    if e == 0 then 1 else b * Power(b, e - 1)
  }

  lemma {:induction false} ManyLeaves(ts: seq<Tree>, x: nat)
    requires forall i :: 0 <= i < |ts| ==> |Leaves(ts[i])| >= x
    ensures |LeavesOf(ts)| >= |ts| * x
  {
    if ts != [] {
      assert forall i :: 0 <= i < |ts[1..]| ==> ts[1..][i] == ts[i + 1];
      ManyLeaves(ts[1..], x);
    }
  }

  lemma {:induction false} SubtreeLeaves(t: Tree, d: nat, lo: Bound, hi: Bound, cap: nat)
    requires Ordered(t, d, lo, hi) && Filled(t, cap / 2, cap)
    ensures |Leaves(t)| >= Power(cap / 2 + 1, d)
  {
    if t.Node? {
      var x := Power(cap / 2 + 1, d - 1);
      forall i | 0 <= i < |t.children| ensures |Leaves(t.children[i])| >= x {
        SubtreeLeaves(t.children[i], d - 1, ChildLo(t.keys, lo, i), ChildHi(t.keys, hi, i), cap);
      }
      ManyLeaves(t.children, x);
      Monotone(cap / 2 + 1, |t.children|, x);
    }
  }

  lemma Monotone(a: nat, b: nat, x: nat)
    requires a <= b
    ensures a * x <= b * x
  {
  }

  lemma {:induction false} LeavesHavePages(ts: seq<Tree>)
    requires Apart(ts)
    ensures |LeavesOf(ts)| <= |PagesOf(ts)|
    decreases ts
  {
    if ts != [] {
      var t := ts[0];
      LeavesHavePages(ts[1..]);
      if t.Node? {
        LeavesHavePages(t.children);
        assert |Pages(t)| == 1 + |PagesOf(t.children)|;
      }
    }
  }

  lemma {:induction false} RangeSize(a: int, b: int)
    requires a <= b
    ensures |PageRange(a, b)| == b - a
    decreases b - a
  {
    if a < b { RangeSize(a + 1, b); }
  }

  /** Descent is logarithmic: with node capacity 2m, an index of height d >= 1 has at least
      2(m+1)^(d-1) leaves, and no more leaves than pages.  Deletions do not weaken this. */
  lemma HeightBound(t: Tree, cap: nat, next: int)
    requires Good(t, cap, next) && t.Node? && next >= 1
    ensures 2 * Power(cap / 2 + 1, Height(t) - 1) <= |Leaves(t)| <= next - 1
  {
    var d := Height(t);
    var x := Power(cap / 2 + 1, d - 1);
    forall i | 0 <= i < |t.children| ensures |Leaves(t.children[i])| >= x {
      SubtreeLeaves(t.children[i], d - 1, ChildLo(t.keys, Unbounded, i), ChildHi(t.keys, Unbounded, i), cap);
    }
    ManyLeaves(t.children, x);
    Monotone(2, |t.children|, x);
    PagesOfOne(t);
    LeavesOfOne(t);
    LeavesHavePages([t]);
    RangeSize(1, next);
  }
}
