/** How the pages of an index file store a tree, and what the page updates of one insertion or
    deletion do to it. */
module IndexFiles {
  import opened BPlusTree
  import opened BPlusInvariant
  import opened IndexNodes

  type File = map<int, NodeView>

  ghost predicate Shows(v: NodeView, t: Tree) {
    match t
    case Leaf(_, keys, rids, link) => v == NodeView(true, keys, rids + [link])
    case Node(_, keys, children) =>
      && !v.leaf && v.keys == keys && |v.slots| == |children|
      && forall i :: 0 <= i < |children| ==> v.slots[i].first == children[i].page
  }

  /** The file holds tree t: every node on its page, every child pointer the page of the child. */
  ghost predicate Stored(f: File, t: Tree) {
    && t.page in f && Shows(f[t.page], t)
    && (t.Node? ==> forall i :: 0 <= i < |t.children| ==> Stored(f, t.children[i]))
  }

  ghost predicate SameOn(f: File, g: File, ps: set<int>) {
    forall p :: p in ps && p in f ==> p in g && g[p] == f[p]
  }

  lemma {:induction false} StoredFrame(f: File, g: File, t: Tree)
    requires Stored(f, t) && SameOn(f, g, Pages(t))
    ensures Stored(g, t)
  {
    if t.Node? {
      forall i | 0 <= i < |t.children| ensures Stored(g, t.children[i]) {
        ChildPages(t, i);
        StoredFrame(f, g, t.children[i]);
      }
    }
  }

  // ---------------------------------------------------------------- descent

  /** The subtree that n steps of a descent for k lead to. */
  ghost function Down(t: Tree, k: int, n: nat): Tree
    requires Sized(t)
    ensures Sized(Down(t, k, n))
    decreases n
  {
    if n == 0 || t.Leaf? then t else Down(t.children[Pos(t.keys, k)], k, n - 1)
  }

  lemma {:induction false} DownStep(t: Tree, k: int, n: nat)
    requires Sized(t) && Down(t, k, n).Node?
    ensures var u := Down(t, k, n); Down(t, k, n + 1) == u.children[Pos(u.keys, k)]
    decreases n
  {
    if n > 0 { DownStep(t.children[Pos(t.keys, k)], k, n - 1); }
  }

  lemma {:induction false} DownStored(f: File, t: Tree, k: int, n: nat)
    requires Sized(t) && Stored(f, t)
    ensures Stored(f, Down(t, k, n))
    decreases n
  {
    if n > 0 && t.Node? { DownStored(f, t.children[Pos(t.keys, k)], k, n - 1); }
  }

  lemma {:induction false} DownPages(t: Tree, k: int, n: nat)
    requires Sized(t) && Distinct(t)
    ensures Distinct(Down(t, k, n)) && Pages(Down(t, k, n)) <= Pages(t)
    decreases n
  {
    if n > 0 && t.Node? {
      ChildPages(t, Pos(t.keys, k));
      DownPages(t.children[Pos(t.keys, k)], k, n - 1);
    }
  }

  lemma {:induction false} DownOrdered(t: Tree, k: int, n: nat, d: nat, lo: Bound, hi: Bound) returns (l: Bound,
                                       h: Bound)
    requires Ordered(t, d, lo, hi) && n <= d
    ensures Ordered(Down(t, k, n), d - n, l, h)
    decreases n
  {
    if n > 0 {
      var i := Pos(t.keys, k);
      l, h := DownOrdered(t.children[i], k, n - 1, d - 1, ChildLo(t.keys, lo, i), ChildHi(t.keys, hi, i));
    } else {
      l, h := lo, hi;
    }
  }

  /** A descent of full length ends in the leaf of LeafIndex, which decides Has and Finds. */
  lemma {:induction false} DownLeaf(t: Tree, k: int, n: nat)
    requires Sized(t) && Down(t, k, n).Leaf?
    ensures LeafIndex(t, k) < |Leaves(t)| && Leaves(t)[LeafIndex(t, k)] == Down(t, k, n)
    ensures Has(t, k) <==> Has(Down(t, k, n), k)
    ensures Finds(t, k) <==> Finds(Down(t, k, n), k)
    decreases n
  {
    if n > 0 && t.Node? {
      var i := Pos(t.keys, k);
      DownLeaf(t.children[i], k, n - 1);
      LeavesOfSplit(t.children, i);
    }
  }

  // ---------------------------------------------------------------- page updates

  lemma WideLeafShown(v: NodeView, t: Tree, k: int, rid: Slot, splitPage: int)
    requires t.Leaf? && |t.rids| == |t.keys| && Shows(v, t)
    ensures Shows(WideView(v, Pos(t.keys, k), k, rid, splitPage), WideLeaf(t, k, rid))
  {
    var i := Pos(t.keys, k);
    assert InsertedAt(t.rids + [t.link], i, rid) == InsertedAt(t.rids, i, rid) + [t.link];
  }

  lemma CutLeafShown(w: NodeView, t: Tree, cap: nat, newPage: int)
    requires t.Leaf? && |t.rids| == |t.keys| && cap / 2 < |t.keys| && Shows(w, t)
    ensures var g := CutLeaf(t, cap, newPage);
            Shows(LeftView(w, cap / 2, newPage), g.left) && Shows(RightView(w, cap / 2, t.page), g.right)
  {
    var h := cap / 2 + 1;
    assert w.slots == t.rids + [t.link];
    assert w.slots[..h] == t.rids[..h];
    assert w.slots[h..|t.keys|] == t.rids[h..];
  }

  lemma WideNodeShown(v: NodeView, t: Tree, i: nat, left: Tree, sep: int, right: Tree, rid: Slot)
    requires t.Node? && i < |t.children| == |t.keys| + 1 && Shows(v, t) && left.page == t.children[i].page
    ensures Shows(WideView(v, i, sep, rid, right.page), WideNode(t, i, left, sep, right))
  {
    var w, x := WideNode(t, i, left, sep, right), WideView(v, i, sep, rid, right.page);
    forall j | 0 <= j < |w.children| ensures x.slots[j].first == w.children[j].page {
      WideChild(t, i, left, sep, right, j);
      if j < i {
        assert x.slots[j] == v.slots[j];
      } else if j > i + 1 {
        assert x.slots[j] == v.slots[j - 1];
      }
    }
  }

  lemma CutNodeShown(w: NodeView, t: Tree, cap: nat, newPage: int)
    requires t.Node? && |t.children| == |t.keys| + 1 && cap / 2 < |t.keys| && Shows(w, t)
    ensures var g := CutNode(t, cap, newPage);
            Shows(LeftView(w, cap / 2, newPage), g.left) && Shows(RightView(w, cap / 2, t.page), g.right)
  {
  }

  ghost predicate PageFits(f: File, p: int, i: nat, cap: nat) {
    p in f && i <= |f[p].keys| && |f[p].slots| == |f[p].keys| + 1 && |f[p].keys| <= cap
  }

  ghost function Widened(f: File, p: int, i: nat, k: int, rid: Slot, splitPage: int): (w: NodeView)
    requires p in f && PageFits(f, p, i, |f[p].keys|)
    ensures |w.keys| == |f[p].keys| + 1
  {
    WideView(f[p], i, k, rid, splitPage)
  }

  /** The file after the page update of one level of an insertion. */
  ghost function GrownFile(f: File, p: int, i: nat, k: int, rid: Slot, splitPage: int, cap: nat, next: int): File
    requires PageFits(f, p, i, cap)
  {
    var w := Widened(f, p, i, k, rid, splitPage);
    if |f[p].keys| < cap then f[p := w]
    else f[p := LeftView(w, cap / 2, next)][next := RightView(w, cap / 2, p)]
  }

  ghost predicate GrownStored(f: File, g: Grown) {
    match g
    case One(t) => Stored(f, t)
    case Two(left, _, right) => Stored(f, left) && Stored(f, right)
  }

  /** The leaf level of an insertion, in the file. */
  lemma GrowLeafStored(f: File, t: Tree, k: int, rid: Slot, splitPage: int, cap: nat, next: int)
    requires t.Leaf? && |t.rids| == |t.keys| <= cap && Even(cap) && Stored(f, t) && next !in f
    ensures GrownStored(GrownFile(f, t.page, Pos(t.keys, k), k, rid, splitPage, cap, next),
                        GrownLeaf(t, k, rid, cap, next).grown)
  {
    var w := WideView(f[t.page], Pos(t.keys, k), k, rid, splitPage);
    WideLeafShown(f[t.page], t, k, rid, splitPage);
    if |t.keys| >= cap { CutLeafShown(w, WideLeaf(t, k, rid), cap, next); }
  }

  // After child i of t was split and the halves stored, the children of the wide node are stored.
  lemma WideChildrenStored(f0: File, f: File, t: Tree, i: nat, left: Tree, sep: int, right: Tree)
    requires t.Node? && i < |t.children| == |t.keys| + 1 && Distinct(t)
    requires Stored(f0, t) && SameOn(f0, f, Pages(t) - Pages(t.children[i]))
    requires Stored(f, left) && Stored(f, right)
    ensures var w := WideNode(t, i, left, sep, right);
            forall j :: 0 <= j < |w.children| ==> Stored(f, w.children[j])
  {
    var w := WideNode(t, i, left, sep, right);
    forall j | 0 <= j < |w.children| ensures Stored(f, w.children[j]) {
      WideChild(t, i, left, sep, right, j);
      if j != i && j != i + 1 {
        OtherChildStored(f0, f, t, i, if j < i then j else j - 1);
      }
    }
  }

  lemma OtherChildStored(f0: File, f: File, t: Tree, i: nat, e: nat)
    requires t.Node? && i < |t.children| && e < |t.children| && e != i && Distinct(t)
    requires Stored(f0, t) && SameOn(f0, f, Pages(t) - Pages(t.children[i]))
    ensures Stored(f, t.children[e])
  {
    ChildPages(t, e);
    if e < i { ChildrenApart(t.children, e, i); } else { ChildrenApart(t.children, i, e); }
    StoredFrame(f0, f, t.children[e]);
  }

  lemma ChildrenApart(ts: seq<Tree>, a: nat, b: nat)
    requires a < b < |ts| && Apart(ts)
    ensures Pages(ts[a]) !! Pages(ts[b])
  {
    PagesOfSplit(ts, b);
    PagesOfSplit(ts[..b], a);
  }

  // A page write outside the children of a node leaves them stored.
  lemma ChildrenFrame(f: File, g: File, w: Tree)
    requires w.Node?
    requires forall j :: 0 <= j < |w.children| ==> Stored(f, w.children[j])
    requires SameOn(f, g, PagesOf(w.children))
    ensures forall j :: 0 <= j < |w.children| ==> Stored(g, w.children[j])
  {
    forall j | 0 <= j < |w.children| ensures Stored(g, w.children[j]) {
      PagesOfSplit(w.children, j);
      StoredFrame(f, g, w.children[j]);
    }
  }

  /** An internal level of an insertion, in the file. */
  lemma GrowNodeStored(f0: File, f: File, t: Tree, i: nat, left: Tree, sep: int, right: Tree,
                       rid: Slot, cap: nat, first: int, next: int)
    requires t.Node? && i < |t.children| == |t.keys| + 1 && Distinct(t) && |t.keys| <= cap && Even(cap)
    requires Stored(f0, t) && SameOn(f0, f, Pages(t) - Pages(t.children[i]))
    requires t.page in f && Shows(f[t.page], t)
    requires Stored(f, left) && Stored(f, right) && left.page == t.children[i].page
    requires Distinct(left) && Distinct(right) && Pages(left) !! Pages(right)
    requires Pages(left) + Pages(right) == Pages(t.children[i]) + PageRange(first, next)
    requires PagesBelow(t, first) && first < next && next !in f
    ensures GrownStored(GrownFile(f, t.page, i, sep, rid, right.page, cap, next),
                        GrownNode(t, i, left, sep, right, cap, next).grown)
  {
    ChildPages(t, i);
    var w := WideNode(t, i, left, sep, right);
    WideChildrenStored(f0, f, t, i, left, sep, right);
    WideNodePages(t, i, left, sep, right, PageRange(first, next));
    WideNodeShown(f[t.page], t, i, left, sep, right, rid);
    var g := GrownFile(f, t.page, i, sep, rid, right.page, cap, next);
    ChildrenFrame(f, g, w);
    if |t.keys| >= cap { CutNodeShown(WideView(f[t.page], i, sep, rid, right.page), w, cap, next); }
  }

  /** A node one of whose children is replaced by a tree that is stored on the same page. */
  lemma ReplacedChildStored(f0: File, f: File, t: Tree, i: nat, c: Tree)
    requires t.Node? && i < |t.children| && Distinct(t) && Stored(f0, t)
    requires SameOn(f0, f, Pages(t) - Pages(t.children[i]))
    requires Stored(f, c) && c.page == t.children[i].page
    ensures Stored(f, Node(t.page, t.keys, t.children[i := c]))
  {
    ChildPages(t, i);
    forall e | 0 <= e < |t.children| && e != i ensures Stored(f, t.children[e]) {
      OtherChildStored(f0, f, t, i, e);
    }
  }

  /** When level n of the descent took the insertion without a split, the whole tree is stored:
      the levels above stay as they are. */
  lemma {:induction false} FinishStored(f0: File, f: File, t: Tree, k: int, rid: Slot, cap: nat, next: int, n: nat)
    requires Sized(t) && Distinct(t) && PagesBelow(t, next) && Stored(f0, t)
    requires var r := Insert(Down(t, k, n), k, rid, cap, next); r.grown.One? && Stored(f, r.grown.tree)
    requires SameOn(f0, f, Pages(t) - Pages(Down(t, k, n)))
    ensures var r := Insert(t, k, rid, cap, next);
            r.grown.One? && Stored(f, r.grown.tree) && r.next == Insert(Down(t, k, n), k, rid, cap, next).next
    decreases n
  {
    if n > 0 && t.Node? {
      var i := Pos(t.keys, k);
      var c := t.children[i];
      ChildPages(t, i);
      DownPages(c, k, n - 1);
      FinishStored(f0, f, c, k, rid, cap, next, n - 1);
      InsertPages(c, k, rid, cap, next);
      ReplacedChildStored(f0, f, t, i, Insert(c, k, rid, cap, next).grown.tree);
    }
  }

  /** Deletion at level n of the descent, in the file. */
  lemma {:induction false} DeleteStored(f0: File, f: File, t: Tree, k: int, n: nat)
    requires Sized(t) && Distinct(t) && Stored(f0, t) && Has(t, k) && Has(Down(t, k, n), k)
    requires Stored(f, Delete(Down(t, k, n), k))
    requires SameOn(f0, f, Pages(t) - Pages(Down(t, k, n)))
    ensures Stored(f, Delete(t, k))
    decreases n
  {
    if n > 0 && t.Node? {
      var i := Pos(t.keys, k);
      var c := t.children[i];
      ChildPages(t, i);
      DownPages(c, k, n - 1);
      DeleteStored(f0, f, c, k, n - 1);
      DeletePages(c, k);
      ReplacedChildStored(f0, f, t, i, Delete(c, k));
    }
  }

  lemma TrimmedShown(v: NodeView, t: Tree, k: int)
    requires t.Leaf? && |t.rids| == |t.keys| && Pos(t.keys, k) < |t.keys| && Shows(v, t)
    ensures Shows(NodeView(v.leaf, RemovedAt(v.keys, Pos(t.keys, k)), RemovedAt(v.slots, Pos(t.keys, k))),
        TrimmedLeaf(t, k))
  {
    var i := Pos(t.keys, k);
    assert RemovedAt(t.rids + [t.link], i) == RemovedAt(t.rids, i) + [t.link];
  }

  // ---------------------------------------------------------------- descent and ascent in the file

  /** What a descent meets at level n: the page of Down, with its keys sorted, a leaf exactly at
      the height of the tree, and below an internal page the page of the next level. */
  lemma Visit(f: File, t: Tree, k: int, n: nat, cap: nat, next: int)
    requires Good(t, cap, next) && Stored(f, t) && n <= Height(t)
    ensures var u := Down(t, k, n);
            && u.page in f && Shows(f[u.page], u) && Sorted(u.keys) && |u.keys| <= cap
            && |f[u.page].slots| == |u.keys| + 1
            && (u.Leaf? <==> n == Height(t))
            && (u.Node? ==> f[u.page].slots[Pos(u.keys, k)].first == Down(t, k, n + 1).page)
  {
    DownStored(f, t, k, n);
    var l, h := DownOrdered(t, k, n, Height(t), Unbounded, Unbounded);
    DownFilled(t, k, n, 1, cap);
    if Down(t, k, n).Node? { DownStep(t, k, n); }
  }

  lemma {:induction false} DownFilled(t: Tree, k: int, n: nat, least: nat, cap: nat)
    requires Sized(t) && Filled(t, least, cap)
    ensures |Down(t, k, n).keys| <= cap
    decreases n
  {
    if n > 0 && t.Node? { DownFilled(t.children[Pos(t.keys, k)], k, n - 1, cap / 2, cap); }
  }

  /** The pages visited by a descent for k, with the position taken in each. */
  ghost predicate PathIs(t: Tree, k: int, path: seq<(int, int)>)
    requires Sized(t)
  {
    forall j :: 0 <= j < |path| ==> path[j] == (Down(t, k, j).page, Pos(Down(t, k, j).keys, k))
  }

  lemma PathStart(t: Tree, k: int)
    requires Sized(t)
    ensures PathIs(t, k, [])
  {
  }

  lemma PathStep(t: Tree, k: int, path: seq<(int, int)>, page: int, child: int)
    requires Sized(t) && PathIs(t, k, path)
    requires page == Down(t, k, |path|).page && child == Pos(Down(t, k, |path|).keys, k)
    ensures PathIs(t, k, path + [(page, child)])
  {
  }

  /** The insertion is complete up to level m of the descent: file f holds the result for the
      subtree there, and is as before elsewhere. */
  ghost predicate Risen(t: Tree, k: int, rid: Slot, cap: nat, next: int, m: nat, f0: File, f: File, pages: int)
    requires Sized(t)
  {
    var r := Insert(Down(t, k, m), k, rid, cap, next);
    r.next == pages && GrownStored(f, r.grown) && SameOn(f0, f, Pages(t) - Pages(Down(t, k, m)))
  }

  /** A split is pending at level m: its separator and new page are still to be entered above. */
  ghost predicate Pending(t: Tree, k: int, rid: Slot, cap: nat, next: int, m: nat, sep: int, splitPage: int)
    requires Sized(t)
  {
    var g := Insert(Down(t, k, m), k, rid, cap, next).grown;
    g.Two? && g.sep == sep && g.right.page == splitPage
  }

  lemma WideKeys(v: NodeView, i: nat, k: int, rid: Slot, splitPage: int)
    requires i <= |v.keys| && |v.slots| == |v.keys| + 1
    ensures WideView(v, i, k, rid, splitPage).keys == InsertedAt(v.keys, i, k)
  {
  }

  lemma GrownFileSame(f: File, p: int, i: nat, k: int, rid: Slot, splitPage: int, cap: nat, next: int, ps: set<int>)
    requires PageFits(f, p, i, cap) && p !in ps && next !in f
    ensures SameOn(f, GrownFile(f, p, i, k, rid, splitPage, cap, next), ps)
  {
    hide WideView, LeftView, RightView;
  }

  /** The first round of the ascent, at the leaf. */
  lemma RiseLeaf(f: File, t: Tree, k: int, rid: Slot, splitPage: int, cap: nat, next: int)
    requires Even(cap) && Good(t, cap, next) && Stored(f, t) && next !in f
    ensures var m := Height(t);
            var u := Down(t, k, m);
            var i := Pos(u.keys, k);
            && u.Leaf? && PageFits(f, u.page, i, cap)
            && Risen(t, k, rid, cap, next, m, f, GrownFile(f, u.page, i, k, rid, splitPage, cap, next),
                     if |f[u.page].keys| < cap then next else next + 1)
            && (|f[u.page].keys| < cap <==> Insert(u, k, rid, cap, next).grown.One?)
            && (|f[u.page].keys| >= cap ==>
                  Pending(t, k, rid, cap, next, m, WideView(f[u.page], i, k, rid, splitPage).keys[cap / 2], next))
  {
    var m := Height(t);
    var u := Down(t, k, m);
    Visit(f, t, k, m, cap, next);
    DownStored(f, t, k, m);
    GrowLeafStored(f, u, k, rid, splitPage, cap, next);
    WideKeys(f[u.page], Pos(u.keys, k), k, rid, splitPage);
    GrownFileSame(f, u.page, Pos(u.keys, k), k, rid, splitPage, cap, next, Pages(t) - Pages(u));
  }

  lemma SameOnTrans(f0: File, f: File, g: File, a: set<int>, b: set<int>)
    requires SameOn(f0, f, a) && SameOn(f, g, b) && b <= a
    ensures SameOn(f0, g, b)
  {
  }

  /** A round of the ascent at an internal page. */
  lemma RiseNode(f0: File, f: File, t: Tree, k: int, rid: Slot, cap: nat, next: int, m: nat, sep: int, splitPage: int,
                 pages: int)
    requires Even(cap) && Good(t, cap, next) && Stored(f0, t) && m < Height(t) && pages !in f
    requires Risen(t, k, rid, cap, next, m + 1, f0, f, pages)
    requires Pending(t, k, rid, cap, next, m + 1, sep, splitPage)
    ensures var u := Down(t, k, m);
            var i := Pos(u.keys, k);
            && u.Node? && PageFits(f, u.page, i, cap)
            && Risen(t, k, rid, cap, next, m, f0, GrownFile(f, u.page, i, sep, rid, splitPage, cap, pages),
                     if |f[u.page].keys| < cap then pages else pages + 1)
            && (|f[u.page].keys| < cap <==> Insert(u, k, rid, cap, next).grown.One?)
            && (|f[u.page].keys| >= cap ==>
                  Pending(t, k, rid, cap, next, m, WideView(f[u.page], i, sep, rid, splitPage).keys[cap / 2], pages))
  {
    var u := Down(t, k, m);
    var i := Pos(u.keys, k);
    Visit(f0, t, k, m, cap, next);
    DownStored(f0, t, k, m);
    DownPages(t, k, m);
    DownStep(t, k, m);
    ChildPages(u, i);
    InsertPages(u.children[i], k, rid, cap, next);
    var g := Insert(u.children[i], k, rid, cap, next).grown;
    assert SameOn(f0, f, Pages(u) - Pages(u.children[i]));
    assert u.page in f && f[u.page] == f0[u.page];
    GrowNodeStored(f0, f, u, i, g.left, sep, g.right, rid, cap, next, pages);
    WideKeys(f[u.page], i, sep, rid, splitPage);
    GrownFileSame(f, u.page, i, sep, rid, splitPage, cap, pages, Pages(t) - Pages(u));
    SameOnTrans(f0, f, GrownFile(f, u.page, i, sep, rid, splitPage, cap, pages),
                Pages(t) - Pages(u.children[i]), Pages(t) - Pages(u));
  }

  /** Where the ascent stands before the round at level m - 1. */
  ghost predicate Rising(t: Tree, k: int, rid: Slot, cap: nat, next: int, m: nat, f0: File, f: File, pages: int,
                         sep: int, splitPage: int)
    requires Sized(t)
  {
    if m > Height(t) then f == f0 && pages == next && sep == k
    else Risen(t, k, rid, cap, next, m, f0, f, pages) && Pending(t, k, rid, cap, next, m, sep, splitPage)
  }

  /** One round of the ascent: the page update of the source takes the insertion one level up. */
  lemma Round(t: Tree, k: int, rid: Slot, cap: nat, next: int, m: nat, f0: File, f: File, pages: int, sep: int,
              splitPage: int)
    requires Even(cap) && Good(t, cap, next) && Stored(f0, t) && m <= Height(t) && pages !in f
    requires Rising(t, k, rid, cap, next, m + 1, f0, f, pages, sep, splitPage)
    ensures var u := Down(t, k, m);
            var i := Pos(u.keys, k);
            && PageFits(f, u.page, i, cap)
            && Risen(t, k, rid, cap, next, m, f0, GrownFile(f, u.page, i, sep, rid, splitPage, cap, pages),
                     if |f[u.page].keys| < cap then pages else pages + 1)
            && (|f[u.page].keys| < cap <==> Insert(u, k, rid, cap, next).grown.One?)
            && (|f[u.page].keys| >= cap ==>
                  Pending(t, k, rid, cap, next, m, WideView(f[u.page], i, sep, rid, splitPage).keys[cap / 2], pages))
  {
    assert Sized(t);
    hide Good, Stored, Risen, Pending, GrownFile, WideView, Insert;
    if m == Height(t) {
      RiseLeaf(f, t, k, rid, splitPage, cap, next);
    } else {
      RiseNode(f0, f, t, k, rid, cap, next, m, sep, splitPage, pages);
    }
  }

  lemma Finish(t: Tree, k: int, rid: Slot, cap: nat, next: int, m: nat, f0: File, f: File, pages: int)
    requires Good(t, cap, next) && Stored(f0, t)
    requires Risen(t, k, rid, cap, next, m, f0, f, pages) && Insert(Down(t, k, m), k, rid, cap, next).grown.One?
    ensures var r := Insert(t, k, rid, cap, next); r.grown.One? && Stored(f, r.grown.tree) && r.next == pages
  {
    FinishStored(f0, f, t, k, rid, cap, next, m);
  }

  lemma PathAt(t: Tree, k: int, path: seq<(int, int)>, m: nat)
    requires Sized(t) && PathIs(t, k, path) && m < |path|
    ensures path[m] == (Down(t, k, m).page, Pos(Down(t, k, m).keys, k)) && path[m].1 >= 0
  {
  }

  lemma RisingNext(t: Tree, k: int, rid: Slot, cap: nat, next: int, m: nat, f0: File, f: File, pages: int, sep: int,
                   splitPage: int)
    requires Sized(t) && m <= Height(t)
    requires Risen(t, k, rid, cap, next, m, f0, f, pages) && Pending(t, k, rid, cap, next, m, sep, splitPage)
    ensures Rising(t, k, rid, cap, next, m, f0, f, pages, sep, splitPage)
  {
  }

  lemma RisingEnd(t: Tree, k: int, rid: Slot, cap: nat, next: int, f0: File, f: File, pages: int, sep: int,
                  splitPage: int)
    requires Sized(t) && Rising(t, k, rid, cap, next, 0, f0, f, pages, sep, splitPage)
    ensures Risen(t, k, rid, cap, next, 0, f0, f, pages) && Pending(t, k, rid, cap, next, 0, sep, splitPage)
  {
  }

  /** The new root put on top of a split root completes the insertion in the file. */
  lemma NewRootStored(t: Tree, k: int, rid: Slot, cap: nat, next: int, f0: File, f: File, pages: int,
                      sep: int, splitPage: int, v: NodeView)
    requires Good(t, cap, next) && next >= 1 && pages !in f
    requires Risen(t, k, rid, cap, next, 0, f0, f, pages) && Pending(t, k, rid, cap, next, 0, sep, splitPage)
    requires !v.leaf && v.keys == [sep] && |v.slots| == 2 && v.slots[0].first == t.page && v.slots[1].first == splitPage
    ensures InsertRoot(t, k, rid, cap, next).1 == pages + 1
    ensures InsertRoot(t, k, rid, cap, next).0.page == pages
    ensures Stored(f[pages := v], InsertRoot(t, k, rid, cap, next).0)
  {
    hide Insert, Good, Distinct, Pages, Stored;
    var g := Insert(t, k, rid, cap, next).grown;
    GoodPages(t, cap, next);
    InsertPages(t, k, rid, cap, next);
    StoredFrame(f, f[pages := v], g.left);
    StoredFrame(f, f[pages := v], g.right);
    TwoStored(f[pages := v], pages, g.left, sep, g.right);
  }

  lemma GoodPages(t: Tree, cap: nat, next: int)
    requires Good(t, cap, next)
    ensures Sized(t) && Distinct(t) && PagesBelow(t, next)
  {
  }

  lemma TwoStored(f: File, p: int, left: Tree, sep: int, right: Tree)
    requires p in f && Stored(f, left) && Stored(f, right)
    requires !f[p].leaf && f[p].keys == [sep] && |f[p].slots| == 2
    requires f[p].slots[0].first == left.page && f[p].slots[1].first == right.page
    ensures Stored(f, Node(p, [sep], [left, right]))
  {
  }

  lemma OldRootStored(t: Tree, k: int, rid: Slot, cap: nat, next: int, f: File, pages: int)
    requires Good(t, cap, next) && next >= 1
    requires var r := Insert(t, k, rid, cap, next); r.grown.One? && Stored(f, r.grown.tree) && r.next == pages
    ensures InsertRoot(t, k, rid, cap, next).1 == pages
    ensures InsertRoot(t, k, rid, cap, next).0.page == t.page
    ensures Stored(f, InsertRoot(t, k, rid, cap, next).0)
  {
    InsertPages(t, k, rid, cap, next);
  }

  lemma FirstLeafStored(f: File, k: int, rid: Slot)
    requires 1 in f && f[1] == NodeView(true, [k], [rid, Slot(-1, -1)])
    ensures Stored(f, Leaf(1, [k], [rid], Slot(-1, -1)))
  {
  }

  /** Removing k from the page of its leaf deletes it from the stored tree. */
  lemma LeafDeleted(f: File, t: Tree, k: int, cap: nat, next: int)
    requires Good(t, cap, next) && Stored(f, t) && Has(t, k)
    ensures LeafIndex(t, k) < |Leaves(t)|
    ensures var l := Leaves(t)[LeafIndex(t, k)];
            var i := Pos(l.keys, k);
            && l.page in f && i < |f[l.page].keys| && i < |f[l.page].slots|
            && Stored(f[l.page := NodeView(f[l.page].leaf, RemovedAt(f[l.page].keys, i),
                 RemovedAt(f[l.page].slots, i))], Delete(t, k))
  {
    var n := Height(t);
    Visit(f, t, k, n, cap, next);
    DownLeaf(t, k, n);
    DownPages(t, k, n);
    var l := Down(t, k, n);
    var i := Pos(l.keys, k);
    TrimmedShown(f[l.page], l, k);
    var g := f[l.page := NodeView(f[l.page].leaf, RemovedAt(f[l.page].keys, i), RemovedAt(f[l.page].slots, i))];
    DeleteStored(f, g, t, k, n);
  }

  lemma DeletePage(t: Tree, k: int, cap: nat, next: int)
    requires Good(t, cap, next) && Has(t, k)
    ensures Delete(t, k).page == t.page
  {
  }
}
