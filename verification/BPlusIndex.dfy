/** The index of src/index/index.cpp: a file of node pages with its header, changed in place, and
    the proof that every operation does to it what the tree functions say. */
module BPlusIndex {
  import opened Wrappers
  import opened BPlusTree
  import opened BPlusInvariant
  import opened IndexNodes
  import opened IndexFiles
  import opened BPlusCursor
  import opened BPlusSeek

  datatype IndexError = EmptyIndexTree | IndexEntryNotFound | ConflictIndexEntryInsertion | UniqueSearchInNonUniqueIndex

  datatype Lookup = Found(rid: Slot) | Missing(error: IndexError)

  /** Every node has its own two buffers of the right size. */
  ghost predicate Owned(nodes: map<int, IndexNode>, repr: set<object>, capacity: nat) {
    && (forall p :: p in nodes ==>
          && nodes[p] in repr && nodes[p].keys in repr && nodes[p].slots in repr
          && nodes[p].keys.Length == capacity && nodes[p].slots.Length == capacity + 1)
    && (forall p, q :: p in nodes && q in nodes && p != q ==>
          nodes[p] != nodes[q] && nodes[p].keys != nodes[q].keys && nodes[p].slots != nodes[q].slots)
  }

  lemma AddOwned(nodes: map<int, IndexNode>, repr: set<object>, capacity: nat, p: int, node: IndexNode)
    requires Owned(nodes, repr, capacity) && p !in nodes
    requires node !in repr && node.keys !in repr && node.slots !in repr
    requires node.keys.Length == capacity && node.slots.Length == capacity + 1
    ensures Owned(nodes[p := node], repr + {node, node.keys, node.slots}, capacity)
  {
  }

  lemma WriteOver(f: File, q: int, x: NodeView, p: int, v: NodeView, w: NodeView)
    requires p != q
    ensures f[q := x][p := v][q := w] == f[p := v][q := w]
  {
  }

  twostate lemma ViewFrame(node: IndexNode)
    requires old(node.keyCount <= node.keys.Length && node.keyCount < node.slots.Length)
    requires unchanged(node) && unchanged(node.keys) && unchanged(node.slots)
    ensures node.View() == old(node.View())
  {
  }

  lemma KeepsTight(t: Tree, k: int, rid: Slot, cap: nat, next: int)
    requires Even(cap) && Good(t, cap, next) && !Has(t, k) && next >= 1
    ensures Sized(InsertRoot(t, k, rid, cap, next).0) && (Tight(t) ==> Tight(InsertRoot(t, k, rid, cap, next).0))
  {
    hide *;
    InsertGood(t, k, rid, cap, next);
    if Tight(t) { InsertRootTight(t, k, rid, cap, next); }
  }

  class Index {
    var nodes: map<int, IndexNode>   // the node pages of the file
    var rootOffset: int              // header: page of the root, -1 when there is none
    var pageCount: int               // header: pages in the file, the header page included
    const capacity: nat              // header: key count per node
    const unique: bool

    ghost var tree: Tree             // the tree that the pages store, once there is a root
    ghost var repr: set<object>

    ghost var file: File             // what the pages hold

    /** The pages are separate buffers of the right size, and file is what they hold. */
    ghost predicate FileOk()
      reads `nodes, `pageCount, `repr, `file, repr
    {
      && this !in repr
      && Even(capacity)
      && pageCount >= 1
      && (forall p :: p in nodes <==> 1 <= p < pageCount)
      && Owned(nodes, repr, capacity)
      && (forall p :: p in file <==> p in nodes)
      && forall p :: p in nodes ==> nodes[p].keyCount <= capacity && file[p] == nodes[p].View()
    }

    ghost predicate Valid()
      reads this, repr
    {
      && FileOk()
      && (rootOffset == -1 ==> pageCount == 1)
      && (rootOffset != -1 ==> Good(tree, capacity, pageCount) && Stored(file, tree) && tree.page == rootOffset)
    }

    /** The sorted map the index stands for. */
    ghost function Contents(): map<int, Slot>
      requires Valid()
      reads this, repr
    {
      if rootOffset == -1 then map[] else Content(tree)
    }

    /** Its entries in order. */
    ghost function Sequence(): seq<Entry>
      requires Valid()
      reads this, repr
    {
      if rootOffset == -1 then [] else TreeEntries(tree)
    }

    /** Every separator is the largest key on its left: true of an index that only grew. */
    ghost predicate Exact()
      requires Valid()
      reads this, repr
    {
      rootOffset == -1 || Tight(tree)
    }

    constructor (capacity: nat, unique: bool)
      requires Even(capacity)
      ensures Valid() && Contents() == map[] && Exact() && repr == {}
      ensures this.capacity == capacity && this.unique == unique
    {
      nodes, rootOffset, pageCount := map[], -1, 1;
      this.capacity, this.unique := capacity, unique;
      tree := Leaf(0, [], [], Slot(-1, -1));
      repr := {};
      file := map[];
      new;
    }

    method AllocateNode() returns (p: int)
      requires FileOk()
      modifies this
      ensures FileOk() && p == old(pageCount) && pageCount == old(pageCount) + 1
      ensures p !in old(nodes) && nodes == old(nodes)[p := nodes[p]] && nodes[p].keyCount == 0
      ensures fresh(nodes[p]) && fresh(nodes[p].keys) && fresh(nodes[p].slots) && fresh(repr - old(repr))
      ensures old(repr) <= repr && rootOffset == old(rootOffset) && tree == old(tree)
      ensures file == old(file)[p := file[p]]
    {
      p := pageCount;
      var node := new IndexNode(capacity);
      AddNode(p, node);
    }

    method AddNode(p: int, node: IndexNode)
      requires FileOk() && p == pageCount && node.Fits(capacity)
      requires node !in repr && node.keys !in repr && node.slots !in repr
      modifies this
      ensures FileOk() && pageCount == old(pageCount) + 1
      ensures p !in old(nodes) && nodes == old(nodes)[p := node]
      ensures repr == old(repr) + {node, node.keys, node.slots} && rootOffset == old(rootOffset) && tree == old(tree)
      ensures file == old(file)[p := node.View()]
    {
      AddOwned(nodes, repr, capacity, p, node);
      pageCount := pageCount + 1;
      nodes := nodes[p := node];
      repr := repr + {node, node.keys, node.slots};
      file := file[p := node.View()];
      ViewFrame(node);
      forall q | q in nodes && q != p ensures nodes[q].keyCount <= capacity && file[q] == nodes[q].View() {
        ViewFrame(nodes[q]);
      }
    }

    /** The loop body of an insertion: puts (k, rid) or (k, old child pointer) into page p at
        position i, splitting the page if it is full. */
    method GrowNode(p: int, i: nat, k: int, rid: Slot, splitPage: int) returns (done: bool, sep: int, newPage: int)
      requires FileOk() && PageFits(file, p, i, capacity)
      modifies this, repr
      ensures FileOk() && fresh(repr - old(repr)) && rootOffset == old(rootOffset) && tree == old(tree)
      ensures done <==> |old(file)[p].keys| < capacity
      ensures pageCount == if done then old(pageCount) else old(pageCount) + 1
      ensures !done ==>
                newPage == old(pageCount) && sep == WideView(old(file)[p], i, k, rid, splitPage).keys[capacity / 2]
      ensures file == GrownFile(old(file), p, i, k, rid, splitPage, capacity, old(pageCount))
    {
      hide WideView, LeftView, RightView;
      sep, newPage, done := 0, -1, nodes[p].keyCount < capacity;
      if done {
        GrowPage(p, i, k, rid, splitPage);
      } else {
        sep, newPage := SplitPage(p, i, k, rid, splitPage);
      }
    }

    method GrowPage(p: int, i: nat, k: int, rid: Slot, splitPage: int)
      requires FileOk() && p in nodes && i <= nodes[p].keyCount < capacity
      requires p in file && PageFits(file, p, i, |file[p].keys|)
      modifies this`file, repr
      ensures FileOk() && repr == old(repr)
      ensures file == old(file)[p := Widened(old(file), p, i, k, rid, splitPage)]
    {
      hide WideView, LeftView, RightView;
      var node := nodes[p];
      GrowDirect(node, i, k, rid, splitPage);
      label Written:
      file := file[p := node.View()];
      ViewFrame@Written(node);
      forall q | q in nodes && q != p ensures nodes[q].keyCount <= capacity && file[q] == nodes[q].View() {
        ViewFrame(nodes[q]);
      }
    }

    method SplitPage(p: int, i: nat, k: int, rid: Slot, splitPage: int) returns (sep: int, newPage: int)
      requires FileOk() && p in nodes && i <= nodes[p].keyCount && nodes[p].keyCount == capacity
      modifies this, repr
      ensures FileOk() && fresh(repr - old(repr)) && rootOffset == old(rootOffset) && tree == old(tree)
      ensures pageCount == old(pageCount) + 1 && newPage == old(pageCount)
      ensures sep == WideView(old(file)[p], i, k, rid, splitPage).keys[capacity / 2]
      ensures file == old(file)[p := LeftView(WideView(old(file)[p], i, k, rid, splitPage), capacity / 2, newPage)]
                               [newPage := RightView(WideView(old(file)[p], i, k, rid, splitPage), capacity / 2, p)]
    {
      hide *;
      PageShape(p);
      newPage := AllocateNode();
      PageShape(p);
      PageShape(newPage);
      ghost var x := file[newPage];
      sep := WriteSplit(p, newPage, i, k, rid, splitPage);
      WriteOver(old(file), newPage, x, p, file[p], file[newPage]);
    }

    lemma PageShape(p: int)
      requires FileOk() && p in nodes
      ensures p in file && |file[p].keys| == nodes[p].keyCount && |file[p].slots| == |file[p].keys| + 1
      ensures nodes[p] in repr && nodes[p].keys in repr && nodes[p].slots in repr && p < pageCount
      ensures capacity / 2 < capacity
    {
    }

    // The split of page p into itself and the page newPage.
    method WriteSplit(p: int, newPage: int, i: nat, k: int, rid: Slot, splitPage: int) returns (sep: int)
      requires FileOk() && p in nodes && newPage in nodes && p != newPage
      requires i <= nodes[p].keyCount && nodes[p].keyCount == capacity
      modifies this`file, nodes[p], nodes[p].keys, nodes[p].slots, nodes[newPage], nodes[newPage].keys,
          nodes[newPage].slots
      ensures FileOk()
      ensures sep == WideView(old(file)[p], i, k, rid, splitPage).keys[capacity / 2]
      ensures file == old(file)[p := LeftView(WideView(old(file)[p], i, k, rid, splitPage), capacity / 2, newPage)]
                               [newPage := RightView(WideView(old(file)[p], i, k, rid, splitPage), capacity / 2, p)]
    {
      hide *;
      FileParts(p, newPage);
      sep := GrowSplit(nodes[p], nodes[newPage], p, newPage, i, k, rid, splitPage);
      forall q | q in nodes && q != p && q != newPage
        ensures nodes[q].keyCount <= capacity && file[q] == nodes[q].View()
      {
        ViewFrame(nodes[q]);
      }
      NoteBoth(p, newPage);
    }

    lemma FileParts(p: int, n: int)
      requires FileOk() && p in nodes && n in nodes && p != n
      ensures this !in repr && Even(capacity) && capacity >= 2 && capacity % 2 == 0 && pageCount >= 1
      ensures Owned(nodes, repr, capacity) && (forall q :: q in nodes <==> 1 <= q < pageCount)
      ensures (forall q :: q in file <==> q in nodes) && file[p] == nodes[p].View()
      ensures nodes[p] in repr && nodes[p].keys in repr && nodes[p].slots in repr
      ensures nodes[n] in repr && nodes[n].keys in repr && nodes[n].slots in repr
      ensures nodes[p].Fits(capacity) && nodes[n].Fits(capacity)
      ensures forall q :: q in nodes ==> nodes[q].keyCount <= capacity && file[q] == nodes[q].View()
      ensures forall q :: q in nodes ==> nodes[q].keys.Length == capacity && nodes[q].slots.Length == capacity + 1
      ensures nodes[p] != nodes[n] && nodes[p].keys != nodes[n].keys && nodes[p].slots != nodes[n].slots
      ensures forall q :: q in nodes && q != p && q != n ==>
                && nodes[q] !in {nodes[p], nodes[n]} && nodes[q].keys !in {nodes[p].keys, nodes[n].keys}
                && nodes[q].slots !in {nodes[p].slots, nodes[n].slots}
    {
    }

    /** Takes two changed pages into what the pages hold. */
    ghost method NoteBoth(p: int, n: int)
      requires this !in repr && Even(capacity) && pageCount >= 1 && (forall q :: q in nodes <==> 1 <= q < pageCount)
      requires Owned(nodes, repr, capacity) && (forall q :: q in file <==> q in nodes)
      requires p in nodes && n in nodes && p != n && nodes[p].keyCount <= capacity && nodes[n].keyCount <= capacity
      requires forall q :: q in nodes && q != p && q != n ==>
                 nodes[q].keyCount <= capacity && file[q] == nodes[q].View()
      modifies this`file
      ensures FileOk() && file == old(file)[p := nodes[p].View()][n := nodes[n].View()]
    {
      label Written:
      file := file[p := nodes[p].View()][n := nodes[n].View()];
      forall q | q in nodes ensures nodes[q].keyCount <= capacity && file[q] == nodes[q].View() {
        ViewFrame@Written(nodes[q]);
      }
    }

    // ------------------------------------------------------------ descent

    // The node object of a page that the tree stores.
    lemma NodeAt(k: int, n: nat)
      requires Valid() && rootOffset != -1 && n <= Height(tree)
      ensures var u := Down(tree, k, n);
              && u.page in nodes && nodes[u.page].View() == file[u.page] && nodes[u.page].keyCount <= capacity
              && nodes[u.page].keys.Length == capacity && nodes[u.page].slots.Length == capacity + 1
              && nodes[u.page].keys[..nodes[u.page].keyCount] == u.keys && Sorted(u.keys)
              && (nodes[u.page].isLeaf <==> n == Height(tree)) && (u.Leaf? <==> n == Height(tree))
              && (u.Node? ==> nodes[u.page].slots[Pos(u.keys, k)].first == Down(tree, k, n + 1).page)
    {
      Visit(file, tree, k, n, capacity, pageCount);
      var u := Down(tree, k, n);
      assert file[u.page].keys == nodes[u.page].keys[..nodes[u.page].keyCount];
      assert file[u.page].slots == nodes[u.page].slots[..nodes[u.page].keyCount + 1];
    }

    /** Descends from the root to the leaf for k, recording the path. */
    method FindPath(k: int) returns (path: seq<(int, int)>, conflict: bool)
      requires Valid() && rootOffset != -1
      ensures PathIs(tree, k, path) && |path| == Height(tree) + 1
      ensures conflict <==> Has(tree, k)
    {
      hide *;
      path := [];
      var page := rootOffset;
      RootPage(k);
      PathStart(tree, k);
      while true
        invariant |path| <= Height(tree) && PathIs(tree, k, path)
        invariant page == Down(tree, k, |path|).page
        decreases Height(tree) - |path|
      {
        NodeAt(k, |path|);
        var node := nodes[page];
        var child := node.Search(k);
        PathStep(tree, k, path, page, child);
        path := path + [(page, child)];
        if node.isLeaf {
          conflict := child < node.keyCount && node.keys[child] == k;
          LeafHas(node, k, |path| - 1, child);
          return;
        }
        page := node.slots[child].first;
      }
    }

    lemma RootPage(k: int)
      requires Valid() && rootOffset != -1
      ensures Sized(tree) && rootOffset == Down(tree, k, 0).page == Leftmost(tree, 0).page
    {
    }

    lemma LeafHas(node: IndexNode, k: int, n: nat, child: nat)
      requires Valid() && rootOffset != -1 && n <= Height(tree) && Down(tree, k, n).Leaf?
      requires node.keyCount <= node.keys.Length && node.keys[..node.keyCount] == Down(tree, k, n).keys
      requires child == Pos(Down(tree, k, n).keys, k)
      ensures Has(tree, k) <==> child < node.keyCount && node.keys[child] == k
    {
      DownLeaf(tree, k, n);
      assert child < node.keyCount ==> node.keys[child] == node.keys[..node.keyCount][child];
    }

    // ------------------------------------------------------------ insertion

    /** Enters a new key into the leaf at the end of the path and, as long as pages split, the
        separators into the pages above; tells whether the root was split as well. */
    method Ascend(path0: seq<(int, int)>, k: int, rid: Slot) returns (rootSplit: bool, sep: int, splitPage: int)
      requires Valid() && rootOffset != -1 && !Has(tree, k)
      requires PathIs(tree, k, path0) && |path0| == Height(tree) + 1
      modifies this, repr
      ensures FileOk() && fresh(repr - old(repr)) && rootOffset == old(rootOffset) && tree == old(tree)
      ensures rootSplit ==> Risen(tree, k, rid, capacity, old(pageCount), 0, old(file), file, pageCount)
      ensures rootSplit ==> Pending(tree, k, rid, capacity, old(pageCount), 0, sep, splitPage)
      ensures !rootSplit ==> var r := Insert(tree, k, rid, capacity, old(pageCount));
                             r.grown.One? && Stored(file, r.grown.tree) && r.next == pageCount
    {
      hide *;
      var path := path0;
      sep, splitPage := k, 0;
      ghost var f0, n0 := file, pageCount;
      ghost var t := tree;
      RisingStart(k, rid, splitPage);
      while path != []
        invariant FileOk() && fresh(repr - old(repr)) && rootOffset == old(rootOffset) && tree == t
        invariant |path| <= |path0| && path == path0[..|path|]
        invariant Rising(t, k, rid, capacity, n0, |path|, f0, file, pageCount, sep, splitPage)
        decreases |path|
      {
        var m := |path| - 1;
        var (page, child) := path[m];
        path := path[..m];
        ghost var u := Down(t, k, m);
        PathAt(t, k, path0, m);
        NextPageFree();
        Round(t, k, rid, capacity, n0, m, f0, file, pageCount, sep, splitPage);
        var done;
        done, sep, splitPage := GrowNode(page, child, sep, rid, splitPage);
        if done {
          Finish(t, k, rid, capacity, n0, m, f0, file, pageCount);
          return false, sep, splitPage;
        }
        RisingNext(t, k, rid, capacity, n0, m, f0, file, pageCount, sep, splitPage);
      }
      rootSplit := true;
      RisingEnd(t, k, rid, capacity, n0, f0, file, pageCount, sep, splitPage);
    }

    lemma RisingStart(k: int, rid: Slot, splitPage: int)
      requires Valid() && rootOffset != -1
      ensures FileOk() && Even(capacity) && Good(tree, capacity, pageCount) && Stored(file, tree) && Sized(tree)
      ensures Rising(tree, k, rid, capacity, pageCount, Height(tree) + 1, file, file, pageCount, k, splitPage)
    {
    }

    lemma NextPageFree()
      requires FileOk()
      ensures pageCount !in file
    {
    }

    // Puts the fresh page p to use.
    method UsePage(p: int, root: bool, k: int, rid: Slot, left: int, right: int)
      requires FileOk() && p in nodes
      modifies this`file, nodes[p], nodes[p].keys, nodes[p].slots
      ensures FileOk() && file == old(file)[p := file[p]]
      ensures !root ==> file[p] == NodeView(true, [k], [rid, Slot(-1, -1)])
      ensures root ==> var v := file[p];
                       !v.leaf && v.keys == [k] && |v.slots| == 2 && v.slots[0].first == left &&
                       v.slots[1].first == right
    {
      var node := nodes[p];
      if root {
        node.InitRoot(k, left, right);
      } else {
        node.InitLeaf(k, rid);
      }
      label Written:
      file := file[p := node.View()];
      ViewFrame@Written(node);
      forall q | q in nodes && q != p ensures nodes[q].keyCount <= capacity && file[q] == nodes[q].View() {
        ViewFrame(nodes[q]);
      }
    }

    /** Adds (k, rid), or fails with a conflict when k is present. */
    method InsertIndexEntry(k: int, rid: Slot) returns (o: Outcome<IndexError>)
      requires Valid()
      modifies this, repr
      ensures Valid() && fresh(repr - old(repr))
      ensures k in old(Contents()) ==> o == Failed(ConflictIndexEntryInsertion)
      ensures k in old(Contents()) ==> tree == old(tree) && file == old(file) && rootOffset == old(rootOffset)
      ensures k !in old(Contents()) ==> o == Done
      ensures Contents() == if o.Done? then old(Contents())[k := rid] else old(Contents())
      ensures old(Exact()) ==> Exact()
    {
      if rootOffset == -1 {
        InsertFirst(k, rid);
        return Done;
      }
      HasIff(tree, Height(tree), k);
      var path, conflict := FindPath(k);
      if conflict {
        return Failed(ConflictIndexEntryInsertion);
      }
      InsertNext(path, k, rid);
      return Done;
    }

    lemma Rooted()
      requires FileOk() && Good(tree, capacity, pageCount) && Stored(file, tree) && tree.page == rootOffset
      ensures Valid() && rootOffset != -1 && Contents() == Content(tree) && (Exact() <==> Tight(tree))
    {
    }

    lemma Unrooted()
      requires Valid()
      ensures FileOk() && Even(capacity) && pageCount >= 1
      ensures rootOffset == -1 ==> pageCount == 1 && Contents() == map[]
      ensures rootOffset != -1 ==>
                && Sized(tree) && Good(tree, capacity, pageCount) && Stored(file, tree) && tree.page == rootOffset
                && Contents() == Content(tree)
                && (Exact() <==> Tight(tree))
    {
    }

    method InsertFirst(k: int, rid: Slot)
      requires Valid() && rootOffset == -1
      modifies this, repr
      ensures Valid() && fresh(repr - old(repr)) && Exact()
      ensures Contents() == map[k := rid]
    {
      hide *;
      Unrooted();
      var p := AllocateNode();
      rootOffset := 1;
      UsePage(p, false, k, rid, 0, 0);
      tree := Leaf(1, [k], [rid], Slot(-1, -1));
      FirstLeafStored(file, k, rid);
      FirstLeafGood(k, rid, capacity);
      Rooted();
    }

    /** A new root page over the old root and the page split off it. */
    method NewRoot(sep: int, rid: Slot, splitPage: int)
      requires FileOk()
      modifies this, repr
      ensures FileOk() && fresh(repr - old(repr)) && tree == old(tree)
      ensures old(pageCount) !in old(file) && pageCount == old(pageCount) + 1 && rootOffset == old(pageCount)
      ensures old(pageCount) in file && file == old(file)[old(pageCount) := file[old(pageCount)]]
      ensures var v := file[old(pageCount)];
              !v.leaf && v.keys == [sep] && |v.slots| == 2 && v.slots[0].first == old(rootOffset) &&
              v.slots[1].first == splitPage
    {
      hide *;
      NextPageFree();
      var p := AllocateNode();
      UsePage(p, true, sep, rid, rootOffset, splitPage);
      rootOffset := p;
    }

    method InsertNext(path: seq<(int, int)>, k: int, rid: Slot)
      requires Valid() && rootOffset != -1 && !Has(tree, k)
      requires PathIs(tree, k, path) && |path| == Height(tree) + 1
      modifies this, repr
      ensures Valid() && fresh(repr - old(repr))
      ensures Contents() == old(Contents())[k := rid]
      ensures old(Exact()) ==> Exact()
    {
      hide *;
      Unrooted();
      ghost var t, n := tree, pageCount;
      var rootSplit, sep, splitPage := Ascend(path, k, rid);
      if rootSplit {
        ghost var f, pages := file, pageCount;
        NewRoot(sep, rid, splitPage);
        NewRootStored(t, k, rid, capacity, n, old(file), f, pages, sep, splitPage, file[pages]);
      } else {
        OldRootStored(t, k, rid, capacity, n, file, pageCount);
      }
      tree := InsertRoot(t, k, rid, capacity, n).0;
      InsertGood(t, k, rid, capacity, n);
      KeepsTight(t, k, rid, capacity, n);
      Rooted();
    }

    // ------------------------------------------------------------ search

    /** The leaf that a descent for k ends in, and the position of k there. */
    method SearchEntryIn(k: int) returns (pos: Position)
      requires Valid() && rootOffset != -1
      ensures Sized(tree) && LeafIndex(tree, k) < |Leaves(tree)|
      ensures var l := Leaves(tree)[LeafIndex(tree, k)]; pos == Position(l.page, Pos(l.keys, k))
    {
      hide *;
      var page := rootOffset;
      RootPage(k);
      ghost var n := 0;
      while true
        invariant n <= Height(tree) && page == Down(tree, k, n).page
        decreases Height(tree) - n
      {
        NodeAt(k, n);
        var node := nodes[page];
        var child := node.Search(k);
        if node.isLeaf {
          DownLeaf(tree, k, n);
          return Position(page, child);
        }
        page := node.slots[child].first;
        n := n + 1;
      }
    }

    // What the page of leaf i holds.
    lemma LeafNode(i: nat)
      requires Valid() && rootOffset != -1 && i < |Leaves(tree)|
      ensures var l := Leaves(tree)[i];
              && l.Leaf? && |l.rids| == |l.keys| && l.page >= 1
              && l.page in nodes && nodes[l.page].keyCount == |l.keys| <= capacity
              && nodes[l.page].keys.Length == capacity && nodes[l.page].slots.Length == capacity + 1
              && nodes[l.page].isLeaf
              && nodes[l.page].View() == file[l.page] == NodeView(true, l.keys, l.rids + [l.link])
              && (forall j :: 0 <= j < |l.keys| ==>
                    nodes[l.page].keys[j] == l.keys[j] && nodes[l.page].slots[j] == l.rids[j])
              && nodes[l.page].slots[|l.keys|] == l.link
              && l.link.second == PageAfter(Leaves(tree), i)
    {
      ReadLeaf(file, tree, i, capacity, pageCount);
      var l := Leaves(tree)[i];
      var node := nodes[l.page];
      assert node.keys[..node.keyCount] == l.keys && node.slots[..node.keyCount + 1] == l.rids + [l.link];
      assert forall j :: 0 <= j < |l.keys| ==> node.keys[..node.keyCount][j] == l.keys[j];
      assert forall j :: 0 <= j < |l.keys| ==> node.slots[..node.keyCount + 1][j] == l.rids[j];
      assert node.slots[..node.keyCount + 1][|l.keys|] == l.link;
    }

    // A leaf lookup decides membership of k in the whole index.
    lemma LookupLeaf(k: int)
      requires Valid() && rootOffset != -1
      ensures Sized(tree) && LeafIndex(tree, k) < |Leaves(tree)|
      ensures var l := Leaves(tree)[LeafIndex(tree, k)];
              var i := Pos(l.keys, k);
              && l.Leaf? && |l.rids| == |l.keys|
              && (Has(tree, k) <==> k in Contents())
              && (k in Contents() <==> i < |l.keys| && l.keys[i] == k)
              && (k in Contents() ==> Contents()[k] == l.rids[i])
    {
      LeavesAreLeaves(tree);
      HasLeaf(tree, k);
      HasIff(tree, Height(tree), k);
      if Has(tree, k) {
        HasEntry(tree, Height(tree), k);
      }
    }

    /** The record of k in a unique index; fails exactly when k is absent. */
    method SearchUniqueIndexEntry(k: int) returns (r: Lookup)
      requires Valid()
      ensures !unique ==> r == Missing(UniqueSearchInNonUniqueIndex)
      ensures unique && k in Contents() ==> r == Found(Contents()[k])
      ensures unique && k !in Contents() ==>
                r == Missing(if rootOffset == -1 then EmptyIndexTree else IndexEntryNotFound)
    {
      if !unique {
        return Missing(UniqueSearchInNonUniqueIndex);
      }
      if rootOffset == -1 {
        return Missing(EmptyIndexTree);
      }
      hide *;
      var pos := SearchEntryIn(k);
      LeafNode(LeafIndex(tree, k));
      LookupLeaf(k);
      var node := nodes[pos.page];
      if pos.child < node.keyCount && node.keys[pos.child] == k {
        return Found(node.slots[pos.child]);
      }
      return Missing(IndexEntryNotFound);
    }

    /** The number of the entry a seek for k reports: the first at or above k in the leaf that the
        descent ends in, else the number of entries. */
    ghost function Seek(k: int): nat
      requires Valid()
      reads this, repr
    {
      if rootOffset == -1 then 0
      else
        FindsLeaf(tree, k);
        SeekIndex(tree, k)
    }

    /** A seek for k is right: it reports the first entry at or above k of the whole index. */
    ghost predicate SeeksRight(k: int)
      requires Valid()
      reads this, repr
    {
      forall e :: 0 <= e < Seek(k) && e < |Sequence()| ==> Sequence()[e].key < k
    }

    /** The entries are those of the map in strictly increasing order.  An entry that a seek
        reports is the first at or above k in every reachable state; the end is rightly reported
        if the index only grew, or if k is there. */
    lemma SeekFacts(k: int)
      requires Valid()
      ensures EntriesSorted(Sequence()) && Contents() == EntryMap(Sequence()) && Seek(k) <= |Sequence()|
      ensures Seek(k) < |Sequence()| ==> k <= Sequence()[Seek(k)].key
      ensures Seek(k) < |Sequence()| || Exact() || k in Contents() ==> SeeksRight(k)
    {
      if rootOffset != -1 {
        Unrooted();
        TreeSeek(tree, k);
      }
    }

    /** s is a key of an internal node. */
    ghost predicate IsSeparator(s: int)
      requires Valid()
      reads this, repr
    {
      rootOffset != -1 && Separator(tree, s)
    }

    /** If s is a separator at or above k with entries above it, there is an entry from k up to s. */
    ghost predicate Bridged(k: int, s: int)
      requires Valid()
      reads this, repr
    {
      IsSeparator(s) && k <= s && (exists m :: m in Contents() && s < m) ==> exists m :: m in Contents() && k <= m <= s
    }

    /** In every reachable state, a seek for k is right iff every separator at or above k that has entries above it
        has one from k up to itself too. */
    lemma SeeksRightIff(k: int)
      requires Valid()
      ensures SeeksRight(k) <==> forall s :: Bridged(k, s)
    {
      if rootOffset != -1 {
        hide *;
        GoodTree();
        SeeksRightInTree(k);
        SeekRightIff(tree, k, Height(tree));
        BridgedGaps(k);
      } else {
        Unrooted();
      }
    }

    lemma GoodTree()
      requires Valid() && rootOffset != -1
      ensures Ordered(tree, Height(tree), Unbounded, Unbounded)
    {
    }

    lemma BridgedGaps(k: int)
      requires Valid() && rootOffset != -1
      ensures Sized(tree) && (NoGap(tree, k) <==> forall s :: Bridged(k, s))
    {
      HasContents();
      hide Valid, Contents, Separator, Has;
      forall s ensures Bridged(k, s) <==> !Gap(tree, k, s) {
      }
    }

    ghost predicate AllSeeksRight()
      requires Valid()
      reads this, repr
    {
      forall k :: SeeksRight(k)
    }

    /** All seeks are right iff every separator with entries above it is an entry itself. */
    lemma AllSeeksRightIff()
      requires Valid()
      ensures AllSeeksRight() <==>
                forall s :: IsSeparator(s) && (exists m :: m in Contents() && s < m) ==> s in Contents()
    {
      forall k ensures SeeksRight(k) <==> forall s :: Bridged(k, s) {
        SeeksRightIff(k);
      }
      hide SeeksRight, IsSeparator, Contents;
      if AllSeeksRight() {
        forall s | IsSeparator(s) && (exists m :: m in Contents() && s < m) ensures s in Contents() {
          assert SeeksRight(s) && Bridged(s, s);
        }
      }
    }

    lemma SeeksRightInTree(k: int)
      requires Valid() && rootOffset != -1
      ensures Sized(tree) && LeafIndex(tree, k) < |Leaves(tree)| && SeekIndex(tree, k) <= |TreeEntries(tree)|
      ensures SeeksRight(k) <==> SeekIsRight(tree, k)
    {
      SeekIs(k);
      TreeSeek(tree, k);
      assert Sequence() == TreeEntries(tree);
      hide Valid, Seek, Sequence, SeekIndex, LeafIndex;
      if SeekIsRight(tree, k) {
        assert SeeksRight(k);
      } else {
        var e :| 0 <= e < SeekIndex(tree, k) && TreeEntries(tree)[e].key >= k;
        assert !SeeksRight(k);
      }
    }

    lemma HasContents()
      requires Valid() && rootOffset != -1
      ensures Sized(tree) && forall m :: m in Contents() <==> Has(tree, m)
    {
      forall m ensures m in Contents() <==> Has(tree, m) {
        LookupLeaf(m);
      }
    }

    /** The place of the first entry at or above k in the leaf that the descent ends in, else the
        end.  The source does not step on to the next leaf. */
    method SearchIndexEntry(k: int) returns (pos: Position)
      requires Valid()
      ensures pos == Place(Seek(k))
    {
      hide *;
      Unrooted();
      SeekIs(k);
      if rootOffset == -1 {
        NoPlace(0);
        return END;
      }
      pos := SearchEntryIn(k);
      LeafNode(LeafIndex(tree, k));
      SeekPlace(tree, k);
      var node := nodes[pos.page];
      pos := if pos.child < node.keyCount then pos else END;
      PlaceIs(SeekIndex(tree, k));
    }

    lemma SeekIs(k: int)
      requires Valid()
      ensures rootOffset == -1 ==> Seek(k) == 0
      ensures rootOffset != -1 ==> Sized(tree) && LeafIndex(tree, k) < |Leaves(tree)| && Seek(k) == SeekIndex(tree, k)
    {
      if rootOffset != -1 { FindsLeaf(tree, k); }
    }

    /** Different entries have different places, and the end is that of no entry. */
    lemma PlacesDiffer(a: nat, b: nat)
      requires Valid()
      ensures a < |Sequence()| && a < b ==> Place(a) != Place(b)
      ensures a >= |Sequence()| ==> Place(a) == Position(-1, -1)
    {
      if rootOffset != -1 {
        LeavesAreLeaves(tree);
        BeforeAll(Leaves(tree));
        if a >= |Sequence()| {
          PlaceEnd(Leaves(tree), a);
        } else if b <= |Sequence()| {
          if a < b { PlaceInjective(tree, a, b); }
        } else {
          PlaceEnd(Leaves(tree), b);
          PlaceEnd(Leaves(tree), |Sequence()|);
          PlaceInjective(tree, a, |Sequence()|);
        }
      }
    }

    /** The place of entry number e. */
    ghost function Place(e: nat): Position
      requires Valid()
      reads this, repr
    {
      if rootOffset == -1 then END else PlaceOf(Leaves(tree), e)
    }

    lemma PlaceIs(e: nat)
      requires Valid() && rootOffset != -1
      ensures Place(e) == PlaceOf(Leaves(tree), e)
    {
    }

    // ------------------------------------------------------------ deletion

    /** Removes k, or fails when it is absent, changing nothing.  Separators stay; they stay exact iff the key removed
        is none of them. */
    method DeleteIndexEntry(k: int) returns (o: Outcome<IndexError>)
      requires Valid()
      modifies this, repr
      ensures Valid() && repr == old(repr)
      ensures k in old(Contents()) ==> o == Done && Contents() == old(Contents()) - {k}
      ensures k !in old(Contents()) ==>
                o == Failed(if old(rootOffset) == -1 then EmptyIndexTree else IndexEntryNotFound)
      ensures k !in old(Contents()) ==> tree == old(tree) && file == old(file) && rootOffset == old(rootOffset)
      ensures k !in old(Contents()) ==> Contents() == old(Contents())
      ensures forall s :: IsSeparator(s) <==> old(IsSeparator(s))
      ensures k !in old(Contents()) ==> (Exact() <==> old(Exact()))
      ensures k in old(Contents()) && old(Exact()) ==> (Exact() <==> !old(IsSeparator(k)))
    {
      if rootOffset == -1 {
        return Failed(EmptyIndexTree);
      }
      var pos := SearchEntryIn(k);
      var present := KeyMatches(pos, k);
      if present {
        RemoveAt(pos.page, pos.child, k);
        return Done;
      }
      return Failed(IndexEntryNotFound);
    }

    method KeyMatches(pos: Position, k: int) returns (b: bool)
      requires Valid() && rootOffset != -1 && LeafIndex(tree, k) < |Leaves(tree)|
      requires var l := Leaves(tree)[LeafIndex(tree, k)]; pos == Position(l.page, Pos(l.keys, k))
      ensures b <==> k in Contents()
    {
      hide *;
      Unrooted();
      LeafNode(LeafIndex(tree, k));
      LookupLeaf(k);
      var node := nodes[pos.page];
      b := pos.child < node.keyCount && node.keys[pos.child] == k;
    }

    method RemoveAt(page: int, child: int, k: int)
      requires Valid() && rootOffset != -1 && LeafIndex(tree, k) < |Leaves(tree)| && k in Contents()
      requires var l := Leaves(tree)[LeafIndex(tree, k)]; page == l.page && child == Pos(l.keys, k)
      modifies this, repr
      ensures Valid() && rootOffset != -1 && repr == old(repr)
      ensures Contents() == old(Contents()) - {k}
      ensures forall s :: IsSeparator(s) <==> old(IsSeparator(s))
      ensures old(Exact()) ==> (Exact() <==> !old(IsSeparator(k)))
    {
      hide *;
      Unrooted();
      LeafNode(LeafIndex(tree, k));
      LookupLeaf(k);
      DeleteKeeps(k);
      LeafDeleted(file, tree, k, capacity, pageCount);
      DeleteGood(tree, k, capacity, pageCount);
      ghost var u := Delete(tree, k);
      DeletePage(tree, k, capacity, pageCount);
      RemoveFromPage(page, child);
      tree := u;
      Rooted();
      SeparatorsAre();
    }

    lemma SeparatorsAre()
      requires Valid() && rootOffset != -1
      ensures forall s :: IsSeparator(s) <==> Separator(tree, s)
    {
    }

    lemma DeleteKeeps(k: int)
      requires Valid() && rootOffset != -1 && Sized(tree) && Has(tree, k)
      ensures forall s :: Separator(Delete(tree, k), s) <==> IsSeparator(s)
      ensures Exact() ==> (Tight(Delete(tree, k)) <==> !IsSeparator(k))
    {
      forall s ensures Separator(Delete(tree, k), s) <==> IsSeparator(s) {
        DeleteSeparators(tree, k, s);
      }
      if Exact() { DeleteTightIff(tree, k, Height(tree)); }
    }

    method RemoveFromPage(p: int, i: nat)
      requires FileOk() && p in nodes && i < nodes[p].keyCount
      modifies this`file, repr
      ensures FileOk() && repr == old(repr) && |old(file)[p].keys| == old(nodes[p].keyCount)
      ensures |old(file)[p].slots| == old(nodes[p].keyCount) + 1
      ensures file == old(file)[p := NodeView(old(file)[p].leaf, RemovedAt(old(file)[p].keys, i),
          RemovedAt(old(file)[p].slots, i))]
    {
      hide RemovedAt;
      var node := nodes[p];
      node.RemoveEntry(i);
      label Written:
      file := file[p := node.View()];
      ViewFrame@Written(node);
      forall q | q in nodes && q != p ensures nodes[q].keyCount <= capacity && file[q] == nodes[q].View() {
        ViewFrame(nodes[q]);
      }
    }

    // ------------------------------------------------------------ iteration

    /** The place after position child of leaf i: the next entry of the leaf, else the first entry
        of the next leaf on the chain that has one. */
    method EntryAfter(page: int, child: int, ghost i: nat) returns (r: Position)
      requires Valid() && rootOffset != -1 && i < |Leaves(tree)|
      requires page == Leaves(tree)[i].page && -1 <= child < |Leaves(tree)[i].keys|
      ensures r == PlaceOf(Leaves(tree), Before(Leaves(tree), i) + (child + 1))
    {
      hide *;
      LeafNode(i);
      ghost var L := Leaves(tree);
      var node := nodes[page];
      if child + 1 < node.keyCount {  // not last
        PlaceAt(L, i, child + 1);
        return Position(page, child + 1);
      }
      // find the entry in the next nodes
      var nextPage := node.slots[node.keyCount].second;
      ghost var j := i + 1;
      SkipStart(L, i);
      while nextPage != -1
        invariant i + 1 <= j <= |L| && nextPage == (if j < |L| then L[j].page else -1)
        invariant Before(L, j) == Before(L, i) + (child + 1)
        decreases |L| - j
      {
        LeafNode(j);
        var nextNode := nodes[nextPage];
        if nextNode.keyCount != 0 {
          PlaceAt(L, j, 0);
          return Position(nextPage, 0);
        }
        nextPage := nextNode.slots[nextNode.keyCount].second;
        SkipStart(L, j);
        j := j + 1;
      }
      if j < |L| { LeafNode(j); }
      PlaceEnd(L, Before(L, j));
      r := END;
    }

    /** The place after that of entry e. */
    method NextIndexEntryOffset(offset: Position, ghost e: nat) returns (r: Position)
      requires Valid() && offset == Place(e)
      ensures r == Place(e + 1)
    {
      hide *;
      if offset.page == -1 {
        EndStays(e);
        return END;
      }
      ghost var i, c := PlaceLeaf(e);
      r := EntryAfter(offset.page, offset.child, i);
    }

    /** The place of the first entry. */
    method IndexEntryOffsetBegin() returns (r: Position)
      requires Valid()
      ensures r == Place(0)
    {
      hide *;
      Unrooted();
      var p := rootOffset;
      if p == -1 {
        NoPlace(0);
        return END;
      }
      RootPage(0);
      ghost var n := 0;
      LeftmostNode(0);
      while true
        invariant n <= Height(tree) && p == Leftmost(tree, n).page
        decreases Height(tree) - n
      {
        LeftmostNode(n);
        if nodes[p].isLeaf {
          LeftmostLeaf(tree, n);
          r := EntryAfter(p, -1, 0);
          NoneBefore(Leaves(tree));
          PlaceIs(0);
          return;
        }
        p := nodes[p].slots[0].first;
        n := n + 1;
      }
    }

    /** The record at the place of entry e. */
    method RelatedRecordOffset(offset: Position, ghost e: nat) returns (rid: Slot)
      requires Valid() && offset == Place(e)
      ensures rid == if e < |Sequence()| then Sequence()[e].rid else Slot(-1, -1)
    {
      hide *;
      if offset.page < 0 || offset.child < 0 {
        EndStays(e);
        return Slot(-1, -1);
      }
      ghost var i, c := PlaceLeaf(e);
      LeafNode(i);
      var node := nodes[offset.page];
      if offset.child < node.keyCount {
        return node.slots[offset.child];
      }
      return Slot(-1, -1);
    }

    lemma NoPlace(e: nat)
      requires Valid() && rootOffset == -1
      ensures Place(e) == END
    {
    }

    // A place with a page is that of an entry of some leaf.
    lemma PlaceLeaf(e: nat) returns (i: nat, c: nat)
      requires Valid() && Place(e).page != -1
      ensures rootOffset != -1 && i < |Leaves(tree)| && c < |Leaves(tree)[i].keys|
      ensures Place(e) == Position(Leaves(tree)[i].page, c) && e == Before(Leaves(tree), i) + c
      ensures e < |Sequence()|
      ensures Leaves(tree)[i].Leaf? && |Leaves(tree)[i].rids| == |Leaves(tree)[i].keys|
      ensures Sequence()[e].rid == Leaves(tree)[i].rids[c]
      ensures Place(e + 1) == PlaceOf(Leaves(tree), e + 1)
    {
      var L := Leaves(tree);
      LeavesAreLeaves(tree);
      if e >= Before(L, |L|) {
        PlaceEnd(L, e);
        assert false;
      }
      i, c := PlaceSource(L, e);
      BeforeAll(L);
      BeforeIsEntries(L, i);
      EntryAt(L, i, c);
    }

    // The end is the place of no entry, and so are all later ones.
    lemma EndStays(e: nat)
      requires Valid() && (Place(e).page == -1 || Place(e).page < 0 || Place(e).child < 0)
      ensures Place(e) == END && Place(e + 1) == END && e >= |Sequence()|
    {
      if rootOffset != -1 {
        var L := Leaves(tree);
        LeavesAreLeaves(tree);
        BeforeAll(L);
        if e < Before(L, |L|) {
          var i, c := PlaceSource(L, e);
          ReadLeaf(file, tree, i, capacity, pageCount);
          assert false;
        }
        PlaceEnd(L, e);
        PlaceEnd(L, e + 1);
      }
    }

    lemma LeftmostNode(n: nat)
      requires Valid() && rootOffset != -1 && n <= Height(tree)
      ensures var u := Leftmost(tree, n);
              && u.page in nodes && nodes[u.page].slots.Length >= 1
              && (nodes[u.page].isLeaf <==> n == Height(tree)) && (u.Leaf? <==> n == Height(tree))
              && (u.Node? ==> nodes[u.page].slots[0].first == Leftmost(tree, n + 1).page)
    {
      LeftmostStored(file, tree, n, Height(tree), Unbounded, Unbounded);
      var u := Leftmost(tree, n);
      var node := nodes[u.page];
      assert file[u.page].slots == node.slots[..node.keyCount + 1];
    }
  }
}
