/** One page of an index: the key and pointer buffers that src/index/index.cpp shifts in place. */
module IndexNodes {
  import opened BPlusTree

  /** What a node page holds: its keys and one slot more, the last one trailing. */
  datatype NodeView = NodeView(leaf: bool, keys: seq<int>, slots: seq<Slot>)

  /** Buffer a after a block move of m to position j. */
  function Overlaid<T>(a: seq<T>, j: nat, m: seq<T>): (r: seq<T>)
    requires j + |m| <= |a|
    ensures |r| == |a|
  {
    a[..j] + m + a[j + |m|..]
  }

  class IndexNode {
    var keyCount: nat
    var isLeaf: bool
    const keys: array<int>
    const slots: array<Slot>

    /** A newly allocated page: room for `capacity` entries and the trailing slot, any contents. */
    constructor (capacity: nat)
      ensures keys.Length == capacity && slots.Length == capacity + 1
      ensures fresh(keys) && fresh(slots)
      ensures keyCount == 0
    {
      keyCount, isLeaf := 0, false;
      keys := new int[capacity](_ => 0);
      slots := new Slot[capacity + 1](_ => Slot(0, 0));
    }

    ghost predicate Fits(capacity: nat)
      reads this
    {
      keys.Length == capacity && slots.Length == capacity + 1 && keyCount <= capacity
    }

    ghost function View(): NodeView
      requires keyCount <= keys.Length && keyCount < slots.Length
      reads this, keys, slots
    {
      NodeView(isLeaf, keys[..keyCount], slots[..keyCount + 1])
    }

    /** Binary search: the number of keys below k. */
    method Search(k: int) returns (right: nat)
      requires keyCount <= keys.Length
      requires Sorted(keys[..keyCount])
      ensures right == Pos(keys[..keyCount], k)
    {
      var left := 0;
      right := keyCount;
      while left < right
        invariant 0 <= left <= right <= keyCount
        invariant forall j :: 0 <= j < left ==> keys[j] < k
        invariant forall j :: right <= j < keyCount ==> k <= keys[j]
      {
        var mid := left + (right - left) / 2;
        assert forall a, b :: 0 <= a < b < keyCount ==> keys[..keyCount][a] < keys[..keyCount][b];
        if keys[mid] < k {
          left := mid + 1;
        } else {
          right := mid;
        }
      }
      PosUnique(keys[..keyCount], k, right);
    }

    /** The first leaf of an index. */
    method InitLeaf(k: int, rid: Slot)
      requires Fits(keys.Length) && keys.Length >= 1
      modifies this, keys, slots
      ensures Fits(keys.Length) && View() == NodeView(true, [k], [rid, Slot(-1, -1)])
    {
      keyCount, isLeaf := 1, true;
      keys[0] := k;
      slots[0] := rid;
      slots[1] := Slot(-1, -1);
      assert keys[..1] == [k] && slots[..2] == [rid, Slot(-1, -1)];
    }

    /** A new root above two pages; only the page half of its pointers is written. */
    method InitRoot(sep: int, left: int, right: int)
      requires Fits(keys.Length) && keys.Length >= 1
      modifies this, keys, slots
      ensures Fits(keys.Length)
      ensures var v := View();
              !v.leaf && v.keys == [sep] && |v.slots| == 2 && v.slots[0].first == left && v.slots[1].first == right
    {
      keyCount, isLeaf := 1, false;
      keys[0] := sep;
      slots[0] := Slot(left, slots[0].second);
      slots[1] := Slot(right, slots[1].second);
      assert keys[..1] == [sep] && slots[..2] == [slots[0], slots[1]];
    }

    /** Makes room for (k, s) at position i and writes it. */
    method InsertEntry(i: nat, k: int, s: Slot)
      requires Fits(keys.Length) && keyCount < keys.Length && i <= keyCount
      modifies `keyCount, keys, slots
      ensures Fits(keys.Length) && isLeaf == old(isLeaf)
      ensures View() == NodeView(isLeaf, InsertedAt(old(View()).keys, i, k), InsertedAt(old(View()).slots, i, s))
    {
      ghost var ok, os := keys[..], slots[..];
      MoveTrailing(this, i, this, i + 1);
      WriteAt(this, i, k, s);
      ShiftedIn(ok, i, keyCount, k);
      ShiftedIn(os, i, keyCount + 1, s);
      keyCount := keyCount + 1;
      assert keys[..keyCount] == keys[..][..keyCount] && slots[..keyCount + 1] == slots[..][..keyCount + 1];
    }

    /** Removes entry i by moving what follows over it. */
    method RemoveEntry(i: nat)
      requires Fits(keys.Length) && i < keyCount
      modifies `keyCount, keys, slots
      ensures Fits(keys.Length) && isLeaf == old(isLeaf)
      ensures View() == NodeView(isLeaf, RemovedAt(old(View()).keys, i), RemovedAt(old(View()).slots, i))
    {
      MoveTrailing(this, i + 1, this, i);
      keyCount := keyCount - 1;
      assert keys[..keyCount] == RemovedAt(old(View()).keys, i);
      assert slots[..keyCount + 1] == RemovedAt(old(View()).slots, i);
    }
  }

  lemma {:induction false} PosUnique(s: seq<int>, k: int, i: nat)
    requires i <= |s|
    requires forall j :: 0 <= j < i ==> s[j] < k
    requires i < |s| ==> k <= s[i]
    ensures i == Pos(s, k)
  {
    if s != [] && s[0] < k {
      PosUnique(s[1..], k, i - 1);
    }
  }

  /** Moves the entries of src from position i on, with the trailing slot, to position j of dst;
      src and dst may be the same page. */
  method MoveTrailing(src: IndexNode, i: nat, dst: IndexNode, j: nat)
    requires i <= src.keyCount <= src.keys.Length && src.slots.Length == src.keys.Length + 1
    requires j + (src.keyCount - i) <= dst.keys.Length && dst.slots.Length == dst.keys.Length + 1
    modifies dst.keys, dst.slots
    ensures dst.keys[..] == Overlaid(old(dst.keys[..]), j, old(src.keys[i..src.keyCount]))
    ensures dst.slots[..] == Overlaid(old(dst.slots[..]), j, old(src.slots[i..src.keyCount + 1]))
  {
    var n := src.keyCount - i;
    forall x | 0 <= x < n {
      dst.keys[j + x] := src.keys[i + x];
    }
    forall x | 0 <= x <= n {
      dst.slots[j + x] := src.slots[i + x];
    }
  }

  /** The first cap/2+1 and the remaining cap/2 entries of a full node with (k, s) inserted at
      position i, in the two pages.  The branches move entries in the order that leaves room
      for the new one in its page. */
  method SplitInsert(node: IndexNode, split: IndexNode, i: nat, k: int, s: Slot)
    requires node != split && node.keys != split.keys && node.slots != split.slots
    requires node.Fits(node.keys.Length) && split.Fits(node.keys.Length)
    requires node.keyCount == node.keys.Length >= 2 && node.keyCount % 2 == 0 && i <= node.keyCount
    modifies node`keyCount, node.keys, node.slots, split`keyCount, split.keys, split.slots
    ensures node.keyCount == node.keys.Length / 2 + 1 && split.keyCount == node.keys.Length / 2
    ensures var h, wk, ws :=
              node.keys.Length / 2, InsertedAt(old(node.View()).keys, i, k), InsertedAt(old(node.View()).slots, i, s);
            && node.keys[..h + 1] == wk[..h + 1] && node.slots[..h + 1] == ws[..h + 1]
            && split.keys[..h] == wk[h + 1..] && split.slots[..h + 1] == ws[h + 1..]
  {
    var cap := node.keys.Length;
    if i <= cap / 2 {
      SplitFormer(node, split, i, k, s);
    } else {
      SplitLatter(node, split, i, k, s);
    }
  }

  // An insertion as a block move and a write.
  lemma ShiftedIn<T>(a: seq<T>, i: nat, n: nat, e: T)
    requires i <= n < |a|
    ensures Overlaid(a, i + 1, a[i..n])[i := e][..n + 1] == InsertedAt(a[..n], i, e)
  {
  }

  lemma SamePrefix<T>(x: seq<T>, y: seq<T>, n: nat)
    requires n <= |x| && n <= |y| && forall j :: 0 <= j < n ==> x[j] == y[j]
    ensures x[..n] == y[..n]
  {
  }

  lemma FormerPart<T>(a: seq<T>, i: nat, h: nat, m: nat, e: T)
    requires i <= h <= m <= |a|
    ensures InsertedAt(a[..m], i, e)[..h + 1] == InsertedAt(a, i, e)[..h + 1]
  {
    var x, y := InsertedAt(a[..m], i, e), InsertedAt(a, i, e);
    forall j | 0 <= j < h + 1 ensures x[j] == y[j] {
      if j > i { assert a[..m][j - 1] == a[j - 1]; }
    }
    SamePrefix(x, y, h + 1);
  }

  lemma LatterRest<T>(a: seq<T>, i: nat, h: nat, e: T)
    requires i <= h <= |a|
    ensures InsertedAt(a, i, e)[h + 1..] == a[h..]
  {
  }

  lemma LatterPart<T>(a: seq<T>, b: seq<T>, i: nat, p: nat, m: nat, e: T)
    requires p <= i <= m <= i + 1 && m <= |a| <= |b| && |a| - p < |b|
    ensures Overlaid(Overlaid(b, i - p + 1, a[i..]), 0, a[p..m])[i - p := e][..|a| - p + 1] == InsertedAt(a, i, e)[p..]
  {
  }

  lemma FormerRest<T>(a: seq<T>, i: nat, p: nat, e: T)
    requires p <= i <= |a|
    ensures InsertedAt(a, i, e)[..p] == a[..p]
  {
  }

  method SplitFormer(node: IndexNode, split: IndexNode, i: nat, k: int, s: Slot)
    requires node != split && node.keys != split.keys && node.slots != split.slots
    requires node.Fits(node.keys.Length) && split.Fits(node.keys.Length)
    requires node.keyCount == node.keys.Length >= 2 && node.keyCount % 2 == 0 && i <= node.keyCount / 2
    modifies node`keyCount, node.keys, node.slots, split`keyCount, split.keys, split.slots
    ensures node.keyCount == node.keys.Length / 2 + 1 && split.keyCount == node.keys.Length / 2
    ensures var h, wk, ws :=
              node.keys.Length / 2, InsertedAt(old(node.View()).keys, i, k), InsertedAt(old(node.View()).slots, i, s);
            && node.keys[..h + 1] == wk[..h + 1] && node.slots[..h + 1] == ws[..h + 1]
            && split.keys[..h] == wk[h + 1..] && split.slots[..h + 1] == ws[h + 1..]
  {
    hide Overlaid;
    var splitPos := node.keys.Length / 2;
    ghost var ok, os := node.View().keys, node.View().slots;
    MoveFormer(node, split);
    LatterRest(ok, i, splitPos, k);
    LatterRest(os, i, splitPos, s);
    // the former part now has room for the new entry
    node.InsertEntry(i, k, s);
    FormerPart(ok, i, splitPos, splitPos, k);
    FormerPart(os, i, splitPos, splitPos + 1, s);
    assert node.keys[..splitPos + 1] == node.View().keys[..splitPos + 1];
    assert node.slots[..splitPos + 1] == node.View().slots[..splitPos + 1];
  }

  /** Moves the latter half of a full node to the split node, to make space for an insertion. */
  method MoveFormer(node: IndexNode, split: IndexNode)
    requires node != split && node.keys != split.keys && node.slots != split.slots
    requires node.Fits(node.keys.Length) && split.Fits(node.keys.Length)
    requires node.keyCount == node.keys.Length && node.keyCount % 2 == 0
    modifies node`keyCount, split`keyCount, split.keys, split.slots
    ensures node.keyCount == split.keyCount == node.keys.Length / 2
    ensures node.View().keys == old(node.View()).keys[..node.keyCount]
    ensures node.View().slots == old(node.View()).slots[..node.keyCount + 1]
    ensures split.keys[..split.keyCount] == old(node.View()).keys[split.keyCount..]
    ensures split.slots[..split.keyCount + 1] == old(node.View()).slots[split.keyCount..]
  {
    var splitPos := node.keys.Length / 2;
    MoveTrailing(node, splitPos, split, 0);
    split.keyCount := node.keyCount - splitPos;
    node.keyCount := splitPos;
  }

  method SplitLatter(node: IndexNode, split: IndexNode, i: nat, k: int, s: Slot)
    requires node != split && node.keys != split.keys && node.slots != split.slots
    requires node.Fits(node.keys.Length) && split.Fits(node.keys.Length)
    requires node.keyCount == node.keys.Length >= 2 && node.keyCount % 2 == 0 && node.keyCount / 2 < i <= node.keyCount
    modifies node`keyCount, node.keys, node.slots, split`keyCount, split.keys, split.slots
    ensures node.keyCount == node.keys.Length / 2 + 1 && split.keyCount == node.keys.Length / 2
    ensures var h, wk, ws :=
              node.keys.Length / 2, InsertedAt(old(node.View()).keys, i, k), InsertedAt(old(node.View()).slots, i, s);
            && node.keys[..h + 1] == wk[..h + 1] && node.slots[..h + 1] == ws[..h + 1]
            && split.keys[..h] == wk[h + 1..] && split.slots[..h + 1] == ws[h + 1..]
  {
    hide InsertedAt, Overlaid;
    var splitPos := node.keys.Length / 2 + 1;
    var splitCount := node.keyCount - splitPos + 1;
    var splitChild := i - splitPos;
    ghost var ok, os, bk, bs := node.keys[..], node.slots[..], split.keys[..], split.slots[..];
    assert node.View().keys == ok && node.View().slots == os;
    MoveLatter(node, split, i, splitPos);
    WriteAt(split, splitChild, k, s);
    node.keyCount := splitPos;
    split.keyCount := splitCount;
    LatterPart(ok, bk, i, splitPos, i, k);
    LatterPart(os, bs, i, splitPos, i + 1, s);
    FormerRest(ok, i, splitPos, k);
    FormerRest(os, i, splitPos, s);
    assert split.keys[..splitCount] == split.keys[..][..splitCount];
    assert split.slots[..splitCount + 1] == split.slots[..][..splitCount + 1];
    assert node.keys[..splitPos] == ok[..splitPos] && node.slots[..splitPos] == os[..splitPos];
  }

  method WriteAt(node: IndexNode, i: nat, k: int, s: Slot)
    requires i < node.keys.Length && i < node.slots.Length
    modifies node.keys, node.slots
    ensures node.keys[..] == old(node.keys[..])[i := k] && node.slots[..] == old(node.slots[..])[i := s]
  {
    node.keys[i] := k;
    node.slots[i] := s;
  }

  /** Moves the entries around the gap at i to the split node, leaving the gap open there. */
  method MoveLatter(node: IndexNode, split: IndexNode, i: nat, splitPos: nat)
    requires node != split && node.keys != split.keys && node.slots != split.slots
    requires node.Fits(node.keys.Length) && split.Fits(node.keys.Length)
    requires node.keyCount == node.keys.Length && 0 < splitPos <= i <= node.keyCount
    modifies node`keyCount, split.keys, split.slots
    ensures node.keyCount == i && node.keys[..] == old(node.keys[..]) && node.slots[..] == old(node.slots[..])
    ensures split.keys[..] ==
            Overlaid(Overlaid(old(split.keys[..]), i - splitPos + 1, old(node.keys[..])[i..]), 0,
                old(node.keys[..])[splitPos..i])
    ensures split.slots[..] ==
            Overlaid(Overlaid(old(split.slots[..]), i - splitPos + 1, old(node.slots[..])[i..]), 0,
                     old(node.slots[..])[splitPos..i + 1])
  {
    ghost var ok, os := node.keys[..], node.slots[..];
    assert node.keys[i..node.keyCount] == ok[i..] && node.slots[i..node.keyCount + 1] == os[i..];
    MoveTrailing(node, i, split, i - splitPos + 1);
    node.keyCount := i;
    assert node.keys[..] == ok && node.slots[..] == os;
    assert node.keys[splitPos..i] == ok[splitPos..i] && node.slots[splitPos..i + 1] == os[splitPos..i + 1];
    MoveTrailing(node, splitPos, split, 0);
  }

  /** A node page with (k, slot) inserted at i; in an internal node the pointer found there is
      kept in front of the new key and the split page takes its place behind it. */
  function WideView(v: NodeView, i: nat, k: int, rid: Slot, splitPage: int): NodeView
    requires i <= |v.keys| && |v.slots| == |v.keys| + 1
  {
    if v.leaf then
      NodeView(true, InsertedAt(v.keys, i, k), InsertedAt(v.slots, i, rid))
    else
      NodeView(false, InsertedAt(v.keys, i, k),
               InsertedAt(v.slots[i := Slot(splitPage, v.slots[i].second)], i, Slot(v.slots[i].first, -1)))
  }

  /** The page that keeps the former part of an overfull node w. */
  function LeftView(w: NodeView, h: nat, newPage: int): NodeView
    requires h < |w.keys| && |w.slots| == |w.keys| + 1
  {
    if w.leaf then
      NodeView(true, w.keys[..h + 1], w.slots[..h + 1] + [Slot(w.slots[|w.keys|].first, newPage)])
    else
      NodeView(false, w.keys[..h], w.slots[..h + 1])
  }

  /** The new page that takes the latter part. */
  function RightView(w: NodeView, h: nat, page: int): NodeView
    requires h < |w.keys| && |w.slots| == |w.keys| + 1
  {
    if w.leaf then
      NodeView(true, w.keys[h + 1..], w.slots[h + 1..|w.keys|] + [Slot(page, w.slots[|w.keys|].second)])
    else
      NodeView(false, w.keys[h + 1..], w.slots[h + 1..])
  }

  /** Points child i of an internal page to the right half of the split; returns what to put
      in front of the new key. */
  method Repoint(node: IndexNode, i: nat, rid: Slot, splitPage: int) returns (s: Slot)
    requires node.Fits(node.keys.Length) && i <= node.keyCount
    modifies node.slots
    ensures node.keys[..] == old(node.keys[..])
    ensures old(node.isLeaf) ==> s == rid && node.slots[..] == old(node.slots[..])
    ensures !old(node.isLeaf) ==>
              && s == Slot(old(node.slots[i].first), -1)
              && node.slots[..] == old(node.slots[..])[i := Slot(splitPage, old(node.slots[i].second))]
  {
    s := if node.isLeaf then rid else Slot(node.slots[i].first, -1);
    if !node.isLeaf {
      node.slots[i] := Slot(splitPage, node.slots[i].second);
    }
  }

  method GrowDirect(node: IndexNode, i: nat, k: int, rid: Slot, splitPage: int)
    requires node.Fits(node.keys.Length) && node.keyCount < node.keys.Length && i <= node.keyCount
    modifies node`keyCount, node.keys, node.slots
    ensures node.Fits(node.keys.Length)
    ensures node.View() == WideView(old(node.View()), i, k, rid, splitPage)
  {
    hide InsertedAt, LeftView, RightView;
    ghost var v := node.View();
    var s := Repoint(node, i, rid, splitPage);
    assert node.View().keys == v.keys;
    assert node.View().slots == if v.leaf then v.slots else v.slots[i := Slot(splitPage, v.slots[i].second)];
    node.InsertEntry(i, k, s);
  }

  /** Inserts into a full page p and moves the latter part to the page newPage; returns the key
      that separates the two. */
  method GrowSplit(node: IndexNode, split: IndexNode, p: int, newPage: int, i: nat, k: int, rid: Slot, splitPage: int)
    returns (sep: int)
    requires node != split && node.keys != split.keys && node.slots != split.slots
    requires node.Fits(node.keys.Length) && split.Fits(node.keys.Length)
    requires node.keyCount == node.keys.Length >= 2 && node.keyCount % 2 == 0 && i <= node.keyCount
    modifies node`keyCount, node.keys, node.slots, split, split.keys, split.slots
    ensures node.Fits(node.keys.Length) && split.Fits(node.keys.Length)
    ensures var w, h := WideView(old(node.View()), i, k, rid, splitPage), node.keys.Length / 2;
            && sep == w.keys[h]
            && node.View() == LeftView(w, h, newPage)
            && split.View() == RightView(w, h, p)
  {
    ghost var v := node.View();
    var s := Repoint(node, i, rid, splitPage);
    assert node.View().keys == v.keys;
    assert node.View().slots == if v.leaf then v.slots else v.slots[i := Slot(splitPage, v.slots[i].second)];
    ghost var w, h := WideView(v, i, k, rid, splitPage), node.keys.Length / 2;
    split.isLeaf := node.isLeaf;
    SplitInsert(node, split, i, k, s);
    assert node.keys[..h + 1] == w.keys[..h + 1] && node.slots[..h + 1] == w.slots[..h + 1];
    assert split.keys[..h] == w.keys[h + 1..] && split.slots[..h + 1] == w.slots[h + 1..];
    sep := Separate(node, split, p, newPage, w, h);
  }

  /** Links two leaf halves, or takes the last key out of the former internal half. */
  method Separate(node: IndexNode, split: IndexNode, p: int, newPage: int, ghost w: NodeView, ghost h: nat)
    returns (sep: int)
    requires node != split && node.keys != split.keys && node.slots != split.slots
    requires node.Fits(node.keys.Length) && split.Fits(node.keys.Length)
    requires h < node.keys.Length && node.keyCount == h + 1 && split.keyCount == h
    requires |w.keys| == 2 * h + 1 && |w.slots| == |w.keys| + 1 && node.isLeaf == split.isLeaf == w.leaf
    requires node.keys[..h + 1] == w.keys[..h + 1] && node.slots[..h + 1] == w.slots[..h + 1]
    requires split.keys[..h] == w.keys[h + 1..] && split.slots[..h + 1] == w.slots[h + 1..]
    modifies node`keyCount, node.slots, split.slots
    ensures node.Fits(node.keys.Length) && split.Fits(node.keys.Length)
    ensures sep == w.keys[h] && node.View() == LeftView(w, h, newPage) && split.View() == RightView(w, h, p)
  {
    sep := node.keys[node.keyCount - 1];
    assert sep == node.keys[..h + 1][h];
    if node.isLeaf {
      var link := split.slots[split.keyCount];
      assert link == split.slots[..h + 1][h] == w.slots[|w.keys|];
      node.slots[node.keyCount] := Slot(link.first, newPage);
      split.slots[split.keyCount] := Slot(p, link.second);
      assert node.slots[..h + 2] == w.slots[..h + 1] + [Slot(link.first, newPage)];
      assert split.slots[..h + 1] == w.slots[h + 1..|w.keys|] + [Slot(p, link.second)] by {
        assert split.slots[..h] == w.slots[h + 1..][..h];
      }
    } else {
      node.keyCount := node.keyCount - 1;
      assert node.keys[..h] == w.keys[..h];
    }
  }
}
