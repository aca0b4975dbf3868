/** The B+ tree of src/index/index.cpp as a value: what an index file holds when its pages
    are read as a tree, and what insertion and deletion do to it.

    Keys are integers.  All keys of one index are byte strings of one length, so their order
    is that of a finite set; module KeyOrder gives the ranking and proves that it agrees with
    the comparator of the source. */
module BPlusTree {

  /** Eight bytes of a page: (page, slot) of a record, (page, unused) of a child, or the
      (prev, next) link that trails the entries of a leaf. */
  datatype Slot = Slot(first: int, second: int)

  datatype Tree =
    | Leaf(page: int, keys: seq<int>, rids: seq<Slot>, link: Slot)
    | Node(page: int, keys: seq<int>, children: seq<Tree>)

  datatype Bound = Unbounded | At(key: int)

  predicate Over(lo: Bound, k: int) { lo.At? ==> lo.key < k }
  predicate Under(k: int, hi: Bound) { hi.At? ==> k <= hi.key }

  predicate Sorted(s: seq<int>) {
    forall i, j :: 0 <= i < j < |s| ==> s[i] < s[j]
  }

  /** Number of leading keys below k: in a sorted node, the child or entry to visit for k. */
  function Pos(s: seq<int>, k: int): (i: nat)
    ensures i <= |s|
    ensures forall j :: 0 <= j < i ==> s[j] < k
    ensures i < |s| ==> k <= s[i]
  {
    if s == [] || k <= s[0] then 0 else 1 + Pos(s[1..], k)
  }

  predicate InRange(s: seq<int>, lo: Bound, hi: Bound) {
    forall i :: 0 <= i < |s| ==> Over(lo, s[i]) && Under(s[i], hi)
  }

  function ChildLo(keys: seq<int>, lo: Bound, i: int): Bound
    requires 0 <= i <= |keys|
  {
    if i == 0 then lo else At(keys[i - 1])
  }

  function ChildHi(keys: seq<int>, hi: Bound, i: int): Bound
    requires 0 <= i <= |keys|
  {
    if i == |keys| then hi else At(keys[i])
  }

  // ---------------------------------------------------------------- shape

  /** One pointer more than keys in every internal node, one record per key in every leaf. */
  ghost predicate Sized(t: Tree) {
    match t
    case Leaf(_, keys, rids, _) => |rids| == |keys|
    case Node(_, keys, children) =>
      && |children| == |keys| + 1
      && forall i :: 0 <= i < |children| ==> Sized(children[i])
  }

  /** Height and order: all leaves at depth d, keys strictly sorted in every node, and child i
      holding only keys in (separator i-1, separator i]. */
  ghost predicate Ordered(t: Tree, d: nat, lo: Bound, hi: Bound)
    ensures Ordered(t, d, lo, hi) ==> Sized(t)
  {
    && Sorted(t.keys)
    && InRange(t.keys, lo, hi)
    && match t
       case Leaf(_, keys, rids, _) => d == 0 && |rids| == |keys|
       case Node(_, keys, children) =>
         && d > 0
         && |children| == |keys| + 1
         && forall i :: 0 <= i < |children| ==>
              Ordered(children[i], d - 1, ChildLo(keys, lo, i), ChildHi(keys, hi, i))
  }

  /** No node over capacity, no internal node below its minimum; the root may have one key. */
  ghost predicate Filled(t: Tree, least: nat, cap: nat) {
    && |t.keys| <= cap
    && (t.Node? ==>
          && least <= |t.keys|
          && forall i :: 0 <= i < |t.children| ==> Filled(t.children[i], cap / 2, cap))
  }

  ghost function Pages(t: Tree): set<int>
    decreases t
  {
    match t
    case Leaf(page, _, _, _) => {page}
    case Node(page, _, children) => {page} + PagesOf(children)
  }

  ghost function PagesOf(ts: seq<Tree>): set<int>
    decreases ts
  {
    if ts == [] then {} else Pages(ts[0]) + PagesOf(ts[1..])
  }

  /** No page occurs twice in the tree. */
  ghost predicate Distinct(t: Tree)
    decreases t
  {
    t.Node? ==> t.page !in PagesOf(t.children) && Apart(t.children)
  }

  ghost predicate Apart(ts: seq<Tree>)
    decreases ts
  {
    ts != [] ==> Distinct(ts[0]) && Apart(ts[1..]) && Pages(ts[0]) !! PagesOf(ts[1..])
  }

  function PageRange(a: int, b: int): (r: set<int>)
    ensures forall p :: p in r <==> a <= p < b
    decreases b - a
  {
    if a >= b then {} else {a} + PageRange(a + 1, b)
  }

  // ---------------------------------------------------------------- leaves

  ghost function Leaves(t: Tree): (r: seq<Tree>)
    decreases t
  {
    match t
    case Leaf(_, _, _, _) => [t]
    case Node(_, _, children) => LeavesOf(children)
  }

  ghost function LeavesOf(ts: seq<Tree>): (r: seq<Tree>)
    decreases ts
  {
    if ts == [] then [] else Leaves(ts[0]) + LeavesOf(ts[1..])
  }

  lemma {:induction false} LeavesOfConcat(a: seq<Tree>, b: seq<Tree>)
    ensures LeavesOf(a + b) == LeavesOf(a) + LeavesOf(b)
  {
    if a == [] {
      assert a + b == b && LeavesOf(a) == [];
    } else {
      LeavesOfConcat(a[1..], b);
      TailConcat(a, b);
      Assoc(Leaves(a[0]), LeavesOf(a[1..]), LeavesOf(b));
    }
  }

  lemma Assoc<T>(a: seq<T>, b: seq<T>, c: seq<T>)
    ensures a + (b + c) == a + b + c
  {
  }

  lemma TailConcat<T>(a: seq<T>, b: seq<T>)
    requires a != []
    ensures a + b != [] && (a + b)[0] == a[0] && (a + b)[1..] == a[1..] + b
  {
  }

  lemma CutOne<T>(s: seq<T>, i: nat)
    requires i < |s|
    ensures s[..i] + s[i..] == s && s[i..] != [] && s[i..][0] == s[i] && s[i..][1..] == s[i + 1..]
    ensures s[..i] + [s[i]] + s[i + 1..] == s
  {
  }

  lemma LeavesOfSplit(ts: seq<Tree>, i: nat)
    requires i < |ts|
    ensures LeavesOf(ts) == LeavesOf(ts[..i]) + Leaves(ts[i]) + LeavesOf(ts[i + 1..])
  {
    CutOne(ts, i);
    LeavesOfConcat(ts[..i], ts[i..]);
    Assoc(LeavesOf(ts[..i]), Leaves(ts[i]), LeavesOf(ts[i + 1..]));
  }

  lemma LeavesOfOne(t: Tree)
    ensures LeavesOf([t]) == Leaves(t)
  {
    assert LeavesOf([t][1..]) == [];
  }

  // A leaf of the list of trees is a leaf of one of the trees.
  lemma {:induction false} LeafSource(ts: seq<Tree>, j: nat) returns (c: nat, x: nat)
    requires j < |LeavesOf(ts)|
    ensures c < |ts| && x < |Leaves(ts[c])| && LeavesOf(ts)[j] == Leaves(ts[c])[x]
    ensures j == |LeavesOf(ts[..c])| + x
  {
    if j < |Leaves(ts[0])| {
      c, x := 0, j;
    } else {
      c, x := LeafSource(ts[1..], j - |Leaves(ts[0])|);
      assert ts[..c + 1][1..] == ts[1..][..c];
      c := c + 1;
    }
  }

  ghost predicate AllLeaves(L: seq<Tree>) {
    forall i :: 0 <= i < |L| ==> L[i].Leaf? && |L[i].rids| == |L[i].keys|
  }

  lemma {:induction false} LeavesAreLeaves(t: Tree)
    requires Sized(t)
    ensures AllLeaves(Leaves(t)) && |Leaves(t)| > 0
  {
    if t.Node? {
      forall j | 0 <= j < |Leaves(t)|
        ensures Leaves(t)[j].Leaf? && |Leaves(t)[j].rids| == |Leaves(t)[j].keys|
      {
        var c, x := LeafSource(t.children, j);
        LeavesAreLeaves(t.children[c]);
      }
      LeavesAreLeaves(t.children[0]);
    }
  }

  // ---------------------------------------------------------------- descent

  /** Index among the leaves of the leaf that a descent for k ends in. */
  ghost function LeafIndex(t: Tree, k: int): nat
    requires Sized(t)
  {
    if t.Leaf? then 0
    else var i := Pos(t.keys, k); |LeavesOf(t.children[..i])| + LeafIndex(t.children[i], k)
  }

  ghost predicate KeysUnder(L: seq<Tree>, k: int) {
    forall i, x :: 0 <= i < |L| && 0 <= x < |L[i].keys| ==> L[i].keys[x] < k
  }

  ghost predicate KeysOver(L: seq<Tree>, k: int) {
    forall i, x :: 0 <= i < |L| && 0 <= x < |L[i].keys| ==> k < L[i].keys[x]
  }

  ghost predicate LeavesInRange(L: seq<Tree>, lo: Bound, hi: Bound) {
    forall i :: 0 <= i < |L| ==> InRange(L[i].keys, lo, hi)
  }

  lemma {:induction false} LeavesWithin(t: Tree, d: nat, lo: Bound, hi: Bound)
    requires Ordered(t, d, lo, hi)
    ensures LeavesInRange(Leaves(t), lo, hi)
  {
    if t.Node? {
      forall j | 0 <= j < |Leaves(t)| ensures InRange(Leaves(t)[j].keys, lo, hi) {
        var c, x := LeafSource(t.children, j);
        LeavesWithin(t.children[c], d - 1, ChildLo(t.keys, lo, c), ChildHi(t.keys, hi, c));
        assert InRange(Leaves(t.children[c])[x].keys, ChildLo(t.keys, lo, c), ChildHi(t.keys, hi, c));
      }
    }
  }

  // Children left of position c hold keys up to separator c-1, children right of c keys above separator c.
  lemma ChildrenLeft(t: Tree, d: nat, lo: Bound, hi: Bound, c: nat, k: int)
    requires t.Node? && Ordered(t, d, lo, hi) && c <= |t.keys|
    requires c > 0 ==> t.keys[c - 1] < k
    ensures KeysUnder(LeavesOf(t.children[..c]), k)
  {
    var L := LeavesOf(t.children[..c]);
    forall j, x | 0 <= j < |L| && 0 <= x < |L[j].keys| ensures L[j].keys[x] < k {
      var e, y := LeafSource(t.children[..c], j);
      LeavesWithin(t.children[e], d - 1, ChildLo(t.keys, lo, e), ChildHi(t.keys, hi, e));
      assert InRange(Leaves(t.children[e])[y].keys, ChildLo(t.keys, lo, e), ChildHi(t.keys, hi, e));
      assert Under(L[j].keys[x], At(t.keys[e]));
    }
  }

  lemma ChildrenRight(t: Tree, d: nat, lo: Bound, hi: Bound, c: nat, k: int)
    requires t.Node? && Ordered(t, d, lo, hi) && c <= |t.keys|
    requires c < |t.keys| ==> k <= t.keys[c]
    ensures KeysOver(LeavesOf(t.children[c + 1..]), k)
  {
    var R := t.children[c + 1..];
    var L := LeavesOf(R);
    forall j, x | 0 <= j < |L| && 0 <= x < |L[j].keys| ensures k < L[j].keys[x] {
      var e, y := LeafSource(R, j);
      var f := c + 1 + e;
      LeavesWithin(t.children[f], d - 1, ChildLo(t.keys, lo, f), ChildHi(t.keys, hi, f));
      assert InRange(Leaves(t.children[f])[y].keys, ChildLo(t.keys, lo, f), ChildHi(t.keys, hi, f));
      assert Over(At(t.keys[f - 1]), L[j].keys[x]);
    }
  }

  lemma Separates(A: seq<Tree>, B: seq<Tree>, C: seq<Tree>, q: nat, k: int)
    requires KeysUnder(A, k) && KeysOver(C, k) && q < |B|
    requires KeysUnder(B[..q], k) && KeysOver(B[q + 1..], k)
    ensures KeysUnder((A + B + C)[..|A| + q], k)
    ensures KeysOver((A + B + C)[|A| + q + 1..], k)
  {
    assert (A + B + C)[..|A| + q] == A + B[..q];
    assert (A + B + C)[|A| + q + 1..] == B[q + 1..] + C;
  }

  lemma ChosenChild(t: Tree, d: nat, lo: Bound, hi: Bound, k: int)
    requires t.Node? && Ordered(t, d, lo, hi)
    ensures var i := Pos(t.keys, k);
            && d > 0 && i <= |t.keys| && |t.children| == |t.keys| + 1
            && (i > 0 ==> t.keys[i - 1] < k) && (i < |t.keys| ==> k <= t.keys[i])
            && Ordered(t.children[i], d - 1, ChildLo(t.keys, lo, i), ChildHi(t.keys, hi, i))
            && LeafIndex(t, k) == |LeavesOf(t.children[..i])| + LeafIndex(t.children[i], k)
  {
  }

  lemma LeafSeparates(t: Tree, k: int)
    requires Sized(t)
    ensures t.Leaf? ==>
              LeafIndex(t, k) == 0 && |Leaves(t)| == 1 && KeysUnder(Leaves(t)[..0], k) && KeysOver(Leaves(t)[1..], k)
  {
  }

  /** The descent is right: every leaf before the one it ends in holds only smaller keys, every
      leaf after it only larger ones. */
  lemma {:induction false} DescentSeparates(t: Tree, d: nat, lo: Bound, hi: Bound, k: int)
    requires Ordered(t, d, lo, hi)
    ensures LeafIndex(t, k) < |Leaves(t)|
    ensures KeysUnder(Leaves(t)[..LeafIndex(t, k)], k)
    ensures KeysOver(Leaves(t)[LeafIndex(t, k) + 1..], k)
  {
    hide *;
    LeafSeparates(t, k);
    if t.Node? {
      ChosenChild(t, d, lo, hi, k);
      var i := Pos(t.keys, k);
      var c := t.children[i];
      DescentSeparates(c, d - 1, ChildLo(t.keys, lo, i), ChildHi(t.keys, hi, i), k);
      ChildrenLeft(t, d, lo, hi, i, k);
      ChildrenRight(t, d, lo, hi, i, k);
      LeavesOfSplit(t.children, i);
      LeavesBelow(t);
      Separates(LeavesOf(t.children[..i]), Leaves(c), LeavesOf(t.children[i + 1..]), LeafIndex(c, k), k);
    }
  }

  /** Keys grow from leaf to leaf. */
  ghost predicate LeavesSorted(L: seq<Tree>) {
    && (forall i :: 0 <= i < |L| ==> Sorted(L[i].keys))
    && (forall i, j, x, y :: 0 <= i < j < |L| && 0 <= x < |L[i].keys| && 0 <= y < |L[j].keys| ==>
          L[i].keys[x] < L[j].keys[y])
  }

  lemma {:induction false} LeafKeysSorted(t: Tree, d: nat, lo: Bound, hi: Bound, i: nat)
    requires Ordered(t, d, lo, hi) && i < |Leaves(t)|
    ensures Sorted(Leaves(t)[i].keys)
  {
    if t.Node? {
      var c, x := LeafSource(t.children, i);
      LeafKeysSorted(t.children[c], d - 1, ChildLo(t.keys, lo, c), ChildHi(t.keys, hi, c), x);
    }
  }

  lemma {:induction false} LeafKeysGrow(t: Tree, d: nat, lo: Bound, hi: Bound, i: nat, j: nat, x: nat, y: nat)
    requires Ordered(t, d, lo, hi) && i < j < |Leaves(t)|
    requires x < |Leaves(t)[i].keys| && y < |Leaves(t)[j].keys|
    ensures Leaves(t)[i].keys[x] < Leaves(t)[j].keys[y]
  {
    if t.Node? {
      var c, u := LeafSource(t.children, i);
      var e, v := LeafSource(t.children, j);
      if c == e {
        LeafKeysGrow(t.children[c], d - 1, ChildLo(t.keys, lo, c), ChildHi(t.keys, hi, c), u, v, x, y);
      } else {
        if e < c { LeavesOfPrefix(t.children, e, c); }
        LeavesWithin(t.children[c], d - 1, ChildLo(t.keys, lo, c), ChildHi(t.keys, hi, c));
        LeavesWithin(t.children[e], d - 1, ChildLo(t.keys, lo, e), ChildHi(t.keys, hi, e));
        var a, b := Leaves(t)[i].keys, Leaves(t)[j].keys;
        hide Leaves, LeavesOf;
        assert InRange(a, ChildLo(t.keys, lo, c), ChildHi(t.keys, hi, c));
        assert InRange(b, ChildLo(t.keys, lo, e), ChildHi(t.keys, hi, e));
        assert Under(a[x], At(t.keys[c])) && Over(At(t.keys[e - 1]), b[y]);
      }
    }
  }

  lemma OrderedLeavesSorted(t: Tree, d: nat, lo: Bound, hi: Bound)
    requires Ordered(t, d, lo, hi)
    ensures LeavesSorted(Leaves(t))
  {
    var L := Leaves(t);
    forall i | 0 <= i < |L| ensures Sorted(L[i].keys) {
      LeafKeysSorted(t, d, lo, hi, i);
    }
    forall i, j, x, y | 0 <= i < j < |L| && 0 <= x < |L[i].keys| && 0 <= y < |L[j].keys|
      ensures L[i].keys[x] < L[j].keys[y]
    {
      LeafKeysGrow(t, d, lo, hi, i, j, x, y);
    }
  }

  lemma LeavesOfPrefix(ts: seq<Tree>, a: nat, b: nat)
    requires a < b <= |ts|
    ensures |LeavesOf(ts[..a])| + |Leaves(ts[a])| <= |LeavesOf(ts[..b])|
  {
    LeavesOfSplit(ts[..b], a);
    assert ts[..b][..a] == ts[..a];
  }

  // ---------------------------------------------------------------- insertion

  /** A subtree after an insertion: kept whole, or split in two around a separator. */
  datatype Grown = One(tree: Tree) | Two(left: Tree, sep: int, right: Tree)

  /** The grown subtree and the next unused page. */
  datatype Insertion = Insertion(grown: Grown, next: int)

  function InsertedAt<T>(s: seq<T>, i: nat, x: T): (r: seq<T>)
    requires i <= |s|
    ensures |r| == |s| + 1
  {
    s[..i] + [x] + s[i..]
  }

  /** The leaf with one entry more, whatever its capacity. */
  function WideLeaf(t: Tree, k: int, rid: Slot): Tree
    requires t.Leaf? && |t.rids| == |t.keys|
  {
    var i := Pos(t.keys, k);
    Leaf(t.page, InsertedAt(t.keys, i, k), InsertedAt(t.rids, i, rid), t.link)
  }

  /** The node with child i replaced by the two halves it was split into. */
  function WideNode(t: Tree, i: nat, left: Tree, sep: int, right: Tree): Tree
    requires t.Node? && i < |t.children| == |t.keys| + 1
  {
    Node(t.page, InsertedAt(t.keys, i, sep), InsertedAt(t.children[i := right], i, left))
  }

  /** A leaf with one entry too many keeps the first cap/2+1; the rest moves to a new page,
      which is linked in behind it. */
  function CutLeaf(w: Tree, cap: nat, page: int): Grown
    requires w.Leaf? && |w.rids| == |w.keys| && cap / 2 < |w.keys|
  {
    var h := cap / 2 + 1;
    Two(Leaf(w.page, w.keys[..h], w.rids[..h], Slot(w.link.first, page)),
        w.keys[h - 1],
        Leaf(page, w.keys[h..], w.rids[h..], Slot(w.page, w.link.second)))
  }

  /** A node with one key too many keeps the first cap/2 keys, passes the next one up and
      moves the rest to a new page. */
  function CutNode(w: Tree, cap: nat, page: int): Grown
    requires w.Node? && |w.children| == |w.keys| + 1 && cap / 2 < |w.keys|
  {
    var h := cap / 2;
    Two(Node(w.page, w.keys[..h], w.children[..h + 1]),
        w.keys[h],
        Node(page, w.keys[h + 1..], w.children[h + 1..]))
  }

  function GrownLeaf(t: Tree, k: int, rid: Slot, cap: nat, next: int): Insertion
    requires t.Leaf? && |t.rids| == |t.keys|
  {
    var w := WideLeaf(t, k, rid);
    if |t.keys| < cap then Insertion(One(w), next) else Insertion(CutLeaf(w, cap, next), next + 1)
  }

  function GrownNode(t: Tree, i: nat, left: Tree, sep: int, right: Tree, cap: nat, next: int): Insertion
    requires t.Node? && i < |t.children| == |t.keys| + 1
  {
    var w := WideNode(t, i, left, sep, right);
    if |t.keys| < cap then Insertion(One(w), next) else Insertion(CutNode(w, cap, next), next + 1)
  }

  /** Insertion of an absent key below t, new pages being numbered from next on. */
  ghost function Insert(t: Tree, k: int, rid: Slot, cap: nat, next: int): Insertion
    requires Sized(t)
  {
    match t
    case Leaf(_, _, _, _) => GrownLeaf(t, k, rid, cap, next)
    case Node(page, keys, children) =>
      var i := Pos(keys, k);
      var r := Insert(children[i], k, rid, cap, next);
      match r.grown
      case One(c) => Insertion(One(Node(page, keys, children[i := c])), r.next)
      case Two(left, sep, right) => GrownNode(t, i, left, sep, right, cap, r.next)
  }

  /** The whole tree after an insertion: when the root was split, a new root is put on top. */
  ghost function InsertRoot(t: Tree, k: int, rid: Slot, cap: nat, next: int): (Tree, int)
    requires Sized(t)
  {
    var r := Insert(t, k, rid, cap, next);
    match r.grown
    case One(c) => (c, r.next)
    case Two(left, sep, right) => (Node(r.next, [sep], [left, right]), r.next + 1)
  }

  /** Whether the leaf that a descent for k ends in holds k: what the lookups and the conflict
      check of the source test. */
  ghost predicate Has(t: Tree, k: int)
    requires Sized(t)
  {
    var i := Pos(t.keys, k);
    match t
    case Leaf(_, keys, _, _) => i < |keys| && keys[i] == k
    case Node(_, _, children) => Has(children[i], k)
  }

  // ---- order

  ghost predicate GrownOrdered(g: Grown, d: nat, lo: Bound, hi: Bound) {
    match g
    case One(t) => Ordered(t, d, lo, hi)
    case Two(left, sep, right) =>
      && Ordered(left, d, lo, At(sep)) && Ordered(right, d, At(sep), hi)
      && Over(lo, sep) && (hi.At? ==> sep < hi.key)
  }

  lemma InsertSorted(s: seq<int>, i: nat, k: int)
    requires Sorted(s) && i <= |s|
    requires i > 0 ==> s[i - 1] < k
    requires i < |s| ==> k < s[i]
    ensures Sorted(InsertedAt(s, i, k))
  {
  }

  lemma WideLeafOrdered(t: Tree, k: int, rid: Slot, lo: Bound, hi: Bound)
    requires t.Leaf? && Ordered(t, 0, lo, hi) && Over(lo, k) && Under(k, hi) && !Has(t, k)
    ensures Ordered(WideLeaf(t, k, rid), 0, lo, hi)
  {
    InsertSorted(t.keys, Pos(t.keys, k), k);
  }

  lemma CutLeafOrdered(w: Tree, cap: nat, page: int, lo: Bound, hi: Bound)
    requires w.Leaf? && Ordered(w, 0, lo, hi) && cap / 2 + 1 < |w.keys|
    ensures GrownOrdered(CutLeaf(w, cap, page), 0, lo, hi)
  {
    var h := cap / 2 + 1;
    assert w.keys[h - 1] < w.keys[h];
    assert Under(w.keys[h], hi);
  }

  lemma WideChild(t: Tree, i: nat, left: Tree, sep: int, right: Tree, j: nat)
    requires t.Node? && i < |t.children| == |t.keys| + 1 && j <= |t.children|
    ensures WideNode(t, i, left, sep, right).children[j] ==
            if j < i then t.children[j] else if j == i then left else if j == i + 1 then right else t.children[j - 1]
  {
  }

  lemma WideBounds(keys: seq<int>, i: nat, sep: int, lo: Bound, hi: Bound, j: nat)
    requires i <= |keys| && j <= |keys| + 1
    ensures var wide := InsertedAt(keys, i, sep);
            && (ChildLo(wide, lo, j) == if j <= i then ChildLo(keys, lo, j) else if j == i + 1 then At(sep)
                 else ChildLo(keys, lo, j - 1))
            && (ChildHi(wide, hi, j) == if j < i then ChildHi(keys, hi, j) else if j == i then At(sep)
                 else ChildHi(keys, hi, j - 1))
  {
  }

  lemma WideChildOrdered(t: Tree, i: nat, left: Tree, sep: int, right: Tree, d: nat, lo: Bound, hi: Bound, j: nat)
    requires t.Node? && Ordered(t, d, lo, hi) && i < |t.children|
    requires GrownOrdered(Two(left, sep, right), d - 1, ChildLo(t.keys, lo, i), ChildHi(t.keys, hi, i))
    requires j <= |t.children|
    ensures var w := WideNode(t, i, left, sep, right);
            && |w.children| == |w.keys| + 1 == |t.children| + 1
            && Ordered(w.children[j], d - 1, ChildLo(w.keys, lo, j), ChildHi(w.keys, hi, j))
  {
    var w := WideNode(t, i, left, sep, right);
    WideBounds(t.keys, i, sep, lo, hi, j);
    hide ChildLo, ChildHi, Sorted, InRange;
    if j < i {
      assert w.children[j] == t.children[j];
    } else if j > i + 1 {
      assert w.children[j] == t.children[j - 1];
    }
  }

  lemma WideNodeOrdered(t: Tree, i: nat, left: Tree, sep: int, right: Tree, d: nat, lo: Bound, hi: Bound)
    requires t.Node? && Ordered(t, d, lo, hi) && i < |t.children|
    requires GrownOrdered(Two(left, sep, right), d - 1, ChildLo(t.keys, lo, i), ChildHi(t.keys, hi, i))
    ensures Ordered(WideNode(t, i, left, sep, right), d, lo, hi)
  {
    var w := WideNode(t, i, left, sep, right);
    InsertSorted(t.keys, i, sep);
    assert i > 0 ==> Over(lo, t.keys[i - 1]);
    assert InRange(w.keys, lo, hi) by {
      assert i < |t.keys| ==> Under(t.keys[i], hi);
    }
    hide WideNode, GrownOrdered, ChildLo, ChildHi, Sized;
    WideChildOrdered(t, i, left, sep, right, d, lo, hi, 0);
    forall j | 0 <= j < |w.children|
      ensures Ordered(w.children[j], d - 1, ChildLo(w.keys, lo, j), ChildHi(w.keys, hi, j))
    {
      WideChildOrdered(t, i, left, sep, right, d, lo, hi, j);
    }
  }

  lemma LeftPartOrdered(w: Tree, h: nat, d: nat, lo: Bound, hi: Bound)
    requires w.Node? && Ordered(w, d, lo, hi) && h < |w.keys|
    ensures Ordered(Node(w.page, w.keys[..h], w.children[..h + 1]), d, lo, At(w.keys[h]))
  {
    var l := Node(w.page, w.keys[..h], w.children[..h + 1]);
    forall j | 0 <= j < |l.children|
      ensures Ordered(l.children[j], d - 1, ChildLo(l.keys, lo, j), ChildHi(l.keys, At(w.keys[h]), j))
    {
      assert Ordered(w.children[j], d - 1, ChildLo(w.keys, lo, j), ChildHi(w.keys, hi, j));
    }
  }

  lemma RightPartOrdered(w: Tree, h: nat, page: int, d: nat, lo: Bound, hi: Bound)
    requires w.Node? && Ordered(w, d, lo, hi) && h < |w.keys|
    ensures Ordered(Node(page, w.keys[h + 1..], w.children[h + 1..]), d, At(w.keys[h]), hi)
  {
    var r := Node(page, w.keys[h + 1..], w.children[h + 1..]);
    forall j | 0 <= j < |r.children|
      ensures Ordered(r.children[j], d - 1, ChildLo(r.keys, At(w.keys[h]), j), ChildHi(r.keys, hi, j))
    {
      var e := h + 1 + j;
      assert Ordered(w.children[e], d - 1, ChildLo(w.keys, lo, e), ChildHi(w.keys, hi, e));
    }
  }

  lemma CutNodeOrdered(w: Tree, cap: nat, page: int, d: nat, lo: Bound, hi: Bound)
    requires w.Node? && Ordered(w, d, lo, hi) && cap / 2 + 1 < |w.keys|
    ensures GrownOrdered(CutNode(w, cap, page), d, lo, hi)
  {
    var h := cap / 2;
    LeftPartOrdered(w, h, d, lo, hi);
    RightPartOrdered(w, h, page, d, lo, hi);
    assert Over(lo, w.keys[h]) && w.keys[h] < w.keys[h + 1] && Under(w.keys[h + 1], hi);
  }

  lemma ReplacedOrdered(t: Tree, i: nat, c: Tree, d: nat, lo: Bound, hi: Bound)
    requires t.Node? && Ordered(t, d, lo, hi) && i < |t.children|
    requires Ordered(c, d - 1, ChildLo(t.keys, lo, i), ChildHi(t.keys, hi, i))
    ensures Ordered(t.(children := t.children[i := c]), d, lo, hi)
  {
    var u := t.(children := t.children[i := c]);
    forall j | 0 <= j < |u.children|
      ensures Ordered(u.children[j], d - 1, ChildLo(u.keys, lo, j), ChildHi(u.keys, hi, j))
    {
      if j != i { assert u.children[j] == t.children[j]; }
    }
  }

  /** Insertion keeps all leaves at one depth, all keys sorted and every separator a true bound,
      also across a split; the separator passed up lies strictly inside the bounds. */
  lemma {:induction false} InsertOrdered(t: Tree, k: int, rid: Slot, cap: nat, next: int, d: nat, lo: Bound, hi: Bound)
    requires cap >= 2 && cap % 2 == 0
    requires Ordered(t, d, lo, hi) && Over(lo, k) && Under(k, hi) && !Has(t, k)
    ensures GrownOrdered(Insert(t, k, rid, cap, next).grown, d, lo, hi)
  {
    if t.Leaf? {
      WideLeafOrdered(t, k, rid, lo, hi);
      if |t.keys| >= cap { CutLeafOrdered(WideLeaf(t, k, rid), cap, next, lo, hi); }
    } else {
      var i := Pos(t.keys, k);
      InsertOrdered(t.children[i], k, rid, cap, next, d - 1, ChildLo(t.keys, lo, i), ChildHi(t.keys, hi, i));
      var r := Insert(t.children[i], k, rid, cap, next);
      match r.grown {
        case One(c) => ReplacedOrdered(t, i, c, d, lo, hi);
        case Two(left, sep, right) =>
          WideNodeOrdered(t, i, left, sep, right, d, lo, hi);
          if |t.keys| >= cap { CutNodeOrdered(WideNode(t, i, left, sep, right), cap, r.next, d, lo, hi); }
      }
    }
  }

  // ---- occupancy

  lemma WideNodeFilled(t: Tree, i: nat, left: Tree, sep: int, right: Tree, least: nat, cap: nat)
    requires t.Node? && Sized(t) && Filled(t, least, cap) && i < |t.children|
    requires Filled(left, cap / 2, cap) && Filled(right, cap / 2, cap)
    ensures var w := WideNode(t, i, left, sep, right);
            forall j :: 0 <= j < |w.children| ==> Filled(w.children[j], cap / 2, cap)
  {
    var w := WideNode(t, i, left, sep, right);
    forall j | 0 <= j < |w.children| ensures Filled(w.children[j], cap / 2, cap) {
      if j < i {
        assert w.children[j] == t.children[j];
      } else if j > i + 1 {
        assert w.children[j] == t.children[j - 1];
      }
    }
  }

  /** Insertion keeps every node within its capacity 2m, and both halves of a split internal node
      are left with exactly m keys. */
  lemma {:induction false} InsertFilled(t: Tree, k: int, rid: Slot, cap: nat, next: int, least: nat)
    requires cap >= 2 && cap % 2 == 0
    requires Sized(t) && Filled(t, least, cap)
    ensures var g := Insert(t, k, rid, cap, next).grown;
            match g
            case One(c) => Filled(c, least, cap)
            case Two(left, _, right) => Filled(left, cap / 2, cap) && Filled(right, cap / 2, cap)
  {
    if t.Node? {
      var i := Pos(t.keys, k);
      InsertFilled(t.children[i], k, rid, cap, next, cap / 2);
      var r := Insert(t.children[i], k, rid, cap, next);
      if r.grown.Two? {
        WideNodeFilled(t, i, r.grown.left, r.grown.sep, r.grown.right, least, cap);
      }
    }
  }

  // ---- leaves

  ghost function GrownLeaves(g: Grown): seq<Tree> {
    match g
    case One(t) => Leaves(t)
    case Two(left, _, right) => Leaves(left) + Leaves(right)
  }

  lemma WideNodeLeaves(t: Tree, i: nat, left: Tree, sep: int, right: Tree)
    requires t.Node? && i < |t.children| == |t.keys| + 1
    ensures LeavesOf(WideNode(t, i, left, sep, right).children) ==
            LeavesOf(t.children[..i]) + (Leaves(left) + Leaves(right)) + LeavesOf(t.children[i + 1..])
  {
    var a, b := t.children[..i], t.children[i + 1..];
    assert WideNode(t, i, left, sep, right).children == a + ([left] + [right]) + b;
    LeavesOfConcat(a + ([left] + [right]), b);
    LeavesOfConcat(a, [left] + [right]);
    LeavesOfConcat([left], [right]);
    LeavesOfOne(left);
    LeavesOfOne(right);
  }

  lemma CutNodeLeaves(w: Tree, cap: nat, page: int)
    requires w.Node? && |w.children| == |w.keys| + 1 && cap / 2 < |w.keys|
    ensures GrownLeaves(CutNode(w, cap, page)) == LeavesOf(w.children)
  {
    var h := cap / 2;
    LeavesOfConcat(w.children[..h + 1], w.children[h + 1..]);
    assert w.children[..h + 1] + w.children[h + 1..] == w.children;
  }

  lemma ReplacedLeaves(ts: seq<Tree>, i: nat, c: Tree)
    requires i < |ts|
    ensures LeavesOf(ts[i := c]) == LeavesOf(ts[..i]) + Leaves(c) + LeavesOf(ts[i + 1..])
  {
    LeavesOfSplit(ts[i := c], i);
    assert ts[i := c][..i] == ts[..i];
    assert ts[i := c][i + 1..] == ts[i + 1..];
  }

  lemma Framed<T>(a: seq<T>, b: seq<T>, c: seq<T>, q: nat, m: seq<T>, g: seq<T>, s: seq<T>)
    requires q < |b| && g == b[..q] + m + b[q + 1..] && s == a + b + c
    ensures |a| + q < |s| && s[|a| + q] == b[q]
    ensures a + g + c == s[..|a| + q] + m + s[|a| + q + 1..]
  {
    assert s[..|a| + q] == a + b[..q];
    assert s[|a| + q + 1..] == b[q + 1..] + c;
  }

  /** Whatever happens above, insertion changes one leaf only: the one the descent ends in gives
      way to itself with the new entry, or to its two halves. */
  lemma {:induction false} InsertLeaves(t: Tree, k: int, rid: Slot, cap: nat, next: int)
    requires Sized(t)
    ensures var L, p := Leaves(t), LeafIndex(t, k);
            && p < |L| && L[p].Leaf? && |L[p].rids| == |L[p].keys|
            && GrownLeaves(Insert(t, k, rid, cap, next).grown) ==
               L[..p] + GrownLeaves(GrownLeaf(L[p], k, rid, cap, next).grown) + L[p + 1..]
  {
    if t.Leaf? {
      InsertUnfoldsLeaf(t, k, rid, cap, next);
      hide *;
      Alone(t, GrownLeaves(GrownLeaf(t, k, rid, cap, next).grown));
    } else {
      InsertUnfolds(t, k, rid, cap, next);
      hide *;
      var i := Pos(t.keys, k);
      var c := t.children[i];
      InsertLeaves(c, k, rid, cap, next);
      InsertChildLeaves(t, i, Insert(c, k, rid, cap, next), cap, LeafIndex(c, k),
                        GrownLeaves(GrownLeaf(Leaves(c)[LeafIndex(c, k)], k, rid, cap, next).grown));
    }
  }

  lemma InsertUnfoldsLeaf(t: Tree, k: int, rid: Slot, cap: nat, next: int)
    requires Sized(t) && t.Leaf?
    ensures |t.rids| == |t.keys| && Leaves(t) == [t] && LeafIndex(t, k) == 0
    ensures Insert(t, k, rid, cap, next).grown == GrownLeaf(t, k, rid, cap, next).grown
  {
  }

  lemma InsertUnfolds(t: Tree, k: int, rid: Slot, cap: nat, next: int)
    requires Sized(t) && t.Node?
    ensures var i := Pos(t.keys, k);
            && |t.children| == |t.keys| + 1 && Sized(t.children[i])
            && Insert(t, k, rid, cap, next).grown == GrownParent(t, i, Insert(t.children[i], k, rid, cap, next), cap)
            && LeafIndex(t, k) == |LeavesOf(t.children[..i])| + LeafIndex(t.children[i], k)
  {
  }

  lemma Alone<T>(x: T, m: seq<T>)
    ensures [x][..0] + m + [x][1..] == m
  {
  }

  lemma LeavesBelow(t: Tree)
    requires t.Node?
    ensures Leaves(t) == LeavesOf(t.children)
  {
  }

  lemma InsertChildLeaves(t: Tree, i: nat, r: Insertion, cap: nat, q: nat, m: seq<Tree>)
    requires t.Node? && i < |t.children| == |t.keys| + 1 && q < |Leaves(t.children[i])|
    requires GrownLeaves(r.grown) == Leaves(t.children[i])[..q] + m + Leaves(t.children[i])[q + 1..]
    ensures var L, p := Leaves(t), |LeavesOf(t.children[..i])| + q;
            && p < |L| && L[p] == Leaves(t.children[i])[q]
            && GrownLeaves(GrownParent(t, i, r, cap)) == L[..p] + m + L[p + 1..]
  {
    hide *;
    LeavesBelow(t);
    LeavesOfSplit(t.children, i);
    GrownChildLeaves(t, i, r, cap);
    Framed(LeavesOf(t.children[..i]), Leaves(t.children[i]), LeavesOf(t.children[i + 1..]), q, m,
           GrownLeaves(r.grown), Leaves(t));
  }

  ghost function GrownParent(t: Tree, i: nat, r: Insertion, cap: nat): Grown
    requires t.Node? && i < |t.children| == |t.keys| + 1
  {
    match r.grown
    case One(c) => One(Node(t.page, t.keys, t.children[i := c]))
    case Two(left, sep, right) => GrownNode(t, i, left, sep, right, cap, r.next).grown
  }

  lemma GrownChildLeaves(t: Tree, i: nat, r: Insertion, cap: nat)
    requires t.Node? && i < |t.children| == |t.keys| + 1
    ensures GrownLeaves(GrownParent(t, i, r, cap)) ==
            LeavesOf(t.children[..i]) + GrownLeaves(r.grown) + LeavesOf(t.children[i + 1..])
  {
    match r.grown {
      case One(c) => ReplacedLeaves(t.children, i, c);
      case Two(left, sep, right) =>
        WideNodeLeaves(t, i, left, sep, right);
        if |t.keys| >= cap { CutNodeLeaves(WideNode(t, i, left, sep, right), cap, r.next); }
    }
  }

  // ---- pages

  ghost function GrownPages(g: Grown): set<int> {
    match g
    case One(t) => Pages(t)
    case Two(left, _, right) => Pages(left) + Pages(right)
  }

  ghost predicate GrownDistinct(g: Grown) {
    match g
    case One(t) => Distinct(t)
    case Two(left, _, right) => Distinct(left) && Distinct(right) && Pages(left) !! Pages(right)
  }

  ghost predicate PagesBelow(t: Tree, next: int) {
    forall p :: p in Pages(t) ==> p < next
  }

  lemma {:induction false} PagesConcat(a: seq<Tree>, b: seq<Tree>)
    ensures PagesOf(a + b) == PagesOf(a) + PagesOf(b)
    ensures Apart(a + b) <==> Apart(a) && Apart(b) && PagesOf(a) !! PagesOf(b)
  {
    if a == [] {
      assert a + b == b;
    } else {
      PagesConcat(a[1..], b);
      assert (a + b)[1..] == a[1..] + b;
    }
  }

  lemma PagesOfOne(t: Tree)
    ensures PagesOf([t]) == Pages(t) && (Apart([t]) <==> Distinct(t))
  {
    assert [t][1..] == [];
  }

  lemma PagesAround(a: seq<Tree>, m: seq<Tree>, b: seq<Tree>)
    ensures PagesOf(a + m + b) == PagesOf(a) + PagesOf(m) + PagesOf(b)
    ensures Apart(a + m + b) <==>
            Apart(a) && Apart(m) && Apart(b) && PagesOf(a) !! PagesOf(m) && PagesOf(a) + PagesOf(m) !! PagesOf(b)
  {
    PagesConcat(a + m, b);
    PagesConcat(a, m);
  }

  lemma PagesOfSplit(ts: seq<Tree>, i: nat)
    requires i < |ts|
    ensures PagesOf(ts) == PagesOf(ts[..i]) + Pages(ts[i]) + PagesOf(ts[i + 1..])
    ensures Apart(ts) <==>
            && Apart(ts[..i]) && Distinct(ts[i]) && Apart(ts[i + 1..])
            && PagesOf(ts[..i]) !! Pages(ts[i]) && PagesOf(ts[..i]) + Pages(ts[i]) !! PagesOf(ts[i + 1..])
  {
    hide *;
    PagesAround(ts[..i], [ts[i]], ts[i + 1..]);
    PagesOfOne(ts[i]);
    CutOne(ts, i);
  }

  lemma WideNodePages(t: Tree, i: nat, left: Tree, sep: int, right: Tree, added: set<int>)
    requires t.Node? && i < |t.children| == |t.keys| + 1 && Distinct(t)
    requires Distinct(left) && Distinct(right) && Pages(left) !! Pages(right)
    requires Pages(left) + Pages(right) == Pages(t.children[i]) + added && added !! Pages(t)
    ensures var w := WideNode(t, i, left, sep, right); Distinct(w) && Pages(w) == Pages(t) + added
  {
    var a, b := t.children[..i], t.children[i + 1..];
    PagesOfSplit(t.children, i);
    PagesConcat([left], [right]);
    PagesOfOne(left);
    PagesOfOne(right);
    PagesAround(a, [left] + [right], b);
    assert WideNode(t, i, left, sep, right).children == a + ([left] + [right]) + b;
  }

  lemma CutNodePages(w: Tree, cap: nat, page: int)
    requires w.Node? && |w.children| == |w.keys| + 1 && cap / 2 < |w.keys|
    requires Distinct(w) && page !in Pages(w)
    ensures var g := CutNode(w, cap, page);
            GrownDistinct(g) && GrownPages(g) == Pages(w) + {page} && g.left.page == w.page && g.right.page == page
  {
    var h := cap / 2;
    PagesConcat(w.children[..h + 1], w.children[h + 1..]);
    assert w.children[..h + 1] + w.children[h + 1..] == w.children;
  }

  lemma ReplacedPages(t: Tree, i: nat, c: Tree, added: set<int>)
    requires t.Node? && i < |t.children| && Distinct(t)
    requires Distinct(c) && Pages(c) == Pages(t.children[i]) + added && added !! Pages(t)
    ensures var u := t.(children := t.children[i := c]); Distinct(u) && Pages(u) == Pages(t) + added
  {
    PagesOfSplit(t.children, i);
    PagesOfSplit(t.children[i := c], i);
    assert t.children[i := c][..i] == t.children[..i];
    assert t.children[i := c][i + 1..] == t.children[i + 1..];
  }

  lemma ChildPages(t: Tree, i: nat)
    requires t.Node? && i < |t.children|
    ensures Pages(t.children[i]) <= Pages(t)
    ensures Distinct(t) ==> Distinct(t.children[i]) && t.page !in Pages(t.children[i])
  {
    PagesOfSplit(t.children, i);
  }

  lemma CutPages(w: Tree, cap: nat, held: set<int>, first: int, next: int)
    requires w.Node? && |w.children| == |w.keys| + 1 && cap / 2 < |w.keys|
    requires Distinct(w) && Pages(w) == held + PageRange(first, next) && first <= next && next !in held
    ensures var g := CutNode(w, cap, next);
            && GrownDistinct(g) && GrownPages(g) == held + PageRange(first, next + 1)
            && g.left.page == w.page && g.right.page == next
  {
    CutNodePages(w, cap, next);
    assert PageRange(first, next) + {next} == PageRange(first, next + 1);
    var g := CutNode(w, cap, next);
    assert GrownPages(g) == Pages(w) + {next};
  }

  lemma GrownNodePages(t: Tree, i: nat, left: Tree, sep: int, right: Tree, cap: nat, first: int, next: int)
    requires t.Node? && i < |t.children| == |t.keys| + 1 && Distinct(t) && PagesBelow(t, first) && first < next
    requires Distinct(left) && Distinct(right) && Pages(left) !! Pages(right)
    requires Pages(left) + Pages(right) == Pages(t.children[i]) + PageRange(first, next)
    ensures var r := GrownNode(t, i, left, sep, right, cap, next);
            && GrownDistinct(r.grown)
            && GrownPages(r.grown) == Pages(t) + PageRange(first, r.next)
            && (match r.grown
                case One(c) => c.page == t.page
                case Two(l, _, m) => l.page == t.page && m.page == next && r.next == next + 1)
  {
    var w := WideNode(t, i, left, sep, right);
    WideNodePages(t, i, left, sep, right, PageRange(first, next));
    if |t.keys| >= cap {
      CutPages(w, cap, Pages(t), first, next);
    }
  }

  /** Insertion keeps every page of the tree in use exactly once and adds just the pages it
      took, the topmost split node taking the last. */
  lemma {:induction false} InsertPages(t: Tree, k: int, rid: Slot, cap: nat, next: int)
    requires Sized(t) && Distinct(t) && PagesBelow(t, next)
    ensures var r := Insert(t, k, rid, cap, next);
            && next <= r.next
            && GrownDistinct(r.grown)
            && GrownPages(r.grown) == Pages(t) + PageRange(next, r.next)
            && (match r.grown
                case One(c) => c.page == t.page
                case Two(left, _, right) => left.page == t.page && right.page == r.next - 1 && next < r.next)
  {
    if t.Node? {
      var i := Pos(t.keys, k);
      ChildPages(t, i);
      InsertPages(t.children[i], k, rid, cap, next);
      var r := Insert(t.children[i], k, rid, cap, next);
      match r.grown {
        case One(c) => ReplacedPages(t, i, c, PageRange(next, r.next));
        case Two(left, sep, right) => GrownNodePages(t, i, left, sep, right, cap, next, r.next);
      }
    } else {
      assert t.page in Pages(t);
      assert PageRange(next, next) == {};
      assert PageRange(next, next + 1) == {next};
    }
  }

  // ---------------------------------------------------------------- entries

  datatype Entry = Entry(key: int, rid: Slot)

  ghost function LeafEntries(t: Tree): (r: seq<Entry>)
    requires t.Leaf? && |t.rids| == |t.keys|
    ensures |r| == |t.keys|
    ensures forall j :: 0 <= j < |r| ==> r[j] == Entry(t.keys[j], t.rids[j])
  {
    seq(|t.keys|, j requires 0 <= j < |t.keys| => Entry(t.keys[j], t.rids[j]))
  }

  /** All entries of a list of leaves, left to right. */
  ghost function Entries(L: seq<Tree>): seq<Entry>
    requires AllLeaves(L)
  {
    if L == [] then [] else LeafEntries(L[0]) + Entries(L[1..])
  }

  ghost predicate EntriesSorted(es: seq<Entry>) {
    forall i, j :: 0 <= i < j < |es| ==> es[i].key < es[j].key
  }

  /** The sorted map that the index stands for. */
  ghost function EntryMap(es: seq<Entry>): map<int, Slot>
    requires EntriesSorted(es)
  {
    map i | 0 <= i < |es| :: es[i].key := es[i].rid
  }

  lemma {:induction false} EntriesConcat(a: seq<Tree>, b: seq<Tree>)
    requires AllLeaves(a) && AllLeaves(b)
    ensures AllLeaves(a + b) && Entries(a + b) == Entries(a) + Entries(b)
  {
    if a == [] {
      assert a + b == b && Entries(a) == [];
    } else {
      EntriesConcat(a[1..], b);
      TailConcat(a, b);
      Assoc(LeafEntries(a[0]), Entries(a[1..]), Entries(b));
    }
  }

  lemma EntriesOfOne(t: Tree)
    requires t.Leaf? && |t.rids| == |t.keys|
    ensures AllLeaves([t]) && Entries([t]) == LeafEntries(t)
  {
    assert Entries([t][1..]) == [];
  }

  // Entry j of leaf i stands at position |Entries(L[..i])| + j.
  lemma EntryAt(L: seq<Tree>, i: nat, j: nat)
    requires AllLeaves(L) && i < |L| && j < |L[i].keys|
    ensures AllLeaves(L[..i])
    ensures |Entries(L[..i])| + j < |Entries(L)|
    ensures Entries(L)[|Entries(L[..i])| + j] == Entry(L[i].keys[j], L[i].rids[j])
  {
    EntriesAround(L, i);
  }

  lemma EntriesAround(L: seq<Tree>, i: nat)
    requires AllLeaves(L) && i < |L|
    ensures AllLeaves(L[..i]) && AllLeaves(L[i + 1..])
    ensures Entries(L) == Entries(L[..i]) + LeafEntries(L[i]) + Entries(L[i + 1..])
  {
    CutOne(L, i);
    EntriesConcat(L[..i], L[i..]);
    Assoc(Entries(L[..i]), LeafEntries(L[i]), Entries(L[i + 1..]));
  }

  // Every entry comes from a leaf.
  lemma {:induction false} EntrySource(L: seq<Tree>, e: nat) returns (i: nat, j: nat)
    requires AllLeaves(L) && e < |Entries(L)|
    ensures i < |L| && j < |L[i].keys| && AllLeaves(L[..i]) && e == |Entries(L[..i])| + j
    ensures Entries(L)[e] == Entry(L[i].keys[j], L[i].rids[j])
  {
    if e < |L[0].keys| {
      i, j := 0, e;
    } else {
      i, j := EntrySource(L[1..], e - |L[0].keys|);
      assert L[..i + 1][1..] == L[1..][..i];
      i := i + 1;
    }
  }

  lemma {:induction false} LeavesSortedEntries(L: seq<Tree>)
    requires AllLeaves(L) && LeavesSorted(L)
    ensures EntriesSorted(Entries(L))
  {
    if L != [] {
      LeavesSortedEntries(L[1..]);
      var a, b := LeafEntries(L[0]), Entries(L[1..]);
      forall x, y | 0 <= x < |a| && 0 <= y < |b| ensures a[x].key < b[y].key {
        var i, j := EntrySource(L[1..], y);
        assert L[1..][i] == L[i + 1];
      }
    }
  }

  ghost function TreeEntries(t: Tree): (r: seq<Entry>)
    requires Sized(t)
  {
    LeavesAreLeaves(t);
    Entries(Leaves(t))
  }

  lemma TreeEntriesSorted(t: Tree, d: nat, lo: Bound, hi: Bound)
    requires Ordered(t, d, lo, hi)
    ensures EntriesSorted(TreeEntries(t))
  {
    LeavesAreLeaves(t);
    OrderedLeavesSorted(t, d, lo, hi);
    LeavesSortedEntries(Leaves(t));
  }

  /** Position among all entries where a descent for k ends. */
  ghost function EntryIndex(t: Tree, k: int): nat
    requires Sized(t) && LeafIndex(t, k) < |Leaves(t)|
  {
    LeavesAreLeaves(t);
    |Entries(Leaves(t)[..LeafIndex(t, k)])| + Pos(Leaves(t)[LeafIndex(t, k)].keys, k)
  }

  lemma EntriesUnderKey(L: seq<Tree>, k: int)
    requires AllLeaves(L) && KeysUnder(L, k)
    ensures forall e :: 0 <= e < |Entries(L)| ==> Entries(L)[e].key < k
  {
    forall e | 0 <= e < |Entries(L)| ensures Entries(L)[e].key < k {
      var i, j := EntrySource(L, e);
    }
  }

  lemma EntriesOverKey(L: seq<Tree>, k: int)
    requires AllLeaves(L) && KeysOver(L, k)
    ensures forall e :: 0 <= e < |Entries(L)| ==> k < Entries(L)[e].key
  {
    forall e | 0 <= e < |Entries(L)| ensures k < Entries(L)[e].key {
      var i, j := EntrySource(L, e);
    }
  }

  lemma LeafEntriesSplit(t: Tree, k: int)
    requires t.Leaf? && |t.rids| == |t.keys| && Sorted(t.keys)
    ensures forall e :: 0 <= e < Pos(t.keys, k) ==> LeafEntries(t)[e].key < k
    ensures forall e :: Pos(t.keys, k) <= e < |t.keys| ==> k <= LeafEntries(t)[e].key
  {
  }

  lemma ConcatSplit(a: seq<Entry>, b: seq<Entry>, c: seq<Entry>, i: nat, k: int)
    requires i <= |b|
    requires forall e :: 0 <= e < |a| ==> a[e].key < k
    requires forall e :: 0 <= e < |c| ==> k < c[e].key
    requires forall e :: 0 <= e < i ==> b[e].key < k
    requires forall e :: i <= e < |b| ==> k <= b[e].key
    ensures var s := a + b + c;
            && (forall e :: 0 <= e < |a| + i ==> s[e].key < k)
            && (forall e :: |a| + i <= e < |s| ==> k <= s[e].key)
            && (i == |b| ==> forall e :: |a| + i <= e < |s| ==> k < s[e].key)
  {
  }

  lemma LeafEntriesAround(L: seq<Tree>, p: nat, k: int)
    requires AllLeaves(L) && p < |L| && LeavesSorted(L)
    requires KeysUnder(L[..p], k) && KeysOver(L[p + 1..], k)
    ensures AllLeaves(L[..p])
    ensures var q := |Entries(L[..p])| + Pos(L[p].keys, k);
            && q <= |Entries(L)|
            && (forall e :: 0 <= e < q ==> Entries(L)[e].key < k)
            && (forall e :: q <= e < |Entries(L)| ==> k <= Entries(L)[e].key)
            && (Pos(L[p].keys, k) == |L[p].keys| ==> forall e :: q <= e < |Entries(L)| ==> k < Entries(L)[e].key)
  {
    EntriesAround(L, p);
    EntriesUnderKey(L[..p], k);
    EntriesOverKey(L[p + 1..], k);
    LeafEntriesSplit(L[p], k);
    ConcatSplit(Entries(L[..p]), LeafEntries(L[p]), Entries(L[p + 1..]), Pos(L[p].keys, k), k);
  }

  /** Where a descent for k ends, all earlier entries of the index are below k and all later
      ones at or above it. */
  lemma EntryIndexSplits(t: Tree, d: nat, k: int)
    requires Ordered(t, d, Unbounded, Unbounded)
    ensures LeafIndex(t, k) < |Leaves(t)|
    ensures EntryIndex(t, k) <= |TreeEntries(t)|
    ensures forall e :: 0 <= e < EntryIndex(t, k) ==> TreeEntries(t)[e].key < k
    ensures forall e :: EntryIndex(t, k) <= e < |TreeEntries(t)| ==> k <= TreeEntries(t)[e].key
    ensures EntryIndex(t, k) < |TreeEntries(t)| ==> k <= TreeEntries(t)[EntryIndex(t, k)].key
  {
    LeavesAreLeaves(t);
    DescentSeparates(t, d, Unbounded, Unbounded, k);
    OrderedLeavesSorted(t, d, Unbounded, Unbounded);
    LeafEntriesAround(Leaves(t), LeafIndex(t, k), k);
  }

  lemma {:induction false} HasLeaf(t: Tree, k: int)
    requires Sized(t)
    ensures LeafIndex(t, k) < |Leaves(t)|
    ensures var l := Leaves(t)[LeafIndex(t, k)];
            Has(t, k) <==> Pos(l.keys, k) < |l.keys| && l.keys[Pos(l.keys, k)] == k
  {
    if t.Node? {
      var i := Pos(t.keys, k);
      HasLeaf(t.children[i], k);
      LeavesOfSplit(t.children, i);
    }
  }

  lemma EntryInLeaf(L: seq<Tree>, p: nat, k: int, e: nat)
    requires AllLeaves(L) && p < |L| && LeavesSorted(L)
    requires KeysUnder(L[..p], k) && KeysOver(L[p + 1..], k)
    requires e < |Entries(L)| && Entries(L)[e].key == k
    ensures var i := Pos(L[p].keys, k); i < |L[p].keys| && L[p].keys[i] == k
  {
    LeafEntriesAround(L, p, k);
    LeavesSortedEntries(L);
    EntryAt(L, p, Pos(L[p].keys, k));
  }

  /** Exact lookup is right in every tree of this shape, also after deletions: the leaf a descent
      for k ends in holds k iff the index does. */
  lemma HasIff(t: Tree, d: nat, k: int)
    requires Ordered(t, d, Unbounded, Unbounded)
    ensures EntriesSorted(TreeEntries(t))
    ensures Has(t, k) <==> k in EntryMap(TreeEntries(t))
  {
    LeavesAreLeaves(t);
    TreeEntriesSorted(t, d, Unbounded, Unbounded);
    OrderedLeavesSorted(t, d, Unbounded, Unbounded);
    DescentSeparates(t, d, Unbounded, Unbounded, k);
    HasLeaf(t, k);
    var L, p, es := Leaves(t), LeafIndex(t, k), TreeEntries(t);
    if Has(t, k) {
      EntryAt(L, p, Pos(L[p].keys, k));
    } else if k in EntryMap(es) {
      var e :| 0 <= e < |es| && es[e].key == k;
      EntryInLeaf(L, p, k, e);
    }
  }

  lemma HasEntry(t: Tree, d: nat, k: int)
    requires Ordered(t, d, Unbounded, Unbounded) && Has(t, k)
    ensures EntriesSorted(TreeEntries(t)) && LeafIndex(t, k) < |Leaves(t)|
    ensures var l := Leaves(t)[LeafIndex(t, k)];
            && Pos(l.keys, k) < |l.keys| && l.Leaf? && |l.rids| == |l.keys|
            && EntryIndex(t, k) < |TreeEntries(t)|
            && TreeEntries(t)[EntryIndex(t, k)] == Entry(k, l.rids[Pos(l.keys, k)])
            && EntryMap(TreeEntries(t))[k] == l.rids[Pos(l.keys, k)]
  {
    hide Leaves, LeafIndex, Has, Entries, EntryMap, AllLeaves, EntriesSorted, Pos;
    HasIff(t, d, k);
    LeavesAreLeaves(t);
    HasLeaf(t, k);
    var L, p := Leaves(t), LeafIndex(t, k);
    EntryAt(L, p, Pos(L[p].keys, k));
    MapLookup(TreeEntries(t), EntryIndex(t, k));
  }

  // ---- what insertion does to the entries

  lemma WideLeafEntries(t: Tree, k: int, rid: Slot)
    requires t.Leaf? && |t.rids| == |t.keys|
    ensures LeafEntries(WideLeaf(t, k, rid)) == InsertedAt(LeafEntries(t), Pos(t.keys, k), Entry(k, rid))
  {
  }

  lemma CutLeafEntries(w: Tree, cap: nat, page: int)
    requires w.Leaf? && |w.rids| == |w.keys| && cap / 2 < |w.keys|
    ensures var g := CutLeaf(w, cap, page); LeafEntries(g.left) + LeafEntries(g.right) == LeafEntries(w)
  {
  }

  lemma GrownLeafEntries(t: Tree, k: int, rid: Slot, cap: nat, next: int)
    requires t.Leaf? && |t.rids| == |t.keys|
    ensures AllLeaves(GrownLeaves(GrownLeaf(t, k, rid, cap, next).grown))
    ensures Entries(GrownLeaves(GrownLeaf(t, k, rid, cap, next).grown)) ==
            InsertedAt(LeafEntries(t), Pos(t.keys, k), Entry(k, rid))
  {
    var w := WideLeaf(t, k, rid);
    WideLeafEntries(t, k, rid);
    if |t.keys| < cap {
      EntriesOfOne(w);
    } else {
      var g := CutLeaf(w, cap, next);
      CutLeafEntries(w, cap, next);
      EntriesConcat([g.left], [g.right]);
      EntriesOfOne(g.left);
      EntriesOfOne(g.right);
    }
  }

  lemma ReplacedEntries(L: seq<Tree>, p: nat, m: seq<Tree>)
    requires AllLeaves(L) && p < |L| && AllLeaves(m)
    ensures AllLeaves(L[..p]) && AllLeaves(L[p + 1..]) && AllLeaves(L[..p] + m + L[p + 1..])
    ensures Entries(L[..p] + m + L[p + 1..]) == Entries(L[..p]) + Entries(m) + Entries(L[p + 1..])
  {
    EntriesConcat(L[..p], m);
    EntriesConcat(L[..p] + m, L[p + 1..]);
  }

  lemma InsertedInside<T>(a: seq<T>, b: seq<T>, c: seq<T>, i: nat, x: T)
    requires i <= |b|
    ensures a + InsertedAt(b, i, x) + c == InsertedAt(a + b + c, |a| + i, x)
  {
    assert (a + b + c)[..|a| + i] == a + b[..i];
    assert (a + b + c)[|a| + i..] == b[i..] + c;
  }

  lemma InsertLeafEntries(L: seq<Tree>, p: nat, k: int, rid: Slot, cap: nat, next: int)
    requires AllLeaves(L) && p < |L|
    ensures AllLeaves(L[..p]) && |Entries(L[..p])| + Pos(L[p].keys, k) <= |Entries(L)|
    ensures var M := L[..p] + GrownLeaves(GrownLeaf(L[p], k, rid, cap, next).grown) + L[p + 1..];
            && AllLeaves(M)
            && Entries(M) == InsertedAt(Entries(L), |Entries(L[..p])| + Pos(L[p].keys, k), Entry(k, rid))
  {
    hide *;
    LeafIsSized(L, p);
    GrownLeafEntries(L[p], k, rid, cap, next);
    ReplacedEntries(L, p, GrownLeaves(GrownLeaf(L[p], k, rid, cap, next).grown));
    EntriesAround(L, p);
    InsertedInside(Entries(L[..p]), LeafEntries(L[p]), Entries(L[p + 1..]), Pos(L[p].keys, k), Entry(k, rid));
  }

  /** Insertion adds exactly one entry, at its place in the order, and moves no other. */
  lemma InsertEntries(t: Tree, d: nat, k: int, rid: Slot, cap: nat, next: int)
    requires Ordered(t, d, Unbounded, Unbounded)
    ensures LeafIndex(t, k) < |Leaves(t)| && EntryIndex(t, k) <= |TreeEntries(t)|
    ensures AllLeaves(GrownLeaves(Insert(t, k, rid, cap, next).grown))
    ensures Entries(GrownLeaves(Insert(t, k, rid, cap, next).grown)) ==
            InsertedAt(TreeEntries(t), EntryIndex(t, k), Entry(k, rid))
  {
    hide GrownLeaves, GrownLeaf, Insert, Leaves, Ordered, LeafIndex, Entries, AllLeaves, InsertedAt;
    LeavesAreLeaves(t);
    InsertLeaves(t, k, rid, cap, next);
    InsertLeafEntries(Leaves(t), LeafIndex(t, k), k, rid, cap, next);
  }

  lemma InsertedElements<T>(s: seq<T>, i: nat, x: T)
    requires i <= |s|
    ensures Inserted(s, i, x, InsertedAt(s, i, x))
  {
  }

  ghost predicate Inserted<T>(s: seq<T>, i: nat, x: T, r: seq<T>)
    requires i <= |s|
  {
    && |r| == |s| + 1 && r[i] == x
    && (forall j :: 0 <= j < i ==> r[j] == s[j])
    && (forall j :: i < j < |r| ==> r[j] == s[j - 1])
  }

  lemma MapLookup(es: seq<Entry>, i: nat)
    requires EntriesSorted(es) && i < |es|
    ensures es[i].key in EntryMap(es) && EntryMap(es)[es[i].key] == es[i].rid
  {
  }

  lemma MapSource(es: seq<Entry>, k: int) returns (i: nat)
    requires EntriesSorted(es) && k in EntryMap(es)
    ensures i < |es| && es[i] == Entry(k, EntryMap(es)[k])
  {
    i :| 0 <= i < |es| && es[i].key == k;
  }

  lemma MapsAgree<K, V>(m: map<K, V>, n: map<K, V>)
    requires forall k :: k in m ==> k in n && n[k] == m[k]
    requires forall k :: k in n ==> k in m
    ensures m == n
  {
    assert m.Keys == n.Keys;
  }

  lemma InsertedMap(es: seq<Entry>, q: nat, e: Entry, fs: seq<Entry>)
    requires q <= |es| && EntriesSorted(es) && Inserted(es, q, e, fs) && EntriesSorted(fs)
    ensures EntryMap(fs) == EntryMap(es)[e.key := e.rid]
    ensures e.key !in EntryMap(es)
  {
    hide EntryMap;
    var m, n := EntryMap(es), EntryMap(fs);
    forall k | k in m ensures k != e.key && k in n && n[k] == m[k] {
      var i := MapSource(es, k);
      assert fs[if i < q then i else i + 1] == es[i];
      MapLookup(fs, if i < q then i else i + 1);
    }
    assert fs[q] == e;
    MapLookup(fs, q);
    forall k | k in n ensures k in m[e.key := e.rid] {
      var i := MapSource(fs, k);
      if i != q { MapLookup(es, if i < q then i else i - 1); }
    }
    MapsAgree(m[e.key := e.rid], n);
  }

  // ---- the leaf chain

  /** The next links list the leaves from left to right. */
  ghost predicate Chained(L: seq<Tree>) {
    forall i :: 0 <= i < |L| ==> L[i].Leaf? && L[i].link.second == PageAfter(L, i)
  }

  ghost function PageAfter(L: seq<Tree>, i: nat): int
    requires i < |L|
  {
    if i + 1 < |L| then L[i + 1].page else -1
  }

  lemma InsertChained(L: seq<Tree>, p: nat, k: int, rid: Slot, cap: nat, next: int)
    requires Chained(L) && AllLeaves(L) && p < |L|
    ensures Chained(L[..p] + GrownLeaves(GrownLeaf(L[p], k, rid, cap, next).grown) + L[p + 1..])
  {
    var g := GrownLeaf(L[p], k, rid, cap, next).grown;
    var w := WideLeaf(L[p], k, rid);
    if g.Two? {
      assert GrownLeaves(g) == [g.left] + [g.right];
      SplitChained(L, p, g.left, g.right);
    } else {
      SwapChained(L, p, w);
    }
  }

  lemma SwapChained(L: seq<Tree>, p: nat, m: Tree)
    requires Chained(L) && p < |L| && m.Leaf? && m.page == L[p].page && m.link.second == L[p].link.second
    ensures Chained(L[..p] + [m] + L[p + 1..])
  {
    assert L[..p] + [m] + L[p + 1..] == L[p := m];
  }

  lemma SplitChained(L: seq<Tree>, p: nat, l: Tree, r: Tree)
    requires Chained(L) && p < |L| && l.Leaf? && r.Leaf?
    requires l.page == L[p].page && l.link.second == r.page && r.link.second == L[p].link.second
    ensures Chained(L[..p] + ([l] + [r]) + L[p + 1..])
  {
    var M := L[..p] + ([l] + [r]) + L[p + 1..];
    assert |M| == |L| + 1;
    forall i | 0 <= i < |M|
      ensures M[i].Leaf? && M[i].link.second == PageAfter(M, i)
    {
      if i > p + 1 {
        assert M[i] == L[i - 1];
        assert L[i - 1].Leaf?;
      }
      if i < p {
        assert L[i].Leaf?;
      }
    }
  }

  // ---------------------------------------------------------------- deletion

  function RemovedAt<T>(s: seq<T>, i: nat): (r: seq<T>)
    requires i < |s|
    ensures |r| == |s| - 1
  {
    s[..i] + s[i + 1..]
  }

  function TrimmedLeaf(t: Tree, k: int): Tree
    requires t.Leaf? && |t.rids| == |t.keys| && Pos(t.keys, k) < |t.keys|
  {
    var i := Pos(t.keys, k);
    t.(keys := RemovedAt(t.keys, i), rids := RemovedAt(t.rids, i))
  }

  /** Deletion empties slots of leaves only: no merging, and separators stay. */
  ghost function Delete(t: Tree, k: int): Tree
    requires Sized(t) && Has(t, k)
  {
    match t
    case Leaf(_, _, _, _) => TrimmedLeaf(t, k)
    case Node(page, keys, children) =>
      var i := Pos(keys, k);
      Node(page, keys, children[i := Delete(children[i], k)])
  }

  lemma {:induction false} DeleteOrdered(t: Tree, k: int, d: nat, lo: Bound, hi: Bound)
    requires Ordered(t, d, lo, hi) && Has(t, k)
    ensures Ordered(Delete(t, k), d, lo, hi)
  {
    if t.Node? {
      var i := Pos(t.keys, k);
      DeleteOrdered(t.children[i], k, d - 1, ChildLo(t.keys, lo, i), ChildHi(t.keys, hi, i));
      ReplacedOrdered(t, i, Delete(t.children[i], k), d, lo, hi);
    }
  }

  lemma {:induction false} DeleteFilled(t: Tree, k: int, least: nat, cap: nat)
    requires Sized(t) && Has(t, k) && Filled(t, least, cap)
    ensures Filled(Delete(t, k), least, cap)
  {
    if t.Node? {
      DeleteFilled(t.children[Pos(t.keys, k)], k, cap / 2, cap);
    }
  }

  lemma {:induction false} DeletePages(t: Tree, k: int)
    requires Sized(t) && Has(t, k) && Distinct(t)
    ensures Distinct(Delete(t, k)) && Pages(Delete(t, k)) == Pages(t) && Delete(t, k).page == t.page
  {
    if t.Node? {
      var i := Pos(t.keys, k);
      ChildPages(t, i);
      DeletePages(t.children[i], k);
      ReplacedPages(t, i, Delete(t.children[i], k), {});
    }
  }

  lemma {:induction false} DeleteLeaves(t: Tree, k: int)
    requires Sized(t) && Has(t, k)
    ensures var L, p := Leaves(t), LeafIndex(t, k);
            && p < |L| && L[p].Leaf? && |L[p].rids| == |L[p].keys| && Pos(L[p].keys, k) < |L[p].keys|
            && Leaves(Delete(t, k)) == L[..p] + [TrimmedLeaf(L[p], k)] + L[p + 1..]
  {
    hide *;
    DeleteUnfolds(t, k);
    if t.Node? {
      var i := Pos(t.keys, k);
      var c := t.children[i];
      DeleteLeaves(c, k);
      DeleteChildLeaves(t, i, Delete(c, k), LeafIndex(c, k), [TrimmedLeaf(Leaves(c)[LeafIndex(c, k)], k)]);
    } else {
      Alone(t, [TrimmedLeaf(t, k)]);
    }
  }

  lemma DeleteUnfolds(t: Tree, k: int)
    requires Sized(t) && Has(t, k)
    ensures t.Leaf? ==>
              && |t.rids| == |t.keys| && Pos(t.keys, k) < |t.keys| && Leaves(t) == [t] && LeafIndex(t, k) == 0
              && Leaves(Delete(t, k)) == [TrimmedLeaf(t, k)]
    ensures t.Node? ==> var i := Pos(t.keys, k);
              && |t.children| == |t.keys| + 1 && Sized(t.children[i]) && Has(t.children[i], k)
              && LeafIndex(t, k) == |LeavesOf(t.children[..i])| + LeafIndex(t.children[i], k)
              && Leaves(t) == LeavesOf(t.children)
              && Leaves(Delete(t, k)) == LeavesOf(t.children[i := Delete(t.children[i], k)])
  {
  }

  lemma DeleteChildLeaves(t: Tree, i: nat, u: Tree, q: nat, m: seq<Tree>)
    requires t.Node? && i < |t.children| && q < |Leaves(t.children[i])| && Leaves(t) == LeavesOf(t.children)
    requires Leaves(u) == Leaves(t.children[i])[..q] + m + Leaves(t.children[i])[q + 1..]
    ensures var L, p := Leaves(t), |LeavesOf(t.children[..i])| + q;
            && p < |L| && L[p] == Leaves(t.children[i])[q]
            && LeavesOf(t.children[i := u]) == L[..p] + m + L[p + 1..]
  {
    hide *;
    LeavesOfSplit(t.children, i);
    ReplacedLeaves(t.children, i, u);
    Framed(LeavesOf(t.children[..i]), Leaves(t.children[i]), LeavesOf(t.children[i + 1..]), q, m, Leaves(u), Leaves(t));
  }

  lemma RemovedInside<T>(a: seq<T>, b: seq<T>, c: seq<T>, i: nat, s: seq<T>, m: seq<T>, r: seq<T>)
    requires i < |b| && s == a + b + c && m == RemovedAt(b, i) && r == a + m + c
    ensures |a| + i < |s| && r == RemovedAt(s, |a| + i)
  {
    assert s[..|a| + i] == a + b[..i];
    assert s[|a| + i + 1..] == b[i + 1..] + c;
  }

  /** Deletion removes exactly the entry of k. */
  lemma DeleteEntries(t: Tree, d: nat, k: int)
    requires Ordered(t, d, Unbounded, Unbounded) && Has(t, k)
    ensures LeafIndex(t, k) < |Leaves(t)| && EntryIndex(t, k) < |TreeEntries(t)|
    ensures TreeEntries(t)[EntryIndex(t, k)].key == k
    ensures Sized(Delete(t, k)) && TreeEntries(Delete(t, k)) == RemovedAt(TreeEntries(t), EntryIndex(t, k))
  {
    hide Leaves, LeafIndex, Has, Delete, Entries, RemovedAt, AllLeaves, Pos, EntriesSorted, TrimmedLeaf;
    LeavesAreLeaves(t);
    HasEntry(t, d, k);
    DeleteLeaves(t, k);
    DeleteOrdered(t, k, d, Unbounded, Unbounded);
    TrimmedEntries(Leaves(t), LeafIndex(t, k), k);
  }

  lemma TrimmedLeafEntries(t: Tree, k: int)
    requires t.Leaf? && |t.rids| == |t.keys| && Pos(t.keys, k) < |t.keys|
    ensures LeafEntries(TrimmedLeaf(t, k)) == RemovedAt(LeafEntries(t), Pos(t.keys, k))
  {
  }

  lemma LeafIsSized(L: seq<Tree>, p: nat)
    requires AllLeaves(L) && p < |L|
    ensures L[p].Leaf? && |L[p].rids| == |L[p].keys|
  {
  }

  lemma TrimmedIsLeaf(t: Tree, k: int)
    requires t.Leaf? && |t.rids| == |t.keys| && Pos(t.keys, k) < |t.keys|
    ensures var u := TrimmedLeaf(t, k); u.Leaf? && |u.rids| == |u.keys|
  {
  }

  lemma TrimmedEntries(L: seq<Tree>, p: nat, k: int)
    requires AllLeaves(L) && p < |L| && Pos(L[p].keys, k) < |L[p].keys|
    ensures AllLeaves(L[..p]) && |Entries(L[..p])| + Pos(L[p].keys, k) < |Entries(L)|
    ensures AllLeaves(L[..p] + [TrimmedLeaf(L[p], k)] + L[p + 1..])
    ensures Entries(L[..p] + [TrimmedLeaf(L[p], k)] + L[p + 1..]) ==
            RemovedAt(Entries(L), |Entries(L[..p])| + Pos(L[p].keys, k))
  {
    hide *;
    LeafIsSized(L, p);
    TrimmedIsLeaf(L[p], k);
    var i, u := Pos(L[p].keys, k), TrimmedLeaf(L[p], k);
    var M := L[..p] + [u] + L[p + 1..];
    TrimmedLeafEntries(L[p], k);
    EntriesOfOne(u);
    ReplacedEntries(L, p, [u]);
    EntriesAround(L, p);
    RemovedInside(Entries(L[..p]), LeafEntries(L[p]), Entries(L[p + 1..]), i, Entries(L), LeafEntries(u), Entries(M));
  }

  lemma RemovedMap(es: seq<Entry>, q: nat)
    requires q < |es| && EntriesSorted(es)
    ensures EntriesSorted(RemovedAt(es, q))
    ensures EntryMap(RemovedAt(es, q)) == EntryMap(es) - {es[q].key}
  {
    var fs := RemovedAt(es, q);
    RemovedElements(es, q);
    hide *;
    InsertedMap(fs, q, es[q], es);
    assert EntryMap(fs)[es[q].key := es[q].rid] - {es[q].key} == EntryMap(fs);
  }

  lemma RemovedElements(es: seq<Entry>, q: nat)
    requires q < |es| && EntriesSorted(es)
    ensures EntriesSorted(RemovedAt(es, q))
    ensures Inserted(RemovedAt(es, q), q, es[q], es)
  {
  }
}
