/** Positions in an index and the order in which the leaf chain visits its entries. */
module BPlusCursor {
  import opened BPlusTree
  import opened BPlusInvariant
  import opened IndexFiles

  /** A place in the index; (-1, -1) is the end. */
  datatype Position = Position(page: int, child: int)

  const END := Position(-1, -1)

  /** The place of entry number e, the end when there are no more than e entries. */
  ghost function PlaceOf(L: seq<Tree>, e: nat): Position {
    if L == [] then END
    else if e < |L[0].keys| then Position(L[0].page, e)
    else PlaceOf(L[1..], e - |L[0].keys|)
  }

  ghost function Before(L: seq<Tree>, i: nat): nat
    requires i <= |L|
  {
    if i == 0 then 0 else Before(L, i - 1) + |L[i - 1].keys|
  }

  lemma {:induction false} BeforeTail(L: seq<Tree>, i: nat)
    requires 0 < i <= |L|
    ensures Before(L, i) == |L[0].keys| + Before(L[1..], i - 1)
  {
    if i > 1 { BeforeTail(L, i - 1); }
  }

  lemma {:induction false} BeforeIsEntries(L: seq<Tree>, i: nat)
    requires AllLeaves(L) && i <= |L|
    ensures AllLeaves(L[..i]) && |Entries(L[..i])| == Before(L, i)
  {
    if i > 0 {
      BeforeIsEntries(L, i - 1);
      EntriesConcat(L[..i - 1], [L[i - 1]]);
      EntriesOfOne(L[i - 1]);
      assert L[..i - 1] + [L[i - 1]] == L[..i];
    }
  }

  lemma BeforeAll(L: seq<Tree>)
    requires AllLeaves(L)
    ensures |Entries(L)| == Before(L, |L|)
  {
    BeforeIsEntries(L, |L|);
    assert L[..|L|] == L;
  }

  lemma {:induction false} PlaceAt(L: seq<Tree>, i: nat, c: nat)
    requires i < |L| && c < |L[i].keys|
    ensures PlaceOf(L, Before(L, i) + c) == Position(L[i].page, c)
    decreases i
  {
    if i > 0 {
      PlaceAt(L[1..], i - 1, c);
      BeforeTail(L, i);
    }
  }

  lemma {:induction false} PlaceEnd(L: seq<Tree>, e: nat)
    requires e >= Before(L, |L|)
    ensures PlaceOf(L, e) == END
  {
    if L != [] {
      BeforeTail(L, |L|);
      PlaceEnd(L[1..], e - |L[0].keys|);
    }
  }

  /** Where entry e stands. */
  lemma {:induction false} PlaceSource(L: seq<Tree>, e: nat) returns (i: nat, c: nat)
    requires e < Before(L, |L|)
    ensures i < |L| && c < |L[i].keys| && e == Before(L, i) + c && PlaceOf(L, e) == Position(L[i].page, c)
  {
    if e < |L[0].keys| {
      i, c := 0, e;
    } else {
      BeforeTail(L, |L|);
      i, c := PlaceSource(L[1..], e - |L[0].keys|);
      i := i + 1;
      BeforeTail(L, i);
    }
  }

  // ---------------------------------------------------------------- leaves in the file

  lemma {:induction false} LeafPageIn(t: Tree, i: nat)
    requires i < |Leaves(t)|
    ensures Leaves(t)[i].page in Pages(t)
  {
    if t.Node? {
      var c, x := LeafSource(t.children, i);
      LeafPageIn(t.children[c], x);
      ChildPages(t, c);
    }
  }

  lemma {:induction false} LeafPagesDiffer(t: Tree, i: nat, j: nat)
    requires Distinct(t) && i < j < |Leaves(t)|
    ensures Leaves(t)[i].page != Leaves(t)[j].page
  {
    if t.Node? {
      var c, x := LeafSource(t.children, i);
      var e, y := LeafSource(t.children, j);
      ChildPages(t, c);
      ChildPages(t, e);
      LeafPageIn(t.children[c], x);
      LeafPageIn(t.children[e], y);
      if c == e {
        LeafPagesDiffer(t.children[c], x, y);
      } else if c < e {
        ChildrenApart(t.children, c, e);
      } else {
        ChildrenApart(t.children, e, c);
      }
    }
  }

  /** The places of different entries differ. */
  lemma PlaceInjective(t: Tree, a: nat, b: nat)
    requires Distinct(t) && a < b <= Before(Leaves(t), |Leaves(t)|) && -1 !in Pages(t)
    ensures PlaceOf(Leaves(t), a) != PlaceOf(Leaves(t), b)
  {
    var L := Leaves(t);
    var i, c := PlaceSource(L, a);
    LeafPageIn(t, i);
    if b < Before(L, |L|) {
      var j, d := PlaceSource(L, b);
      if i < j { LeafPagesDiffer(t, i, j); } else if j < i { LeafPagesDiffer(t, j, i); }
    } else {
      PlaceEnd(L, b);
    }
  }

  lemma {:induction false} LeafStored(f: File, t: Tree, i: nat)
    requires Stored(f, t) && i < |Leaves(t)|
    ensures Leaves(t)[i].page in f && Shows(f[Leaves(t)[i].page], Leaves(t)[i])
  {
    if t.Node? {
      var c, x := LeafSource(t.children, i);
      LeafStored(f, t.children[c], x);
    }
  }

  /** What a reader of leaf i finds on its page: its keys and the page of the next leaf. */
  lemma ReadLeaf(f: File, t: Tree, i: nat, cap: nat, next: int)
    requires Good(t, cap, next) && Stored(f, t) && i < |Leaves(t)|
    ensures var l := Leaves(t)[i];
            && l.Leaf? && |l.rids| == |l.keys|
            && l.page in f && 1 <= l.page < next
            && f[l.page].leaf && f[l.page].keys == l.keys && f[l.page].slots == l.rids + [l.link]
            && l.link.second == PageAfter(Leaves(t), i)
  {
    LeafStored(f, t, i);
    LeafPageIn(t, i);
    LeavesAreLeaves(t);
  }

  /** The subtrees that first children lead to. */
  ghost function Leftmost(t: Tree, n: nat): Tree
    requires Sized(t)
    ensures Sized(Leftmost(t, n))
    decreases n
  {
    if n == 0 || t.Leaf? then t else Leftmost(t.children[0], n - 1)
  }

  lemma {:induction false} LeftmostStored(f: File, t: Tree, n: nat, d: nat, lo: Bound, hi: Bound)
    requires Ordered(t, d, lo, hi) && Stored(f, t) && n <= d
    ensures var u := Leftmost(t, n);
            && u.page in f && Shows(f[u.page], u)
            && (u.Leaf? <==> n == d)
            && (u.Node? ==> |u.children| > 0 && Leftmost(t, n + 1) == u.children[0])
    decreases n
  {
    if n > 0 {
      LeftmostStored(f, t.children[0], n - 1, d - 1, ChildLo(t.keys, lo, 0), ChildHi(t.keys, hi, 0));
    }
  }

  lemma {:induction false} LeftmostLeaf(t: Tree, n: nat)
    requires Sized(t) && Leftmost(t, n).Leaf?
    ensures |Leaves(t)| > 0 && Leaves(t)[0] == Leftmost(t, n)
    decreases n
  {
    if n > 0 && t.Node? {
      LeftmostLeaf(t.children[0], n - 1);
    }
  }

  // ---------------------------------------------------------------- seeks

  /** The entry a seek for k reports: the first at or above k in the leaf its descent ends in,
      else the end. */
  ghost function SeekIndex(t: Tree, k: int): nat
    requires Sized(t) && LeafIndex(t, k) < |Leaves(t)|
  {
    if Finds(t, k) then EntryIndex(t, k) else |TreeEntries(t)|
  }

  /** Whatever entry a seek reports is the first one at or above k in the whole index, in every
      reachable state; in an index with exact separators the report of the end is right too. */
  lemma SeekRight(t: Tree, k: int, d: nat)
    requires Ordered(t, d, Unbounded, Unbounded)
    ensures LeafIndex(t, k) < |Leaves(t)| && SeekIndex(t, k) <= |TreeEntries(t)|
    ensures SeekIndex(t, k) < |TreeEntries(t)| ==> k <= TreeEntries(t)[SeekIndex(t, k)].key
    ensures SeekIndex(t, k) < |TreeEntries(t)| || Tight(t) ==>
              forall e :: 0 <= e < SeekIndex(t, k) ==> TreeEntries(t)[e].key < k
  {
    FindsIndex(t, k, d);
    EntryIndexSplits(t, d, k);
    if Tight(t) { TightSeek(t, k, d); }
  }

  lemma TreeSeek(t: Tree, k: int)
    requires Sized(t) && Ordered(t, Height(t), Unbounded, Unbounded)
    ensures LeafIndex(t, k) < |Leaves(t)| && SeekIndex(t, k) <= |TreeEntries(t)| && EntriesSorted(TreeEntries(t))
    ensures SeekIndex(t, k) < |TreeEntries(t)| ==> k <= TreeEntries(t)[SeekIndex(t, k)].key
    ensures SeekIndex(t, k) < |TreeEntries(t)| || Tight(t) || k in EntryMap(TreeEntries(t)) ==>
              forall e :: 0 <= e < SeekIndex(t, k) ==> TreeEntries(t)[e].key < k
  {
    var d := Height(t);
    SeekRight(t, k, d);
    HasIff(t, d, k);
    if Has(t, k) {
      HasLeaf(t, k);
      FindsLeaf(t, k);
      FindsIndex(t, k, d);
    }
  }

  /** A seek is right: it reports the first entry at or above k of the whole index. */
  ghost predicate SeekIsRight(t: Tree, k: int)
    requires Sized(t) && LeafIndex(t, k) < |Leaves(t)| && SeekIndex(t, k) <= |TreeEntries(t)|
  {
    && (forall e :: 0 <= e < SeekIndex(t, k) ==> TreeEntries(t)[e].key < k)
    && (SeekIndex(t, k) < |TreeEntries(t)| ==> k <= TreeEntries(t)[SeekIndex(t, k)].key)
  }

  lemma SeekPlace(t: Tree, k: int)
    requires Sized(t)
    ensures LeafIndex(t, k) < |Leaves(t)|
    ensures var l := Leaves(t)[LeafIndex(t, k)];
            PlaceOf(Leaves(t), SeekIndex(t, k)) == if Pos(l.keys, k) < |l.keys| then Position(l.page, Pos(l.keys, k))
                else END
  {
    FindsLeaf(t, k);
    LeavesAreLeaves(t);
    var L, p := Leaves(t), LeafIndex(t, k);
    BeforeIsEntries(L, p);
    BeforeAll(L);
    if Finds(t, k) {
      PlaceAt(L, p, Pos(L[p].keys, k));
    } else {
      PlaceEnd(L, Before(L, |L|));
    }
  }

  lemma SkipStart(L: seq<Tree>, i: nat)
    requires i < |L|
    ensures Before(L, i + 1) == Before(L, i) + |L[i].keys|
    ensures PageAfter(L, i) == if i + 1 < |L| then L[i + 1].page else -1
  {
  }

  lemma NoneBefore(L: seq<Tree>)
    ensures Before(L, 0) == 0
  {
  }
}
