/** When seeks in an index are right, by its separators and entries alone (src/index/index.cpp:143-151). */
module BPlusSeek {
  import opened BPlusTree
  import opened BPlusInvariant
  import opened IndexNodes
  import opened BPlusCursor

  /** s is a key of some internal node. */
  ghost predicate Separator(t: Tree, s: int) {
    t.Node? && (s in t.keys || exists i :: 0 <= i < |t.children| && Separator(t.children[i], s))
  }

  /** No entry lies from k up to the separator s, but one lies above it. */
  ghost predicate Gap(t: Tree, k: int, s: int)
    requires Sized(t)
  {
    Separator(t, s) && k <= s && (forall m :: k <= m <= s ==> !Has(t, m)) && exists m :: s < m && Has(t, m)
  }

  ghost predicate NoGap(t: Tree, k: int)
    requires Sized(t)
  {
    forall s :: !Gap(t, k, s)
  }

  /** The separator s is an entry, unless there is none above it. */
  ghost predicate Covered(t: Tree, s: int)
    requires Sized(t)
  {
    Separator(t, s) && (exists m :: s < m && Has(t, m)) ==> Has(t, s)
  }

  lemma {:induction false} HasWithin(t: Tree, d: nat, lo: Bound, hi: Bound, m: int)
    requires Ordered(t, d, lo, hi) && Has(t, m)
    ensures Over(lo, m) && Under(m, hi)
  {
    var i := Pos(t.keys, m);
    if t.Node? {
      HasWithin(t.children[i], d - 1, ChildLo(t.keys, lo, i), ChildHi(t.keys, hi, i), m);
      assert i > 0 ==> Over(lo, t.keys[i - 1]);
      assert i < |t.keys| ==> Under(t.keys[i], hi);
    } else {
      assert Over(lo, t.keys[i]) && Under(t.keys[i], hi);
    }
  }

  lemma {:induction false} SeparatorWithin(t: Tree, d: nat, lo: Bound, hi: Bound, s: int)
    requires Ordered(t, d, lo, hi) && Separator(t, s)
    ensures Over(lo, s) && Under(s, hi)
  {
    if s in t.keys {
      var j :| 0 <= j < |t.keys| && t.keys[j] == s;
    } else {
      var i :| 0 <= i < |t.children| && Separator(t.children[i], s);
      SeparatorWithin(t.children[i], d - 1, ChildLo(t.keys, lo, i), ChildHi(t.keys, hi, i), s);
      assert i > 0 ==> Over(lo, t.keys[i - 1]);
      assert i < |t.keys| ==> Under(t.keys[i], hi);
    }
  }

  // A key between two neighbouring keys of a node is looked for in the child between them.
  lemma BetweenKeys(t: Tree, i: nat, m: int)
    requires t.Node? && Sorted(t.keys) && i <= |t.keys|
    requires (i > 0 ==> t.keys[i - 1] < m) && (i < |t.keys| ==> m <= t.keys[i])
    ensures Pos(t.keys, m) == i
  {
    forall j | 0 <= j < i ensures t.keys[j] < m {
      assert j < i - 1 ==> t.keys[j] < t.keys[i - 1];
    }
    PosUnique(t.keys, m, i);
  }

  lemma PosMonotone(s: seq<int>, k: int, m: int)
    requires k <= m
    ensures Pos(s, k) <= Pos(s, m)
  {
  }

  lemma ChildHas(t: Tree, d: nat, lo: Bound, hi: Bound, i: nat, m: int)
    requires t.Node? && Ordered(t, d, lo, hi) && i < |t.children| && Has(t.children[i], m)
    ensures Has(t, m) && Pos(t.keys, m) == i
  {
    HasWithin(t.children[i], d - 1, ChildLo(t.keys, lo, i), ChildHi(t.keys, hi, i), m);
    BetweenKeys(t, i, m);
  }

  lemma ChildGap(t: Tree, k: int, d: nat, lo: Bound, hi: Bound, i: nat, s: int)
    requires t.Node? && Ordered(t, d, lo, hi) && i == Pos(t.keys, k) && i < |t.children| && Gap(t.children[i], k, s)
    ensures Gap(t, k, s)
  {
    SeparatorWithin(t.children[i], d - 1, ChildLo(t.keys, lo, i), ChildHi(t.keys, hi, i), s);
    var above :| s < above && Has(t.children[i], above);
    ChildHas(t, d, lo, hi, i, above);
    forall x | k <= x <= s ensures !Has(t, x) {
      BetweenKeys(t, i, x);
    }
  }

  lemma KeyGap(t: Tree, k: int, d: nat, lo: Bound, hi: Bound, i: nat, m: int)
    requires t.Node? && Ordered(t, d, lo, hi) && i == Pos(t.keys, k) && i < |t.children|
    requires k <= m && Has(t, m) && forall x :: k <= x ==> !Has(t.children[i], x)
    ensures i < |t.keys| && Gap(t, k, t.keys[i])
  {
    PosMonotone(t.keys, k, m);
    assert Pos(t.keys, m) > i;
    forall x | k <= x <= t.keys[i] ensures !Has(t, x) {
      BetweenKeys(t, i, x);
    }
  }

  /** A descent that finds nothing although there is something to find has stopped at a gap. */
  lemma {:induction false} MissHasGap(t: Tree, k: int, d: nat, lo: Bound, hi: Bound, m: int) returns (s: int)
    requires Ordered(t, d, lo, hi) && !Finds(t, k) && k <= m && Has(t, m)
    ensures Gap(t, k, s)
  {
    var i := Pos(t.keys, k);
    if t.Leaf? {
      PosMonotone(t.keys, k, m);
      assert false;
    } else if n :| k <= n && Has(t.children[i], n) {
      s := MissHasGap(t.children[i], k, d - 1, ChildLo(t.keys, lo, i), ChildHi(t.keys, hi, i), n);
      ChildGap(t, k, d, lo, hi, i, s);
    } else {
      KeyGap(t, k, d, lo, hi, i, m);
      s := t.keys[i];
    }
  }

  /** A descent that finds something finds it at or below every separator at or above k. */
  lemma {:induction false} FindsBelow(t: Tree, k: int, d: nat, lo: Bound, hi: Bound, s: int) returns (m: int)
    requires Ordered(t, d, lo, hi) && Finds(t, k) && Separator(t, s) && k <= s
    ensures k <= m <= s && Has(t, m)
  {
    var i := Pos(t.keys, k);
    var c := t.children[i];
    var l, h := ChildLo(t.keys, lo, i), ChildHi(t.keys, hi, i);
    if i < |t.keys| && t.keys[i] <= s {
      m := FindsSome(c, k, d - 1, l, h);
      HasWithin(c, d - 1, l, h, m);
    } else {
      var j := SeparatorChild(t, d, lo, hi, s, i);
      m := FindsBelow(c, k, d - 1, l, h, s);
    }
    ChildHas(t, d, lo, hi, i, m);
  }

  lemma {:induction false} FindsSome(t: Tree, k: int, d: nat, lo: Bound, hi: Bound) returns (m: int)
    requires Ordered(t, d, lo, hi) && Finds(t, k)
    ensures k <= m && Has(t, m)
  {
    var i := Pos(t.keys, k);
    if t.Leaf? {
      m := t.keys[i];
      assert Pos(t.keys, m) == i;
    } else {
      m := FindsSome(t.children[i], k, d - 1, ChildLo(t.keys, lo, i), ChildHi(t.keys, hi, i));
      ChildHas(t, d, lo, hi, i, m);
    }
  }

  // A separator between two neighbouring keys of a node is one of the child between them.
  lemma SeparatorChild(t: Tree, d: nat, lo: Bound, hi: Bound, s: int, i: nat) returns (j: nat)
    requires t.Node? && Ordered(t, d, lo, hi) && Separator(t, s) && i < |t.children|
    requires (i > 0 ==> t.keys[i - 1] < s) && (i < |t.keys| ==> s < t.keys[i])
    ensures j == i && Separator(t.children[i], s)
  {
    assert s !in t.keys by {
      forall x | 0 <= x < |t.keys| ensures t.keys[x] != s {
        assert x < i ==> t.keys[x] <= t.keys[i - 1];
        assert i < x ==> t.keys[i] < t.keys[x];
      }
    }
    j :| 0 <= j < |t.children| && Separator(t.children[j], s);
    SeparatorWithin(t.children[j], d - 1, ChildLo(t.keys, lo, j), ChildHi(t.keys, hi, j), s);
    BetweenKeys(t, i, s);
    BetweenKeys(t, j, s);
  }

  /** In any reachable state, a seek for k is right iff k is below no gap: for every separator at or above k with
      entries above it, there is an entry from k up to the separator. */
  lemma SeekRightIff(t: Tree, k: int, d: nat)
    requires Ordered(t, d, Unbounded, Unbounded)
    ensures LeafIndex(t, k) < |Leaves(t)| && SeekIndex(t, k) <= |TreeEntries(t)|
    ensures SeekIsRight(t, k) <==> NoGap(t, k)
  {
    hide Gap, Finds, Has;
    SeekRight(t, k, d);
    if SeekIsRight(t, k) {
      forall s ensures !Gap(t, k, s) {
        RightHasNoGap(t, k, d, s);
      }
    } else {
      var m := WrongMisses(t, k, d);
      var s := MissHasGap(t, k, d, Unbounded, Unbounded, m);
    }
  }

  lemma RightHasNoGap(t: Tree, k: int, d: nat, s: int)
    requires Ordered(t, d, Unbounded, Unbounded) && LeafIndex(t, k) < |Leaves(t)| && SeekIndex(t, k) <= |TreeEntries(t)|
    ensures !(SeekIsRight(t, k) && Gap(t, k, s))
  {
    if Finds(t, k) {
      if Separator(t, s) && k <= s {
        var m := FindsBelow(t, k, d, Unbounded, Unbounded, s);
      }
    } else if above :| s < above && Has(t, above) {
      HasEntry(t, d, above);
      hide Has, Ordered;
      assert TreeEntries(t)[EntryIndex(t, above)].key == above;
    }
  }

  // A seek that is wrong finds nothing although there is an entry at or above k.
  lemma WrongMisses(t: Tree, k: int, d: nat) returns (m: int)
    requires Ordered(t, d, Unbounded, Unbounded) && LeafIndex(t, k) < |Leaves(t)| && SeekIndex(t, k) <= |TreeEntries(t)|
    requires !SeekIsRight(t, k)
    ensures !Finds(t, k) && k <= m && Has(t, m)
  {
    SeekRight(t, k, d);
    FindsIndex(t, k, d);
    var e :| 0 <= e < SeekIndex(t, k) && TreeEntries(t)[e].key >= k;
    m := TreeEntries(t)[e].key;
    HasIff(t, d, m);
    MapLookup(TreeEntries(t), e);
  }

  /** All seeks in an index are right iff it holds every separator that has entries above it. */
  lemma AllSeeksRightIff(t: Tree, d: nat)
    requires Ordered(t, d, Unbounded, Unbounded)
    ensures forall k :: LeafIndex(t, k) < |Leaves(t)| && SeekIndex(t, k) <= |TreeEntries(t)|
    ensures (forall k :: SeekIsRight(t, k)) <==> forall s :: Covered(t, s)
  {
    hide Gap, Has, Separator, SeekIsRight;
    forall k
      ensures LeafIndex(t, k) < |Leaves(t)| && SeekIndex(t, k) <= |TreeEntries(t)|
      ensures SeekIsRight(t, k) <==> NoGap(t, k)
    {
      SeekRightIff(t, k, d);
    }
    NoGapsIff(t);
  }

  lemma NoGapsIff(t: Tree)
    requires Sized(t)
    ensures (forall k :: NoGap(t, k)) <==> forall s :: Covered(t, s)
  {
    if forall k :: NoGap(t, k) {
      forall s ensures Covered(t, s) {
        assert NoGap(t, s) && !Gap(t, s, s);
      }
    } else {
      var k :| !NoGap(t, k);
      var s :| Gap(t, k, s);
      assert !Covered(t, s);
    }
  }

  // ---------------------------------------------------------------- exact separators

  lemma {:induction false} MaxHas(t: Tree, d: nat, lo: Bound, hi: Bound, m: int)
    requires Ordered(t, d, lo, hi) && MaxIs(t, m)
    ensures Has(t, m)
  {
    if t.Node? {
      var n := |t.children| - 1;
      MaxHas(t.children[n], d - 1, ChildLo(t.keys, lo, n), ChildHi(t.keys, hi, n), m);
      ChildHas(t, d, lo, hi, n, m);
    } else {
      PosUnique(t.keys, m, |t.keys| - 1);
    }
  }

  // What Ordered and Tight say of child i.
  lemma ChildOf(t: Tree, d: nat, lo: Bound, hi: Bound, i: nat)
    requires t.Node? && Ordered(t, d, lo, hi) && i < |t.children|
    ensures Sized(t) && d > 0 && i <= |t.keys| && |t.children| == |t.keys| + 1
    ensures Ordered(t.children[i], d - 1, ChildLo(t.keys, lo, i), ChildHi(t.keys, hi, i))
    ensures Tight(t) ==> Tight(t.children[i]) && (i < |t.keys| ==> MaxIs(t.children[i], t.keys[i]))
  {
  }

  // A separator is a key of the root or a separator of a child.
  lemma SeparatorSource(t: Tree, s: int) returns (i: nat, here: bool)
    requires Sized(t) && Separator(t, s)
    ensures t.Node? && i < |t.children| && if here then i < |t.keys| && t.keys[i] == s else Separator(t.children[i], s)
  {
    here := s in t.keys;
    if here {
      i :| 0 <= i < |t.keys| && t.keys[i] == s;
    } else {
      i :| 0 <= i < |t.children| && Separator(t.children[i], s);
    }
  }

  /** Exact separators are entries. */
  lemma {:induction false} TightSeparator(t: Tree, d: nat, lo: Bound, hi: Bound, s: int)
    requires Ordered(t, d, lo, hi) && Tight(t) && Separator(t, s)
    ensures Has(t, s)
  {
    hide *;
    var i, here := SeparatorSource(t, s);
    ChildOf(t, d, lo, hi, i);
    if here {
      MaxHas(t.children[i], d - 1, ChildLo(t.keys, lo, i), ChildHi(t.keys, hi, i), s);
    } else {
      TightSeparator(t.children[i], d - 1, ChildLo(t.keys, lo, i), ChildHi(t.keys, hi, i), s);
    }
    ChildHas(t, d, lo, hi, i, s);
  }

  lemma {:induction false} DeleteSeparators(t: Tree, k: int, s: int)
    requires Sized(t) && Has(t, k)
    ensures Separator(Delete(t, k), s) <==> Separator(t, s)
  {
    if t.Node? {
      var i, u := Pos(t.keys, k), Delete(t, k);
      DeleteSeparators(t.children[i], k, s);
      forall j | 0 <= j < |t.children| ensures Separator(u.children[j], s) <==> Separator(t.children[j], s) {
      }
    }
  }

  lemma {:induction false} DeleteMax(t: Tree, k: int, m: int)
    requires Sized(t) && Has(t, k) && MaxIs(t, m) && k != m
    ensures MaxIs(Delete(t, k), m)
  {
    if t.Node? {
      var i := Pos(t.keys, k);
      if i == |t.children| - 1 { DeleteMax(t.children[i], k, m); }
    }
  }

  lemma {:induction false} DeleteTight(t: Tree, k: int)
    requires Sized(t) && Has(t, k) && Tight(t) && !Separator(t, k)
    ensures Tight(Delete(t, k))
  {
    if t.Node? {
      var i := Pos(t.keys, k);
      DeleteTight(t.children[i], k);
      if i < |t.keys| { DeleteMax(t.children[i], k, t.keys[i]); }
      ReplacedTight(t, i, Delete(t.children[i], k));
    }
  }

  /** A deletion keeps the separators exact iff it is not of a separator. */
  lemma DeleteTightIff(t: Tree, k: int, d: nat)
    requires Ordered(t, d, Unbounded, Unbounded) && Has(t, k) && Tight(t)
    ensures Tight(Delete(t, k)) <==> !Separator(t, k)
  {
    if Separator(t, k) {
      DeleteSeparators(t, k, k);
      DeleteOrdered(t, k, d, Unbounded, Unbounded);
      if Tight(Delete(t, k)) { TightSeparator(Delete(t, k), d, Unbounded, Unbounded, k); }
      DeleteHas(t, k, d, Unbounded, Unbounded);
    } else {
      DeleteTight(t, k);
    }
  }

  lemma {:induction false} DeleteHas(t: Tree, k: int, d: nat, lo: Bound, hi: Bound)
    requires Ordered(t, d, lo, hi) && Has(t, k)
    ensures Sized(Delete(t, k)) && !Has(Delete(t, k), k)
  {
    var i := Pos(t.keys, k);
    if t.Node? {
      DeleteHas(t.children[i], k, d - 1, ChildLo(t.keys, lo, i), ChildHi(t.keys, hi, i));
    } else {
      var u := Delete(t, k);
      assert forall j :: 0 <= j < |u.keys| ==> u.keys[j] == if j < i then t.keys[j] else t.keys[j + 1];
      PosUnique(u.keys, k, i);
    }
  }
}
