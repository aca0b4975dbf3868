/** Gathering the records of one table that satisfy a list of predicates, by a full scan or by the
    index of the first predicate's column (src/query/query_engine.cpp). */
module Gather {
  import opened Wrappers
  import opened Rows
  import opened Plans
  import opened TableFiles
  import opened RecordTable
  import KeyOrder
  import BPlusTree
  import BPlusCursor
  import BPlusIndex

  type RowMap = map<Rid, Row>

  /** Records fit the descriptor, and their offsets are 32-bit numbers below the search sentinels. */
  ghost predicate RowsOk(desc: Descriptor, rows: RowMap) {
    forall r :: r in rows ==> FitsRow(desc, rows[r]) && KeyOrder.RealOffset(r)
  }

  /** The index key of record r for the value v of a column. */
  function KeyOf(v: int, r: Rid, unique: bool): int {
    KeyOrder.ValueKey(v, r, unique)
  }

  function LowKey(v: int, unique: bool): int { KeyOrder.ValueKey(v, KeyOrder.LEAST, unique) }
  function HighKey(v: int, unique: bool): int { KeyOrder.ValueKey(v, KeyOrder.GREATEST, unique) }

  function RidOf(s: BPlusTree.Slot): Rid { Rid(s.first, s.second) }

  /** The index of column c holds exactly the (value, offset) pairs of the records that are not null
      in the column. */
  ghost predicate Agrees(contents: map<int, BPlusTree.Slot>, desc: Descriptor, rows: RowMap, c: nat)
    requires c < |desc| && RowsOk(desc, rows)
  {
    && (forall r :: r in rows && !IsNull(desc, rows[r], c) ==> Pointed(contents, desc, rows, c, r))
    && (forall k :: k in contents ==>
          var r := RidOf(contents[k]);
          r in rows && !IsNull(desc, rows[r], c) && k == KeyOf(rows[r].values[c], r, desc[c].unique))
  }

  ghost predicate Pointed(contents: map<int, BPlusTree.Slot>, desc: Descriptor, rows: RowMap, c: nat, r: Rid)
    requires c < |desc| && r in rows && FitsRow(desc, rows[r])
  {
    var k := KeyOf(rows[r].values[c], r, desc[c].unique);
    k in contents && RidOf(contents[k]) == r
  }

  /** r is a record that satisfies every predicate. */
  ghost predicate Selected(desc: Descriptor, rows: RowMap, preds: seq<Predicate>, r: Rid)
    requires ColumnsOk(desc, preds) && RowsOk(desc, rows)
  {
    r in rows && SatisfiesAll(desc, rows[r], preds)
  }

  /** Those of L that are selected, in order. */
  ghost function Kept(desc: Descriptor, rows: RowMap, preds: seq<Predicate>, L: seq<Rid>): seq<Rid>
    requires ColumnsOk(desc, preds) && RowsOk(desc, rows)
  {
    if L == [] then []
    else
      var K := Kept(desc, rows, preds, L[..|L| - 1]);
      if Selected(desc, rows, preds, L[|L| - 1]) then K + [L[|L| - 1]] else K
  }

  predicate NoneTwice(L: seq<Rid>) {
    forall i, j :: 0 <= i < j < |L| ==> L[i] != L[j]
  }

  lemma {:induction false} KeptExact(desc: Descriptor, rows: RowMap, preds: seq<Predicate>, L: seq<Rid>)
    requires ColumnsOk(desc, preds) && RowsOk(desc, rows)
    ensures forall r :: r in Kept(desc, rows, preds, L) <==> r in L && Selected(desc, rows, preds, r)
    ensures NoneTwice(L) ==> NoneTwice(Kept(desc, rows, preds, L))
  {
    if L != [] {
      var M, l := L[..|L| - 1], L[|L| - 1];
      KeptExact(desc, rows, preds, M);
      assert L == M + [l];
      if NoneTwice(L) { assert l !in M; }
    }
  }

  /** By page and slot. */
  ghost predicate InOffsetOrder(L: seq<Rid>) {
    forall i, j :: 0 <= i < j < |L| ==> RidBefore(L[i], L[j])
  }

  lemma {:induction false} KeptInOrder(desc: Descriptor, rows: RowMap, preds: seq<Predicate>, L: seq<Rid>)
    requires ColumnsOk(desc, preds) && RowsOk(desc, rows) && InOffsetOrder(L)
    ensures InOffsetOrder(Kept(desc, rows, preds, L))
  {
    if L != [] {
      var M, l := L[..|L| - 1], L[|L| - 1];
      KeptInOrder(desc, rows, preds, M);
      KeptExact(desc, rows, preds, M);
      forall r | r in Kept(desc, rows, preds, M) ensures RidBefore(r, l) {
        var j :| 0 <= j < |M| && M[j] == r;
        assert RidBefore(L[j], L[|L| - 1]);
      }
    }
  }

  lemma KeptNext(desc: Descriptor, rows: RowMap, preds: seq<Predicate>, L: seq<Rid>, r: Rid)
    requires ColumnsOk(desc, preds) && RowsOk(desc, rows)
    ensures Kept(desc, rows, preds, L + [r]) ==
            if Selected(desc, rows, preds, r) then Kept(desc, rows, preds, L) + [r] else Kept(desc, rows, preds, L)
  {
    assert (L + [r])[..|L|] == L;
  }

  /** The record offsets that a run of index entries points to. */
  ghost function Targets(es: seq<BPlusTree.Entry>): (L: seq<Rid>)
    ensures |L| == |es| && forall i :: 0 <= i < |es| ==> L[i] == RidOf(es[i].rid)
  {
    seq(|es|, i requires 0 <= i < |es| => RidOf(es[i].rid))
  }

  // ---------------------------------------------------------------- full scans

  method FullScan(desc: Descriptor, table: Table, preds: seq<Predicate>) returns (rids: seq<Rid>)
    requires table.Valid() && RowsOk(desc, table.Contents())
    requires ColumnsOk(desc, preds) && (OperandsOk(preds) || table.Contents() == map[])
    ensures rids == Kept(desc, table.Contents(), preds, table.Offsets())
  {
    hide *;
    ghost var rows, done := table.Contents(), [];
    rids := [];
    KeptNone(desc, rows, preds);
    var rid := FirstOffset(table);
    while rid.page != -1
      invariant table.Offsets() == done + table.Rest(rid)
      invariant rid.page == -1 ==> table.Rest(rid) == []
      invariant rid.page != -1 ==> rid in rows && rid.page >= 1 && rid.slot >= 0
      invariant rids == Kept(desc, rows, preds, done)
      decreases |table.Rest(rid)|
    {
      var record := table.GetRecord(rid);
      RowFits(desc, rows, rid);
      var keep := RecordSatisfies(desc, record.value, preds);
      SelectedIs(desc, rows, preds, rid);
      if keep { rids := rids + [rid]; }
      KeptNext(desc, rows, preds, done, rid);
      done := done + [rid];
      rid := OffsetAfter(table, rid);
    }
    assert table.Offsets() == done;
  }

  // An offset behind the last is the end.
  method FirstOffset(table: Table) returns (rid: Rid)
    requires table.Valid()
    ensures table.Rest(rid) == table.Offsets()
    ensures if rid.page == -1 then table.Rest(rid) == [] else rid in table.Contents() && rid.page >= 1 && rid.slot >= 0
  {
    rid := table.RecordOffsetBegin();
    table.RestFrom(1, 0, rid);
  }

  method OffsetAfter(table: Table, rid: Rid) returns (next: Rid)
    requires table.Valid() && rid.page >= 1 && rid.slot >= 0
    ensures table.Rest(rid) == [rid] + table.Rest(next)
    ensures if next.page == -1 then table.Rest(next) == []
            else next in table.Contents() && next.page >= 1 && next.slot >= 0
  {
    hide StepsTo, LiveFrom, Consistent, Live;
    next := table.NextRecordOffset(rid);
    RestOf(table, rid, next);
  }

  lemma RestOf(table: Table, rid: Rid, next: Rid)
    requires table.Valid() && rid.page >= 1 && rid.slot >= 0
    requires StepsTo(table.file, table.pageCount, table.slotCountPerPage, rid.page, rid.slot + 1, next)
    ensures table.Rest(rid) == [rid] + table.Rest(next)
    ensures if next.page == -1 then table.Rest(next) == []
            else next in table.Contents() && next.page >= 1 && next.slot >= 0
  {
    hide StepsTo, LiveFrom, Consistent, Live;
    table.RestFrom(rid.page, rid.slot + 1, next);
  }

  lemma RowFits(desc: Descriptor, rows: RowMap, r: Rid)
    requires RowsOk(desc, rows) && r in rows
    ensures FitsRow(desc, rows[r]) && rows != map[]
  {
  }

  lemma SelectedIs(desc: Descriptor, rows: RowMap, preds: seq<Predicate>, r: Rid)
    requires ColumnsOk(desc, preds) && RowsOk(desc, rows) && r in rows
    ensures FitsRow(desc, rows[r]) && (Selected(desc, rows, preds, r) <==> SatisfiesAll(desc, rows[r], preds))
  {
  }

  lemma KeptNone(desc: Descriptor, rows: RowMap, preds: seq<Predicate>)
    requires ColumnsOk(desc, preds) && RowsOk(desc, rows)
    ensures Kept(desc, rows, preds, []) == []
  {
  }

  // ---------------------------------------------------------------- index scans

  /** What is kept of entries b to t of an index.  A begin at the end is no position to start from
      when the scan should stop at a real entry. */
  ghost function ScanOf(desc: Descriptor, rows: RowMap, preds: seq<Predicate>, S: seq<BPlusTree.Entry>, b: nat,
                        t: nat): Result<seq<Rid>, TableError>
    requires ColumnsOk(desc, preds) && RowsOk(desc, rows) && b <= |S|
  {
    var e := if t < |S| then t else |S|;
    if b <= e then Ok(Kept(desc, rows, preds, Targets(S[b..e]))) else Err(RecordOffsetOutOfRange)
  }

  lemma TargetsNext(S: seq<BPlusTree.Entry>, b: nat, n: nat)
    requires b <= n < |S|
    ensures Targets(S[b..n + 1]) == Targets(S[b..n]) + [RidOf(S[n].rid)]
  {
  }

  lemma NoTargets(desc: Descriptor, rows: RowMap, preds: seq<Predicate>, S: seq<BPlusTree.Entry>, b: nat)
    requires ColumnsOk(desc, preds) && RowsOk(desc, rows) && b <= |S|
    ensures Kept(desc, rows, preds, Targets(S[b..b])) == []
  {
  }

  // Entry n of an index that agrees with the table points to a record.
  lemma EntryPoints(index: BPlusIndex.Index, desc: Descriptor, rows: RowMap, c: nat, n: nat)
    requires index.Valid() && c < |desc| && RowsOk(desc, rows) && Agrees(index.Contents(), desc, rows, c)
    requires n < |index.Sequence()|
    ensures var r := RidOf(index.Sequence()[n].rid);
            r in rows && FitsRow(desc, rows[r]) && r.page != 0
            && index.Sequence()[n].key == KeyOf(rows[r].values[c], r, desc[c].unique)
  {
    index.SeekFacts(0);
    BPlusTree.MapLookup(index.Sequence(), n);
  }

  // A table and one of its indexes, with what they stand for.
  ghost predicate Linked(table: Table, index: BPlusIndex.Index, desc: Descriptor, c: nat, rows: RowMap,
                         S: seq<BPlusTree.Entry>)
    reads table, table.repr, index, index.repr
  {
    && table.Valid() && rows == table.Contents() && RowsOk(desc, rows)
    && index.Valid() && S == index.Sequence() && c < |desc| && Agrees(index.Contents(), desc, rows, c)
  }

  lemma LinkedIs(table: Table, index: BPlusIndex.Index, desc: Descriptor, c: nat, rows: RowMap, S: seq<BPlusTree.Entry>)
    ensures Linked(table, index, desc, c, rows, S) <==>
              && table.Valid() && rows == table.Contents() && RowsOk(desc, rows)
              && index.Valid() && S == index.Sequence() && c < |desc| && Agrees(index.Contents(), desc, rows, c)
  {
  }

  // The record at entry n of an index; behind the last entry there is none.
  method ReadEntry(desc: Descriptor, table: Table, index: BPlusIndex.Index, it: BPlusCursor.Position,
                   ghost rows: RowMap, ghost S: seq<BPlusTree.Entry>, ghost c: nat, ghost n: nat)
    returns (rid: Rid, record: Result<Row, TableError>)
    requires Linked(table, index, desc, c, rows, S)
    requires n <= |S| && index.Valid() && it == index.Place(n)
    ensures n == |S| ==> record == Err(RecordOffsetOutOfRange)
    ensures n < |S| ==> rid == RidOf(S[n].rid) && rid in rows && FitsRow(desc, rows[rid]) && record == Ok(rows[rid])
  {
    hide *;
    LinkedIs(table, index, desc, c, rows, S);
    var target := index.RelatedRecordOffset(it, n);
    rid := Rid(target.first, target.second);
    RidIs(target);
    if n < |index.Sequence()| {
      EntryPoints(index, desc, table.Contents(), c, n);
    } else {
      NoSuchRecord(desc, table.Contents());
    }
    record := table.GetRecord(rid);
  }

  lemma RidIs(s: BPlusTree.Slot)
    ensures RidOf(s) == Rid(s.first, s.second)
  {
  }

  lemma NoSuchRecord(desc: Descriptor, rows: RowMap)
    requires RowsOk(desc, rows)
    ensures Rid(-1, -1) !in rows
  {
  }

  // Steps of a scan from entry b towards entry t, which takes n there.
  ghost predicate Stands(index: BPlusIndex.Index, it: BPlusCursor.Position, end: BPlusCursor.Position, b: nat, t: nat,
                         n: nat)
    requires index.Valid()
    reads index, index.repr
  {
    var m := |index.Sequence()|;
    && b <= n <= m && (if b <= t then n <= t else n == b == m)
    && it == index.Place(n) && end == index.Place(t)
  }

  lemma AtEnd(index: BPlusIndex.Index, it: BPlusCursor.Position, end: BPlusCursor.Position, b: nat, t: nat, n: nat)
    requires index.Valid() && Stands(index, it, end, b, t, n)
    ensures it == end <==> b <= t && n == (if t < |index.Sequence()| then t else |index.Sequence()|)
  {
    var m := |index.Sequence()|;
    index.PlacesDiffer(m, m + 1);
    index.PlacesDiffer(t, n);
    index.PlacesDiffer(n, t);
  }

  // One entry of a scan, with what has been kept of those before it.
  method ScanEntry(desc: Descriptor, table: Table, index: BPlusIndex.Index, preds: seq<Predicate>,
                   it: BPlusCursor.Position,
                   rids: seq<Rid>, ghost rows: RowMap, ghost S: seq<BPlusTree.Entry>, ghost c: nat, ghost b: nat,
                       ghost n: nat)
    returns (more: Result<seq<Rid>, TableError>)
    requires ColumnsOk(desc, preds) && OperandsOk(preds)
    requires RowsOk(desc, rows) && Linked(table, index, desc, c, rows, S)
    requires b <= n <= |S| && index.Valid() && it == index.Place(n)
    requires rids == Kept(desc, rows, preds, Targets(S[b..n]))
    ensures n == |S| ==> more == Err(RecordOffsetOutOfRange)
    ensures n < |S| ==> more == Ok(Kept(desc, rows, preds, Targets(S[b..n + 1])))
  {
    hide *;
    LinkedIs(table, index, desc, c, rows, S);
    var rid, record := ReadEntry(desc, table, index, it, rows, S, c, n);
    if record.Err? {
      return Err(record.error);
    }
    var keep := RecordSatisfies(desc, record.value, preds);
    SelectedIs(desc, rows, preds, rid);
    more := Result.Ok(if keep then rids + [rid] else rids);
    TargetsNext(S, b, n);
    KeptNext(desc, rows, preds, Targets(S[b..n]), rid);
  }

  method ScanIndex(desc: Descriptor, table: Table, index: BPlusIndex.Index, preds: seq<Predicate>,
                   begin: BPlusCursor.Position, end: BPlusCursor.Position,
                   ghost rows: RowMap, ghost S: seq<BPlusTree.Entry>, ghost c: nat, ghost b: nat, ghost t: nat)
    returns (g: Result<seq<Rid>, TableError>)
    requires ColumnsOk(desc, preds) && OperandsOk(preds)
    requires RowsOk(desc, rows) && Linked(table, index, desc, c, rows, S)
    requires index.Valid() && begin == index.Place(b) && end == index.Place(t) && b <= |S| && (b <= t || b == |S|)
    ensures g == ScanOf(desc, rows, preds, S, b, t)
  {
    hide *;
    LinkedIs(table, index, desc, c, rows, S);
    ScanIs(desc, rows, preds, S, b, t);
    StandsIs(index, begin, end, b, t, b);
    NoTargets(desc, rows, preds, S, b);
    g := Result.Ok([]);
    var it := begin;
    ghost var n := b;
    while it != end
      invariant Stands(index, it, end, b, t, n) && b <= n <= |S|
      invariant g == Ok(Kept(desc, rows, preds, Targets(S[b..n])))
      decreases |S| - n
    {
      AtEnd(index, it, end, b, t, n);
      StandsIs(index, it, end, b, t, n);
      g := ScanEntry(desc, table, index, preds, it, g.value, rows, S, c, b, n);
      if g.Err? {
        return;
      }
      it := index.NextIndexEntryOffset(it, n);
      n := n + 1;
      StandsIs(index, it, end, b, t, n);
    }
    AtEnd(index, it, end, b, t, n);
  }

  lemma ScanIs(desc: Descriptor, rows: RowMap, preds: seq<Predicate>, S: seq<BPlusTree.Entry>, b: nat, t: nat)
    requires ColumnsOk(desc, preds) && RowsOk(desc, rows) && b <= |S| && (b <= t || b == |S|)
    ensures b <= t ==> var e := if t < |S| then t else |S|;
                       b <= e && ScanOf(desc, rows, preds, S, b, t) == Ok(Kept(desc, rows, preds, Targets(S[b..e])))
    ensures b > t ==> ScanOf(desc, rows, preds, S, b, t) == Err(RecordOffsetOutOfRange)
  {
  }

  lemma StandsIs(index: BPlusIndex.Index, it: BPlusCursor.Position, end: BPlusCursor.Position, b: nat, t: nat, n: nat)
    requires index.Valid()
    ensures Stands(index, it, end, b, t, n) <==>
              && b <= n <= |index.Sequence()| && (if b <= t then n <= t else n == b == |index.Sequence()|)
              && it == index.Place(n) && end == index.Place(t)
  {
  }

  // ---------------------------------------------------------------- where a scan starts and stops

  ghost function StartOf(index: BPlusIndex.Index, lower: Option<int>, unique: bool): nat
    requires index.Valid()
    reads index, index.repr
  {
    if lower.None? then 0 else index.Seek(LowKey(lower.value, unique))
  }

  ghost function StopOf(index: BPlusIndex.Index, upper: Option<int>, unique: bool): nat
    requires index.Valid()
    reads index, index.repr
  {
    if upper.None? then |index.Sequence()| else index.Seek(HighKey(upper.value, unique)) + 1
  }

  predicate EmptyRange(b: Bounds) { b.lower.Some? && b.upper.Some? && b.lower.value > b.upper.value }

  /** The seek for the lower bound is right, or it is a lookup in a unique index, which always is. */
  ghost predicate StartRight(index: BPlusIndex.Index, b: Bounds, unique: bool)
    requires index.Valid()
    reads index, index.repr
  {
    b.lower.None? || (unique && b.lower == b.upper) || index.SeeksRight(LowKey(b.lower.value, unique))
  }

  lemma BoundKeys(v: int, w: int, r: Rid, unique: bool)
    requires KeyOrder.RealOffset(r)
    ensures LowKey(v, unique) <= HighKey(w, unique) <==> v <= w
    ensures LowKey(v, unique) <= KeyOf(w, r, unique) <==> v <= w
    ensures KeyOf(w, r, unique) <= HighKey(v, unique) <==> w <= v
    ensures unique ==> LowKey(v, true) == HighKey(v, true) == v == KeyOf(v, r, true)
  {
    KeyOrder.SentinelsBracket(v, w, r);
    KeyOrder.ValueKeyOrder(v, KeyOrder.LEAST, w, KeyOrder.GREATEST);
    KeyOrder.ValueKeyOrder(v, r, w, KeyOrder.GREATEST);
    KeyOrder.ValueKeyOrder(w, r, v, KeyOrder.GREATEST);
  }

  /** A scan between bounds always has a position to start from, or starts at the end by a missed
      seek; the latter only if the seek was wrong. */
  lemma ScanStarts(index: BPlusIndex.Index, b: Bounds, unique: bool)
    requires index.Valid() && !EmptyRange(b)
    ensures var s, t := StartOf(index, b.lower, unique), StopOf(index, b.upper, unique);
            && s <= |index.Sequence()| && (s <= t || s == |index.Sequence()|)
            && (StartRight(index, b, unique) ==> s <= t)
  {
    index.SeekFacts(if b.lower.Some? then LowKey(b.lower.value, unique) else 0);
    index.SeekFacts(if b.upper.Some? then HighKey(b.upper.value, unique) else 0);
    if b.lower.Some? && b.upper.Some? {
      BoundKeys(b.lower.value, b.upper.value, Rid(1, 0), unique);
    }
  }

  // The entry of record r.
  lemma EntryOf(index: BPlusIndex.Index, desc: Descriptor, rows: RowMap, c: nat, r: Rid) returns (n: nat)
    requires index.Valid() && c < |desc| && RowsOk(desc, rows) && Agrees(index.Contents(), desc, rows, c)
    requires r in rows && FitsRow(desc, rows[r]) && !IsNull(desc, rows[r], c)
    ensures n < |index.Sequence()| && RidOf(index.Sequence()[n].rid) == r
    ensures index.Sequence()[n].key == KeyOf(rows[r].values[c], r, desc[c].unique)
    ensures index.Sequence()[n].key in index.Contents()
  {
    var k := KeyOf(rows[r].values[c], r, desc[c].unique);
    assert Pointed(index.Contents(), desc, rows, c, r);
    index.SeekFacts(k);
    n := BPlusTree.MapSource(index.Sequence(), k);
  }

  lemma StartsBefore(index: BPlusIndex.Index, k: int, n: nat)
    requires index.Valid() && n < |index.Sequence()| && k <= index.Sequence()[n].key
    requires index.SeeksRight(k) || k in index.Contents()
    ensures index.Seek(k) <= n
  {
    index.SeekFacts(k);
  }

  lemma StopsBehind(index: BPlusIndex.Index, k: int, n: nat)
    requires index.Valid() && n < |index.Sequence()| && index.Sequence()[n].key <= k
    ensures n <= index.Seek(k)
  {
    index.SeekFacts(k);
  }

  /** A right start loses nothing: every record with a value between the bounds is scanned. */
  lemma ScanReaches(index: BPlusIndex.Index, desc: Descriptor, rows: RowMap, c: nat, b: Bounds, r: Rid) returns (n: nat)
    requires index.Valid() && c < |desc| && RowsOk(desc, rows) && Agrees(index.Contents(), desc, rows, c)
    requires r in rows && FitsRow(desc, rows[r]) && !IsNull(desc, rows[r], c) && Within(rows[r].values[c], b)
    requires StartRight(index, b, desc[c].unique)
    ensures StartOf(index, b.lower, desc[c].unique) <= n < StopOf(index, b.upper, desc[c].unique)
    ensures n < |index.Sequence()| && RidOf(index.Sequence()[n].rid) == r
  {
    var u, v := desc[c].unique, rows[r].values[c];
    n := EntryOf(index, desc, rows, c, r);
    hide Agrees;
    if b.lower.Some? {
      BoundKeys(b.lower.value, v, r, u);
      StartsBefore(index, LowKey(b.lower.value, u), n);
    }
    if b.upper.Some? {
      BoundKeys(b.upper.value, v, r, u);
      StopsBehind(index, HighKey(b.upper.value, u), n);
    }
  }

  // ---------------------------------------------------------------- plans

  predicate IndexPlan(preds: seq<Predicate>) {
    preds != [] && (preds[0].plan == IndexSearch || preds[0].plan == PartialIndexScan)
  }

  /** An equality scans the entries of its value, a range predicate those between the bounds. */
  function ScanBounds(preds: seq<Predicate>): Bounds
    requires IndexPlan(preds) && OperandsOk(preds)
  {
    if preds[0].plan == IndexSearch then Bounds(preds[0].operand, preds[0].operand) else MergedBounds(preds)
  }

  ghost function BetweenBounds(desc: Descriptor, rows: RowMap, preds: seq<Predicate>, index: BPlusIndex.Index,
                               c: nat): Result<seq<Rid>, TableError>
    requires ColumnsOk(desc, preds) && RowsOk(desc, rows) && IndexPlan(preds) && OperandsOk(preds) && index.Valid()
    requires c < |desc|
    reads index, index.repr
  {
    var b := ScanBounds(preds);
    if EmptyRange(b) then Ok([])
    else
      ScanStarts(index, b, desc[c].unique);
      ScanOf(desc, rows, preds, index.Sequence(), StartOf(index, b.lower, desc[c].unique),
          StopOf(index, b.upper, desc[c].unique))
  }

  /** Only selected records are reported, each once. */
  ghost predicate Sound(desc: Descriptor, rows: RowMap, preds: seq<Predicate>, g: Result<seq<Rid>, TableError>)
    requires ColumnsOk(desc, preds) && RowsOk(desc, rows)
  {
    g.Ok? ==> NoneTwice(g.value) && forall r :: r in g.value ==> Selected(desc, rows, preds, r)
  }

  /** All selected records are reported. */
  ghost predicate Complete(desc: Descriptor, rows: RowMap, preds: seq<Predicate>, g: Result<seq<Rid>, TableError>)
    requires ColumnsOk(desc, preds) && RowsOk(desc, rows)
  {
    g.Ok? && forall r :: Selected(desc, rows, preds, r) ==> r in g.value
  }

  // Entries in order that point to records by the records' own keys.
  ghost predicate Pointing(desc: Descriptor, rows: RowMap, c: nat, S: seq<BPlusTree.Entry>) {
    && c < |desc| && BPlusTree.EntriesSorted(S)
    && forall n :: 0 <= n < |S| ==>
         var r := RidOf(S[n].rid);
         r in rows && FitsRow(desc, rows[r]) && S[n].key == KeyOf(rows[r].values[c], r, desc[c].unique)
  }

  lemma AgreesPoints(index: BPlusIndex.Index, desc: Descriptor, rows: RowMap, c: nat)
    requires index.Valid() && c < |desc| && RowsOk(desc, rows) && Agrees(index.Contents(), desc, rows, c)
    ensures Pointing(desc, rows, c, index.Sequence())
  {
    hide Agrees;
    index.SeekFacts(0);
    forall n | 0 <= n < |index.Sequence()|
      ensures var r := RidOf(index.Sequence()[n].rid);
              r in rows && FitsRow(desc, rows[r]) &&
                  index.Sequence()[n].key == KeyOf(rows[r].values[c], r, desc[c].unique)
    {
      EntryPoints(index, desc, rows, c, n);
    }
  }

  lemma TargetsDiffer(desc: Descriptor, rows: RowMap, c: nat, S: seq<BPlusTree.Entry>, s: nat, e: nat)
    requires Pointing(desc, rows, c, S) && s <= e <= |S|
    ensures NoneTwice(Targets(S[s..e]))
  {
    var T := Targets(S[s..e]);
    forall i, j | 0 <= i < j < |T| ensures T[i] != T[j] {
      assert T[i] == RidOf(S[s + i].rid) && T[j] == RidOf(S[s + j].rid);
      assert S[s + i].key < S[s + j].key;
    }
  }

  lemma ScanSound(desc: Descriptor, rows: RowMap, c: nat, preds: seq<Predicate>, S: seq<BPlusTree.Entry>, b: nat,
                  t: nat)
    requires ColumnsOk(desc, preds) && RowsOk(desc, rows) && Pointing(desc, rows, c, S) && b <= |S|
    ensures Sound(desc, rows, preds, ScanOf(desc, rows, preds, S, b, t))
  {
    var e := if t < |S| then t else |S|;
    if b <= e {
      TargetsDiffer(desc, rows, c, S, b, e);
      hide Pointing, RowsOk, Selected;
      KeptExact(desc, rows, preds, Targets(S[b..e]));
    }
  }

  /** An index scan reports only records that satisfy all predicates, each once, in every reachable
      state of the index. */
  lemma BetweenSound(index: BPlusIndex.Index, desc: Descriptor, rows: RowMap, c: nat, preds: seq<Predicate>)
    requires index.Valid() && c < |desc| && RowsOk(desc, rows) && Agrees(index.Contents(), desc, rows, c)
    requires ColumnsOk(desc, preds) && IndexPlan(preds) && OperandsOk(preds)
    ensures Sound(desc, rows, preds, BetweenBounds(desc, rows, preds, index, c))
  {
    hide Agrees, Pointing, RowsOk, Selected, ScanOf, ScanBounds;
    AgreesPoints(index, desc, rows, c);
    var b, u := ScanBounds(preds), desc[c].unique;
    if !EmptyRange(b) {
      ScanStarts(index, b, u);
      ScanSound(desc, rows, c, preds, index.Sequence(), StartOf(index, b.lower, u), StopOf(index, b.upper, u));
    }
  }

  /** The plan is safe: its bounds admit every record that satisfies the predicates, and its seek
      is right. */
  ghost predicate PlanSafe(desc: Descriptor, preds: seq<Predicate>, index: BPlusIndex.Index, c: nat)
    requires ColumnsOk(desc, preds) && IndexPlan(preds) && OperandsOk(preds) && index.Valid() && c < |desc|
    reads index, index.repr
  {
    && (preds[0].plan == PartialIndexScan ==> AdmitsAll(desc, preds, c))
    && (EmptyRange(ScanBounds(preds)) || StartRight(index, ScanBounds(preds), desc[c].unique))
  }

  /** No range predicate gives a lower bound. */
  predicate NoLowerBound(preds: seq<Predicate>) {
    forall i :: 0 <= i < |preds| ==> !LowerOp(preds[i].op)
  }

  lemma {:induction false} NoLower(preds: seq<Predicate>)
    requires OperandsOk(preds) && NoLowerBound(preds)
    ensures MergedBounds(preds).lower.None?
  {
    if preds != [] { NoLower(preds[..|preds| - 1]); }
  }

  /** What makes a plan safe: with range predicates on the driving column only, that all seeks in the index are right,
      or that it looks up a value of a unique index, or scans from the first entry. */
  ghost predicate Sure(desc: Descriptor, preds: seq<Predicate>, index: BPlusIndex.Index)
    requires ColumnsOk(desc, preds) && IndexPlan(preds) && index.Valid()
    reads index, index.repr
  {
    && (preds[0].plan == PartialIndexScan ==> OneRangeColumn(preds))
    && (|| index.AllSeeksRight()
        || (preds[0].plan == IndexSearch && desc[preds[0].column].unique)
        || (preds[0].plan == PartialIndexScan && NoLowerBound(preds)))
  }

  lemma SafePlans(desc: Descriptor, preds: seq<Predicate>, index: BPlusIndex.Index, c: nat)
    requires ColumnsOk(desc, preds) && IndexPlan(preds) && OperandsOk(preds) && index.Valid() && c == preds[0].column
    requires Sure(desc, preds, index)
    ensures PlanSafe(desc, preds, index, c)
  {
    hide AdmitsAll, MergedBounds;
    if preds[0].plan == PartialIndexScan {
      OneRangeAdmits(desc, preds);
      if NoLowerBound(preds) { NoLower(preds); }
    }
  }

  /** An index scan by a safe plan reports every record that satisfies all predicates. */
  lemma BetweenComplete(index: BPlusIndex.Index, desc: Descriptor, rows: RowMap, c: nat, preds: seq<Predicate>,
                        count: nat)
    requires index.Valid() && c < |desc| && RowsOk(desc, rows) && Agrees(index.Contents(), desc, rows, c)
    requires Prepared(desc, count, preds) && IndexPlan(preds) && OperandsOk(preds) && c == preds[0].column
    requires PlanSafe(desc, preds, index, c)
    ensures Complete(desc, rows, preds, BetweenBounds(desc, rows, preds, index, c))
  {
    BetweenRuns(index, desc, rows, c, preds);
    forall r | Selected(desc, rows, preds, r) ensures r in BetweenBounds(desc, rows, preds, index, c).value {
      hide Agrees, AdmitsAll, RowsOk, Selected, BetweenBounds, StartRight, ScanBounds, Prepared;
      SelectedWithin(desc, rows, preds, c, count, r);
      SelectedReached(index, desc, rows, c, preds, r);
    }
  }

  lemma BetweenRuns(index: BPlusIndex.Index, desc: Descriptor, rows: RowMap, c: nat, preds: seq<Predicate>)
    requires index.Valid() && c < |desc| && RowsOk(desc, rows)
    requires ColumnsOk(desc, preds) && IndexPlan(preds) && OperandsOk(preds)
    requires EmptyRange(ScanBounds(preds)) || StartRight(index, ScanBounds(preds), desc[c].unique)
    ensures BetweenBounds(desc, rows, preds, index, c).Ok?
  {
    hide RowsOk, ScanBounds, StartRight, StartOf, StopOf, Kept;
    if !EmptyRange(ScanBounds(preds)) {
      ScanStarts(index, ScanBounds(preds), desc[c].unique);
    }
  }

  lemma SelectedWithin(desc: Descriptor, rows: RowMap, preds: seq<Predicate>, c: nat, count: nat, r: Rid)
    requires Prepared(desc, count, preds) && RowsOk(desc, rows) && IndexPlan(preds) && OperandsOk(preds)
    requires c == preds[0].column
    requires preds[0].plan == PartialIndexScan ==> AdmitsAll(desc, preds, c)
    requires Selected(desc, rows, preds, r)
    ensures FitsRow(desc, rows[r]) && !IsNull(desc, rows[r], c) && Within(rows[r].values[c], ScanBounds(preds))
  {
    assert Satisfies(desc, rows[r], preds[0]);
  }

  lemma SelectedReached(index: BPlusIndex.Index, desc: Descriptor, rows: RowMap, c: nat, preds: seq<Predicate>, r: Rid)
    requires index.Valid() && c < |desc| && RowsOk(desc, rows) && Agrees(index.Contents(), desc, rows, c)
    requires ColumnsOk(desc, preds) && IndexPlan(preds) && OperandsOk(preds)
    requires EmptyRange(ScanBounds(preds)) || StartRight(index, ScanBounds(preds), desc[c].unique)
    requires Selected(desc, rows, preds, r) && FitsRow(desc, rows[r]) && !IsNull(desc, rows[r], c)
    requires Within(rows[r].values[c], ScanBounds(preds))
    ensures var g := BetweenBounds(desc, rows, preds, index, c);
            g.Ok? && r in g.value
  {
    hide Agrees, SatisfiesAll, RowsOk, ScanBounds, StartRight, StartOf, StopOf, ScanOf;
    var b, u := ScanBounds(preds), desc[c].unique;
    var n := ScanReaches(index, desc, rows, c, b, r);
    ScanStarts(index, b, u);
    ScanKeeps(desc, rows, preds, index.Sequence(), StartOf(index, b.lower, u), StopOf(index, b.upper, u), n);
  }

  lemma ScanKeeps(desc: Descriptor, rows: RowMap, preds: seq<Predicate>, S: seq<BPlusTree.Entry>, b: nat, t: nat,
                  n: nat)
    requires ColumnsOk(desc, preds) && RowsOk(desc, rows) && b <= n < t && n < |S|
    requires Selected(desc, rows, preds, RidOf(S[n].rid))
    ensures var g := ScanOf(desc, rows, preds, S, b, t);
            g.Ok? && RidOf(S[n].rid) in g.value
  {
    hide RowsOk, Selected;
    var e := if t < |S| then t else |S|;
    assert Targets(S[b..e])[n - b] == RidOf(S[n].rid);
    KeptExact(desc, rows, preds, Targets(S[b..e]));
  }

  // ---------------------------------------------------------------- what an index scan misses

  /** Every separator at or above k that has entries above it has one from k up to itself: the seek for k is right. */
  ghost predicate Bridges(index: BPlusIndex.Index, k: int)
    requires index.Valid()
    reads index, index.repr
  {
    forall s :: index.Bridged(k, s)
  }

  /** The seek for the lower bound, if there is one, is right. */
  ghost predicate SeekRight(index: BPlusIndex.Index, b: Bounds, unique: bool)
    requires index.Valid()
    reads index, index.repr
  {
    b.lower.Some? ==> Bridges(index, LowKey(b.lower.value, unique))
  }

  /** The scan reaches key k when it should stop behind `high`: up to there, the first entry behind it, or everything
      when the seek for the stop is wrong. */
  ghost predicate AtStop(index: BPlusIndex.Index, high: int, k: int)
    requires index.Valid()
    reads index, index.repr
  {
    k <= high || !Bridges(index, high) || forall m :: m in index.Contents() && high <= m ==> k <= m
  }

  /** A scan with this upper bound has no entry to stop at: the seek for the stop is wrong, or it finds the last entry
      or none. */
  ghost predicate NoStop(index: BPlusIndex.Index, upper: Option<int>, unique: bool)
    requires index.Valid()
    reads index, index.repr
  {
    upper.Some? ==>
      var high := HighKey(upper.value, unique);
      !Bridges(index, high) ||
      forall m, l :: m in index.Contents() && l in index.Contents() && high <= m && high <= l ==> m == l
  }

  // Where a seek ends.
  lemma SeekEnds(index: BPlusIndex.Index, k: int)
    requires index.Valid()
    ensures var S, e := index.Sequence(), index.Seek(k);
            && e <= |S| && BPlusTree.EntriesSorted(S) && index.Contents() == BPlusTree.EntryMap(S)
            && (Bridges(index, k) <==> index.SeeksRight(k))
            && (Bridges(index, k) ==> forall n :: 0 <= n < |S| ==> (S[n].key < k <==> n < e))
            && (!Bridges(index, k) ==> e == |S|)
  {
    hide *;
    index.SeekFacts(k);
    index.SeeksRightIff(k);
    BridgesIs(index, k);
    if index.SeeksRight(k) { RightSeekEnds(index, k); }
  }

  lemma BridgesIs(index: BPlusIndex.Index, k: int)
    requires index.Valid()
    ensures Bridges(index, k) <==> forall s :: index.Bridged(k, s)
  {
  }

  lemma RightSeekEnds(index: BPlusIndex.Index, k: int)
    requires index.Valid() && index.SeeksRight(k)
    ensures forall n :: 0 <= n < |index.Sequence()| ==> (index.Sequence()[n].key < k <==> n < index.Seek(k))
  {
    hide *;
    index.SeekFacts(k);
    SeekBelow(index, k);
    CutAt(index.Sequence(), index.Seek(k), k);
  }

  lemma SeekBelow(index: BPlusIndex.Index, k: int)
    requires index.Valid() && index.SeeksRight(k)
    ensures forall e :: 0 <= e < index.Seek(k) && e < |index.Sequence()| ==> index.Sequence()[e].key < k
  {
    hide BPlusIndex.Index.Valid, BPlusIndex.Index.Seek, BPlusIndex.Index.Sequence;
  }

  lemma CutAt(S: seq<BPlusTree.Entry>, e: nat, k: int)
    requires BPlusTree.EntriesSorted(S) && (forall i :: 0 <= i < e && i < |S| ==> S[i].key < k)
    requires e < |S| ==> k <= S[e].key
    ensures forall n :: 0 <= n < |S| ==> (S[n].key < k <==> n < e)
  {
  }

  // At most one key at or above `high` is left from position e on.
  lemma LastIff(S: seq<BPlusTree.Entry>, high: int, e: nat)
    requires BPlusTree.EntriesSorted(S) && forall n :: 0 <= n < |S| ==> (S[n].key < high <==> n < e)
    ensures e + 1 >= |S| <==>
              forall m, l :: m in BPlusTree.EntryMap(S) && l in BPlusTree.EntryMap(S) && high <= m && high <= l ==>
                  m == l
  {
    hide BPlusTree.EntryMap;
    if e + 1 < |S| {
      BPlusTree.MapLookup(S, e);
      BPlusTree.MapLookup(S, e + 1);
      assert S[e].key != S[e + 1].key;
    } else {
      forall m, l | m in BPlusTree.EntryMap(S) && l in BPlusTree.EntryMap(S) && high <= m && high <= l ensures m == l {
        var i := BPlusTree.MapSource(S, m);
        var j := BPlusTree.MapSource(S, l);
        assert S[i].key == m && S[j].key == l;
      }
    }
  }

  lemma StopEnd(index: BPlusIndex.Index, upper: Option<int>, unique: bool)
    requires index.Valid()
    ensures StopOf(index, upper, unique) >= |index.Sequence()| <==> NoStop(index, upper, unique)
  {
    hide *;
    NoStopIs(index, upper, unique);
    if upper.Some? {
      var high := HighKey(upper.value, unique);
      SeekEnds(index, high);
      if Bridges(index, high) { LastIff(index.Sequence(), high, index.Seek(high)); }
    }
  }

  lemma NoStopIs(index: BPlusIndex.Index, upper: Option<int>, unique: bool)
    requires index.Valid()
    ensures StopOf(index, upper, unique) ==
        if upper.None? then |index.Sequence()| else index.Seek(HighKey(upper.value, unique)) + 1
    ensures NoStop(index, upper, unique) <==>
              upper.None? || !Bridges(index, HighKey(upper.value, unique)) ||
              var high := HighKey(upper.value, unique);
              forall m, l :: m in index.Contents() && l in index.Contents() && high <= m && high <= l ==> m == l
  {
  }

  /** Record r lies between the bounds, or just behind the upper one. */
  ghost predicate InReach(index: BPlusIndex.Index, desc: Descriptor, rows: RowMap, c: nat, b: Bounds, r: Rid)
    requires index.Valid() && c < |desc| && r in rows && FitsRow(desc, rows[r])
    reads index, index.repr
  {
    var u, v := desc[c].unique, rows[r].values[c];
    && (b.lower.Some? ==> b.lower.value <= v)
    && (b.upper.Some? ==> AtStop(index, HighKey(b.upper.value, u), KeyOf(v, r, u)))
  }

  lemma StartIff(index: BPlusIndex.Index, lower: Option<int>, unique: bool, n: nat)
    requires index.Valid() && n < |index.Sequence()| && SeekRight(index, Bounds(lower, None), unique)
    ensures StartOf(index, lower, unique) <= n <==>
              lower.Some? ==> LowKey(lower.value, unique) <= index.Sequence()[n].key
  {
    if lower.Some? { SeekEnds(index, LowKey(lower.value, unique)); }
  }

  lemma StopIff(index: BPlusIndex.Index, upper: Option<int>, unique: bool, n: nat)
    requires index.Valid() && n < |index.Sequence()|
    ensures n < StopOf(index, upper, unique) <==>
              upper.Some? ==> AtStop(index, HighKey(upper.value, unique), index.Sequence()[n].key)
  {
    hide *;
    NoStopIs(index, upper, unique);
    if upper.Some? {
      var high := HighKey(upper.value, unique);
      SeekEnds(index, high);
      AtStopIs(index, high, index.Sequence()[n].key);
      if Bridges(index, high) { FirstIff(index.Sequence(), high, index.Seek(high), n); }
    }
  }

  // Positions up to e are those of the keys below `high` and of the least key from there on.
  lemma FirstIff(S: seq<BPlusTree.Entry>, high: int, e: nat, n: nat)
    requires BPlusTree.EntriesSorted(S) && n < |S| && forall i :: 0 <= i < |S| ==> (S[i].key < high <==> i < e)
    ensures n <= e <==> S[n].key <= high || forall m :: m in BPlusTree.EntryMap(S) && high <= m ==> S[n].key <= m
  {
    hide BPlusTree.EntryMap;
    if n <= e {
      forall m | m in BPlusTree.EntryMap(S) && high <= m ensures S[n].key <= m {
        var i := BPlusTree.MapSource(S, m);
      }
    } else {
      BPlusTree.MapLookup(S, e);
    }
  }

  lemma AtStopIs(index: BPlusIndex.Index, high: int, k: int)
    requires index.Valid()
    ensures AtStop(index, high, k) <==>
              k <= high || !Bridges(index, high) || forall m :: m in index.Contents() && high <= m ==> k <= m
  {
  }

  /** Where the entry of a record stands decides whether the scan reaches it. */
  lemma ReachIff(index: BPlusIndex.Index, desc: Descriptor, rows: RowMap, c: nat, b: Bounds, r: Rid, n: nat)
    requires index.Valid() && c < |desc| && RowsOk(desc, rows)
    requires r in rows && FitsRow(desc, rows[r]) && SeekRight(index, b, desc[c].unique)
    requires n < |index.Sequence()| && index.Sequence()[n].key == KeyOf(rows[r].values[c], r, desc[c].unique)
    ensures StartOf(index, b.lower, desc[c].unique) <= n < StopOf(index, b.upper, desc[c].unique) <==>
              InReach(index, desc, rows, c, b, r)
  {
    hide StartOf, StopOf, AtStop;
    StartIff(index, b.lower, desc[c].unique, n);
    StopIff(index, b.upper, desc[c].unique, n);
    if b.lower.Some? { BoundKeys(b.lower.value, rows[r].values[c], r, desc[c].unique); }
  }

  // A scan keeps a selected record iff it reaches its entry.
  lemma KeptIff(desc: Descriptor, rows: RowMap, c: nat, preds: seq<Predicate>, S: seq<BPlusTree.Entry>, b: nat,
                t: nat, n: nat)
    requires ColumnsOk(desc, preds) && RowsOk(desc, rows) && Pointing(desc, rows, c, S) && b <= |S| && n < |S|
    requires Selected(desc, rows, preds, RidOf(S[n].rid)) && ScanOf(desc, rows, preds, S, b, t).Ok?
    ensures RidOf(S[n].rid) in ScanOf(desc, rows, preds, S, b, t).value <==> b <= n < t
  {
    hide RowsOk, Selected;
    var e := if t < |S| then t else |S|;
    KeptExact(desc, rows, preds, Targets(S[b..e]));
    TargetIff(desc, rows, c, S, b, e, n);
  }

  lemma TargetIff(desc: Descriptor, rows: RowMap, c: nat, S: seq<BPlusTree.Entry>, b: nat, e: nat, n: nat)
    requires Pointing(desc, rows, c, S) && b <= e <= |S| && n < |S|
    ensures RidOf(S[n].rid) in Targets(S[b..e]) <==> b <= n < e
  {
    var T := Targets(S[b..e]);
    assert b <= n < e ==> T[n - b] == RidOf(S[n].rid);
    if RidOf(S[n].rid) in T {
      var x :| 0 <= x < e - b && T[x] == RidOf(S[n].rid);
      SameEntry(desc, rows, c, S, n, b + x);
    }
  }

  lemma SameEntry(desc: Descriptor, rows: RowMap, c: nat, S: seq<BPlusTree.Entry>, n: nat, m: nat)
    requires Pointing(desc, rows, c, S) && n < |S| && m < |S| && RidOf(S[n].rid) == RidOf(S[m].rid)
    ensures n == m
  {
    assert S[n].key == S[m].key;
  }

  // A selected record is not null in the driving column, and so has an entry.
  lemma SelectedEntry(index: BPlusIndex.Index, desc: Descriptor, rows: RowMap, c: nat, preds: seq<Predicate>,
                      count: nat, r: Rid)
    returns (n: nat)
    requires index.Valid() && c < |desc| && RowsOk(desc, rows) && Agrees(index.Contents(), desc, rows, c)
    requires Prepared(desc, count, preds) && IndexPlan(preds) && c == preds[0].column && Selected(desc, rows, preds, r)
    ensures r in rows && FitsRow(desc, rows[r]) && n < |index.Sequence()| && RidOf(index.Sequence()[n].rid) == r
    ensures index.Sequence()[n].key == KeyOf(rows[r].values[c], r, desc[c].unique)
  {
    NotNullSelected(desc, rows, c, preds, count, r);
    n := EntryOf(index, desc, rows, c, r);
  }

  lemma NotNullSelected(desc: Descriptor, rows: RowMap, c: nat, preds: seq<Predicate>, count: nat, r: Rid)
    requires c < |desc| && RowsOk(desc, rows)
    requires Prepared(desc, count, preds) && IndexPlan(preds) && c == preds[0].column && Selected(desc, rows, preds, r)
    ensures r in rows && FitsRow(desc, rows[r]) && !IsNull(desc, rows[r], c)
  {
    assert Satisfies(desc, rows[r], preds[0]);
  }

  /** With a right seek for the lower bound, an index scan misses exactly the selected records out of its reach. */
  lemma ScanMisses(index: BPlusIndex.Index, desc: Descriptor, rows: RowMap, c: nat, preds: seq<Predicate>, count: nat,
                   r: Rid)
    requires index.Valid() && c < |desc| && RowsOk(desc, rows) && Agrees(index.Contents(), desc, rows, c)
    requires Prepared(desc, count, preds) && IndexPlan(preds) && OperandsOk(preds) && c == preds[0].column
    requires !EmptyRange(ScanBounds(preds)) && SeekRight(index, ScanBounds(preds), desc[c].unique)
    requires Selected(desc, rows, preds, r)
    ensures r in rows && FitsRow(desc, rows[r])
    ensures var g := BetweenBounds(desc, rows, preds, index, c);
            g.Ok? && (r in g.value <==> InReach(index, desc, rows, c, ScanBounds(preds), r))
  {
    hide *;
    var b, u := ScanBounds(preds), desc[c].unique;
    var n := SelectedEntry(index, desc, rows, c, preds, count, r);
    PreparedColumns(desc, count, preds);
    SeekStarts(index, b, u);
    ScanStarts(index, b, u);
    BetweenIs(desc, rows, preds, index, c);
    ScanBoundsAre(preds);
    AgreesPoints(index, desc, rows, c);
    ReachIff(index, desc, rows, c, b, r, n);
    ScanIs(desc, rows, preds, index.Sequence(), StartOf(index, b.lower, u), StopOf(index, b.upper, u));
    KeptIff(desc, rows, c, preds, index.Sequence(), StartOf(index, b.lower, u), StopOf(index, b.upper, u), n);
  }

  lemma SeekStarts(index: BPlusIndex.Index, b: Bounds, unique: bool)
    requires index.Valid() && SeekRight(index, b, unique)
    ensures StartRight(index, b, unique)
  {
    if b.lower.Some? { index.SeeksRightIff(LowKey(b.lower.value, unique)); }
  }

  lemma ScanBoundsAre(preds: seq<Predicate>)
    requires IndexPlan(preds) && OperandsOk(preds)
    ensures ScanBounds(preds) == if preds[0].plan == IndexSearch then Bounds(preds[0].operand, preds[0].operand)
        else MergedBounds(preds)
  {
  }

  /** After a wrong seek for the lower bound an index scan reports nothing, and fails if it should stop at an entry. */
  lemma ScanLost(index: BPlusIndex.Index, desc: Descriptor, rows: RowMap, c: nat, preds: seq<Predicate>)
    requires index.Valid() && c < |desc| && RowsOk(desc, rows) && ColumnsOk(desc, preds) && IndexPlan(preds)
    requires OperandsOk(preds)
    requires !EmptyRange(ScanBounds(preds)) && !SeekRight(index, ScanBounds(preds), desc[c].unique)
    ensures var g := BetweenBounds(desc, rows, preds, index, c);
            if NoStop(index, ScanBounds(preds).upper, desc[c].unique) then g == Ok([]) else g.Err?
  {
    hide RowsOk, StopOf, ScanBounds, NoStop;
    var b, u := ScanBounds(preds), desc[c].unique;
    SeekEnds(index, LowKey(b.lower.value, u));
    StopEnd(index, b.upper, u);
    ScanStarts(index, b, u);
    NoTargets(desc, rows, preds, index.Sequence(), |index.Sequence()|);
  }

  /** Exactly when an index scan reports every record that satisfies the predicates: with an empty range or a wrong
      seek, if there is none to report and no real entry to stop at; else if every one of them is in reach, that is
      not below the lower bound and not behind the first entry above the upper bound. */
  lemma BetweenCompleteIff(index: BPlusIndex.Index, desc: Descriptor, rows: RowMap, c: nat, preds: seq<Predicate>,
                           count: nat)
    requires index.Valid() && c < |desc| && RowsOk(desc, rows) && Agrees(index.Contents(), desc, rows, c)
    requires Prepared(desc, count, preds) && IndexPlan(preds) && OperandsOk(preds) && c == preds[0].column
    ensures Complete(desc, rows, preds, BetweenBounds(desc, rows, preds, index, c)) <==>
            var b := ScanBounds(preds);
            if EmptyRange(b) then forall r :: !Selected(desc, rows, preds, r)
            else if !SeekRight(index, b, desc[c].unique) then
              NoStop(index, b.upper, desc[c].unique) &&
              forall r :: !Selected(desc, rows, preds, r)
            else
              forall r :: Selected(desc, rows, preds, r) ==>
                  r in rows && FitsRow(desc, rows[r]) && InReach(index, desc, rows, c, b, r)
  {
    var b := ScanBounds(preds);
    hide *;
    SoundIs(desc, rows, preds, BetweenBounds(desc, rows, preds, index, c));
    BetweenIs(desc, rows, preds, index, c);
    ScanBoundsAre(preds);
    if !EmptyRange(b) {
      if SeekRight(index, b, desc[c].unique) {
        SeekStarts(index, b, desc[c].unique);
        BetweenRuns(index, desc, rows, c, preds);
        forall r | Selected(desc, rows, preds, r)
          ensures r in rows && FitsRow(desc, rows[r])
          ensures r in BetweenBounds(desc, rows, preds, index, c).value <==> InReach(index, desc, rows, c, b, r)
        {
          ScanMisses(index, desc, rows, c, preds, count, r);
        }
      } else {
        ScanLost(index, desc, rows, c, preds);
      }
    }
  }

  /** A record below the lower bound is never reported. */
  lemma BelowLost(index: BPlusIndex.Index, desc: Descriptor, rows: RowMap, c: nat, preds: seq<Predicate>, count: nat,
                  r: Rid)
    requires index.Valid() && c < |desc| && RowsOk(desc, rows) && Agrees(index.Contents(), desc, rows, c)
    requires Prepared(desc, count, preds) && IndexPlan(preds) && OperandsOk(preds) && c == preds[0].column
    requires r in rows && FitsRow(desc, rows[r]) && Selected(desc, rows, preds, r)
    requires ScanBounds(preds).lower.Some? && rows[r].values[c] < ScanBounds(preds).lower.value
    ensures var g := BetweenBounds(desc, rows, preds, index, c); g.Ok? ==> r !in g.value
  {
    var b := ScanBounds(preds);
    if !EmptyRange(b) {
      if SeekRight(index, b, desc[c].unique) {
        hide Agrees, RowsOk, Selected, Prepared, AtStop, SeekRight, BetweenBounds, ScanBounds;
        ScanMisses(index, desc, rows, c, preds, count, r);
      } else {
        hide Agrees, RowsOk, Selected, Prepared, SeekRight, BetweenBounds, ScanBounds;
        ScanLost(index, desc, rows, c, preds);
      }
    }
  }

  // Two columns, the first indexed, and a range predicate on each.
  function TwoColumns(unique: bool): Descriptor {
    [Field(4, false, unique, false, None, true), Field(4, false, false, false, None, false)]
  }

  function TwoRanges(unique: bool): seq<Predicate> {
    [Planned(TwoColumns(unique), 20, 0, Greater, Some(1)), Planned(TwoColumns(unique), 20, 1, Greater, Some(100))]
  }

  lemma TwoRangesAre(unique: bool, rows: RowMap, r: Rid, refs: nat)
    requires RowsOk(TwoColumns(unique), rows) && r in rows && rows[r] == Row([false, false], [5, 200], refs)
    ensures var preds := TwoRanges(unique);
            && Prepared(TwoColumns(unique), 20, preds) && ColumnsOk(TwoColumns(unique), preds) && OperandsOk(preds)
            && IndexPlan(preds) && preds[0].column == 0 && ScanBounds(preds) == Bounds(Some(100), None)
            && Selected(TwoColumns(unique), rows, preds, r)
  {
    var desc := TwoColumns(unique);
    var p, q := Planned(desc, 20, 0, Greater, Some(1)), Planned(desc, 20, 1, Greater, Some(100));
    assert p.cost == 200 && q.cost == 240;
    MergedOfTwo(p, q);
  }

  /** With range predicates on another column too, the scan can lose a record that satisfies all of them: here 5 > 1
      on the indexed column and 200 > 100 on the other, and with 20 records the range plan is the cheaper one, but its
      scan starts at 100. */
  lemma MergedBoundsCutOff(index: BPlusIndex.Index, unique: bool, rows: RowMap, r: Rid, refs: nat)
    requires index.Valid() && RowsOk(TwoColumns(unique), rows) && Agrees(index.Contents(), TwoColumns(unique), rows, 0)
    requires r in rows && rows[r] == Row([false, false], [5, 200], refs)
    ensures var desc, preds := TwoColumns(unique), TwoRanges(unique);
            && Prepared(desc, 20, preds) && ColumnsOk(desc, preds) && OperandsOk(preds) && IndexPlan(preds)
            && Selected(desc, rows, preds, r)
            && var g := BetweenBounds(desc, rows, preds, index, 0); g.Ok? ==> r !in g.value
  {
    TwoRangesAre(unique, rows, r, refs);
    hide Agrees, RowsOk, BetweenBounds, TwoRanges, Selected, ScanBounds, Prepared, OperandsOk;
    BelowLost(index, TwoColumns(unique), rows, 0, TwoRanges(unique), 20, r);
  }

  lemma MergedOfTwo(p: Predicate, q: Predicate)
    requires p.op == Greater && q.op == Greater && p.operand == Some(1) && q.operand == Some(100)
    ensures OperandsOk([p, q]) && MergedBounds([p, q]) == Bounds(Some(100), None)
  {
    assert [p, q][..1] == [p] && [p][..0] == [];
    assert MergedBounds([]) == Bounds(None, None);
    assert MergedBounds([p]) == Bounds(Some(1), None);
  }

  /** For a lone `column >= v` the scan is complete exactly when every separator at or above the key of v that has
      entries above it has one from that key up to itself too. */
  lemma LowerScanIff(index: BPlusIndex.Index, desc: Descriptor, rows: RowMap, c: nat, p: Predicate, count: nat)
    requires index.Valid() && c < |desc| && RowsOk(desc, rows) && Agrees(index.Contents(), desc, rows, c)
    requires p == Planned(desc, count, c, GreaterEqual, p.operand) && p.operand.Some? && desc[c].indexed
    ensures Complete(desc, rows, [p], BetweenBounds(desc, rows, [p], index, c)) <==>
              forall s :: index.Bridged(LowKey(p.operand.value, desc[c].unique), s)
  {
    var u, v := desc[c].unique, p.operand.value;
    LonePlan(desc, count, c, p);
    hide Agrees, RowsOk, SatisfiesAll, Selected, BetweenBounds, Complete, AtStop, Prepared, Planned, ScanBounds;
    BetweenCompleteIff(index, desc, rows, c, [p], count);
    index.SeeksRightIff(LowKey(v, u));
    if index.SeeksRight(LowKey(v, u)) {
      forall r | Selected(desc, rows, [p], r) ensures r in rows && FitsRow(desc, rows[r]) && rows[r].values[c] >= v {
        LoneSelected(desc, rows, p, r);
      }
    } else {
      var r := LoneMissed(index, desc, rows, c, p);
    }
  }

  lemma LonePlan(desc: Descriptor, count: nat, c: nat, p: Predicate)
    requires c < |desc| && p == Planned(desc, count, c, GreaterEqual, p.operand) && p.operand.Some? && desc[c].indexed
    ensures Prepared(desc, count, [p]) && IndexPlan([p]) && OperandsOk([p])
    ensures ScanBounds([p]) == Bounds(p.operand, None)
  {
    LoneBounds(p);
  }

  // What a wrong seek for the lower bound loses.
  lemma LoneMissed(index: BPlusIndex.Index, desc: Descriptor, rows: RowMap, c: nat, p: Predicate) returns (r: Rid)
    requires index.Valid() && c < |desc| && RowsOk(desc, rows) && Agrees(index.Contents(), desc, rows, c)
    requires p.column == c && p.op == GreaterEqual && p.operand.Some?
    requires !index.SeeksRight(LowKey(p.operand.value, desc[c].unique))
    ensures Selected(desc, rows, [p], r)
  {
    hide Agrees, RowsOk, SatisfiesAll;
    var u, v, S := desc[c].unique, p.operand.value, index.Sequence();
    var e :| 0 <= e < index.Seek(LowKey(v, u)) && e < |S| && S[e].key >= LowKey(v, u);
    EntryPoints(index, desc, rows, c, e);
    NotNullEntry(index, desc, rows, c, e);
    r := RidOf(S[e].rid);
    BoundKeys(v, rows[r].values[c], r, u);
    LoneSelected(desc, rows, p, r);
  }

  lemma LoneBounds(p: Predicate)
    requires LowerOp(p.op) && p.operand.Some?
    ensures OperandsOk([p]) && MergedBounds([p]) == Bounds(p.operand, None)
  {
    assert [p][..0] == [];
    assert MergedBounds([]) == Bounds(None, None);
  }

  lemma LoneSelected(desc: Descriptor, rows: RowMap, p: Predicate, r: Rid)
    requires p.column < |desc| && p.op == GreaterEqual && p.operand.Some? && RowsOk(desc, rows)
    ensures r in rows ==> FitsRow(desc, rows[r]) && KeyOrder.RealOffset(r)
    ensures Selected(desc, rows, [p], r) <==>
              r in rows && !IsNull(desc, rows[r], p.column) && rows[r].values[p.column] >= p.operand.value
  {
    if r in rows {
      assert Satisfies(desc, rows[r], p) <==> SatisfiesAll(desc, rows[r], [p]) by {
        assert [p][0] == p;
      }
    }
  }

  lemma NotNullEntry(index: BPlusIndex.Index, desc: Descriptor, rows: RowMap, c: nat, n: nat)
    requires index.Valid() && c < |desc| && RowsOk(desc, rows) && Agrees(index.Contents(), desc, rows, c)
    requires n < |index.Sequence()|
    ensures var r := RidOf(index.Sequence()[n].rid);
            r in rows && FitsRow(desc, rows[r]) && !IsNull(desc, rows[r], c) && KeyOrder.RealOffset(r)
  {
    index.SeekFacts(0);
    BPlusTree.MapLookup(index.Sequence(), n);
  }

  // ---------------------------------------------------------------- gathering

  method ComputeBounds(preds: seq<Predicate>) returns (b: Bounds)
    requires OperandsOk(preds)
    ensures b == MergedBounds(preds)
  {
    var lower, upper := None, None;
    for i := 0 to |preds|
      invariant OperandsOk(preds[..i]) && Bounds(lower, upper) == MergedBounds(preds[..i])
    {
      var p := preds[i];
      assert preds[..i + 1] == preds[..i] + [p] && preds[..i + 1][..i] == preds[..i];
      if LowerOp(p.op) && (lower.None? || p.operand.value > lower.value) {
        lower := p.operand;
      } else if UpperOp(p.op) && (upper.None? || p.operand.value < upper.value) {
        upper := p.operand;
      }
    }
    assert preds[..|preds|] == preds;
    b := Bounds(lower, upper);
  }

  // The positions a scan starts and stops at.
  method FirstPosition(index: BPlusIndex.Index, lower: Option<int>) returns (pos: BPlusCursor.Position)
    requires index.Valid()
    ensures pos == index.Place(StartOf(index, lower, index.unique))
  {
    hide *;
    StartIs(index, lower);
    if lower.Some? {
      pos := index.SearchIndexEntry(LowKey(lower.value, index.unique));
    } else {
      pos := index.IndexEntryOffsetBegin();
    }
  }

  lemma StartIs(index: BPlusIndex.Index, lower: Option<int>)
    requires index.Valid()
    ensures StartOf(index, lower, index.unique) == if lower.None? then 0
        else index.Seek(LowKey(lower.value, index.unique))
  {
  }

  method StopPosition(index: BPlusIndex.Index, upper: Option<int>) returns (pos: BPlusCursor.Position)
    requires index.Valid()
    ensures pos == index.Place(StopOf(index, upper, index.unique))
  {
    hide *;
    StopIs(index, upper);
    if upper.Some? {
      var last := index.SearchIndexEntry(HighKey(upper.value, index.unique));
      pos := index.NextIndexEntryOffset(last, index.Seek(HighKey(upper.value, index.unique)));
    } else {
      pos := BPlusCursor.Position(-1, -1);
    }
  }

  lemma StopIs(index: BPlusIndex.Index, upper: Option<int>)
    requires index.Valid()
    ensures upper.Some? ==> StopOf(index, upper, index.unique) == index.Seek(HighKey(upper.value, index.unique)) + 1
    ensures upper.None? ==> index.Place(StopOf(index, upper, index.unique)) == BPlusCursor.Position(-1, -1)
  {
    index.PlacesDiffer(|index.Sequence()|, |index.Sequence()| + 1);
  }

  method ScanByIndex(desc: Descriptor, table: Table, index: BPlusIndex.Index, preds: seq<Predicate>,
                     ghost rows: RowMap, ghost S: seq<BPlusTree.Entry>, ghost c: nat) returns (g: Result<seq<Rid>,
                         TableError>)
    requires ColumnsOk(desc, preds) && OperandsOk(preds) && IndexPlan(preds)
    requires RowsOk(desc, rows) && Linked(table, index, desc, c, rows, S) && index.Valid() && c < |desc|
    requires index.unique == desc[c].unique
    ensures g == BetweenBounds(desc, rows, preds, index, c)
  {
    hide *;
    LinkedIs(table, index, desc, c, rows, S);
    BetweenIs(desc, rows, preds, index, c);
    var b: Bounds;
    if preds[0].plan == IndexSearch {  // only in equal
      b := Bounds(preds[0].operand, preds[0].operand);
    } else {
      b := ComputeBounds(preds);
    }
    if b.lower.Some? && b.upper.Some? && b.lower.value > b.upper.value {  // empty set
      return Result.Ok([]);
    }
    ScanStarts(index, b, index.unique);
    var begin := FirstPosition(index, b.lower);
    var end := StopPosition(index, b.upper);
    g := ScanIndex(desc, table, index, preds, begin, end, rows, S, c,
                   StartOf(index, b.lower, index.unique), StopOf(index, b.upper, index.unique));
  }

  lemma BetweenIs(desc: Descriptor, rows: RowMap, preds: seq<Predicate>, index: BPlusIndex.Index, c: nat)
    requires ColumnsOk(desc, preds) && RowsOk(desc, rows) && IndexPlan(preds) && OperandsOk(preds) && index.Valid()
    requires c < |desc|
    ensures preds != []
    ensures var b :=
              if preds[0].plan == IndexSearch then Bounds(preds[0].operand, preds[0].operand) else MergedBounds(preds);
            var s, t := StartOf(index, b.lower, desc[c].unique), StopOf(index, b.upper, desc[c].unique);
            && (EmptyRange(b) <==> b.lower.Some? && b.upper.Some? && b.lower.value > b.upper.value)
            && (EmptyRange(b) ==> BetweenBounds(desc, rows, preds, index, c) == Ok([]))
            && (!EmptyRange(b) ==>
                  s <= |index.Sequence()| &&
                  BetweenBounds(desc, rows, preds, index, c) == ScanOf(desc, rows, preds, index.Sequence(), s, t))
  {
    hide RowsOk, StartOf, StopOf, ScanOf, MergedBounds;
    var b := ScanBounds(preds);
    if !EmptyRange(b) { ScanStarts(index, b, desc[c].unique); }
  }

  /** What the gathering step works on: a table with planned predicates and, when the first of them
      uses an index, that index in step with the table. */
  ghost predicate Ready(desc: Descriptor, table: Table, index: BPlusIndex.Index?, preds: seq<Predicate>)
    reads table, table.repr, index, if index == null then {} else index.repr
  {
    && table.Valid() && RowsOk(desc, table.Contents())
    && Prepared(desc, table.recordCount, preds) && LengthsOk(desc)
    && (IndexPlan(preds) ==>
          && index != null && index.Valid() && index.unique == desc[preds[0].column].unique
          && Agrees(index.Contents(), desc, table.Contents(), preds[0].column))
  }

  // What Ready says of the plan: wherever operands are looked at, they are there.
  lemma ReadyIs(desc: Descriptor, table: Table, index: BPlusIndex.Index?, preds: seq<Predicate>)
    requires Ready(desc, table, index, preds)
    ensures table.Valid() && RowsOk(desc, table.Contents()) && ColumnsOk(desc, preds)
    ensures Prepared(desc, table.recordCount, preds)
    ensures IndexPlan(preds) <==> preds != [] && (preds[0].plan == IndexSearch || preds[0].plan == PartialIndexScan)
    ensures IndexPlan(preds) ==>
              && OperandsOk(preds) && index != null && preds[0].column < |desc|
              && Linked(table, index, desc, preds[0].column, table.Contents(), index.Sequence())
              && index.Valid() && index.unique == desc[preds[0].column].unique
              && Agrees(index.Contents(), desc, table.Contents(), preds[0].column)
    ensures preds != [] ==>
              preds[0].plan == ConstantEmpty || OperandsOk(preds) || (table.Contents() == map[] && !IndexPlan(preds))
  {
    if preds != [] {
      NullOperandDrives(desc, table.recordCount, preds);
      table.OffsetsExact();
      if table.recordCount == 0 { NoRows(table); }
    }
  }

  lemma NoRows(table: Table)
    requires table.Valid() && table.recordCount == 0
    ensures table.Contents() == map[]
  {
    hide *;
    table.OffsetsExact();
    assert forall r :: r in table.Contents() ==> r in table.Offsets();
  }

  // The full scan keeps exactly the selected records.
  lemma OffsetsSelected(desc: Descriptor, table: Table, preds: seq<Predicate>)
    requires table.Valid() && RowsOk(desc, table.Contents()) && ColumnsOk(desc, preds)
    ensures var g := Result<seq<Rid>, TableError>.Ok(Kept(desc, table.Contents(), preds, table.Offsets()));
            Sound(desc, table.Contents(), preds, g) && Complete(desc, table.Contents(), preds, g)
            && InOffsetOrder(g.value)
    ensures preds == [] ==> Kept(desc, table.Contents(), preds, table.Offsets()) == table.Offsets()
  {
    hide *;
    SoundIs(desc, table.Contents(), preds, Result.Ok(Kept(desc, table.Contents(), preds, table.Offsets())));
    table.OffsetsExact();
    OrderedOffsets(table.Offsets());
    SelectedLive(desc, table.Contents(), preds);
    KeptExact(desc, table.Contents(), preds, table.Offsets());
    KeptInOrder(desc, table.Contents(), preds, table.Offsets());
    if preds == [] { AllKept(desc, table.Contents(), table.Offsets()); }
  }

  lemma SoundIs(desc: Descriptor, rows: RowMap, preds: seq<Predicate>, g: Result<seq<Rid>, TableError>)
    requires ColumnsOk(desc, preds) && RowsOk(desc, rows)
    ensures Sound(desc, rows, preds, g) <==>
              (g.Ok? ==> NoneTwice(g.value) && forall r :: r in g.value ==> Selected(desc, rows, preds, r))
    ensures Complete(desc, rows, preds, g) <==> g.Ok? && forall r :: Selected(desc, rows, preds, r) ==> r in g.value
  {
  }

  lemma OrderedOffsets(L: seq<Rid>)
    requires forall i, j :: 0 <= i < j < |L| ==> RidBefore(L[i], L[j])
    ensures NoneTwice(L) && InOffsetOrder(L)
  {
  }

  lemma SelectedLive(desc: Descriptor, rows: RowMap, preds: seq<Predicate>)
    requires ColumnsOk(desc, preds) && RowsOk(desc, rows)
    ensures forall r :: Selected(desc, rows, preds, r) ==> r in rows
  {
  }

  lemma {:induction false} AllKept(desc: Descriptor, rows: RowMap, L: seq<Rid>)
    requires RowsOk(desc, rows) && forall r :: r in L ==> r in rows
    ensures Kept(desc, rows, [], L) == L
  {
    if L != [] {
      AllKept(desc, rows, L[..|L| - 1]);
      assert L[|L| - 1] in rows;
    }
  }

  method AllOffsets(table: Table) returns (rids: seq<Rid>)
    requires table.Valid()
    ensures rids == table.Offsets()
  {
    hide *;
    rids := [];
    var rid := FirstOffset(table);
    while rid.page != -1
      invariant table.Offsets() == rids + table.Rest(rid)
      invariant rid.page == -1 ==> table.Rest(rid) == []
      invariant rid.page != -1 ==> rid.page >= 1 && rid.slot >= 0
      decreases |table.Rest(rid)|
    {
      rids := rids + [rid];
      rid := OffsetAfter(table, rid);
    }
    assert table.Offsets() == rids;
  }

  // An empty plan has a first predicate that is false of every record.
  lemma NoneSelected(desc: Descriptor, rows: RowMap, preds: seq<Predicate>, count: nat)
    requires RowsOk(desc, rows) && Prepared(desc, count, preds) && ColumnsOk(desc, preds)
    requires preds != [] && preds[0].plan == ConstantEmpty
    ensures Sound(desc, rows, preds, Ok([])) && Complete(desc, rows, preds, Ok([])) && InOffsetOrder([])
  {
    forall r | r in rows ensures !SatisfiesAll(desc, rows[r], preds) {
      EmptyPlanRight(desc, count, preds[0], rows[r]);
    }
  }

  /** What is gathered: always records that satisfy all predicates, each once; and all of those when
      the plan is a full scan, the empty result or a safe index scan. */
  ghost predicate Gathered(desc: Descriptor, rows: RowMap, preds: seq<Predicate>, index: BPlusIndex.Index?,
                           g: Result<seq<Rid>, TableError>)
    reads index, if index == null then {} else index.repr
  {
    && ColumnsOk(desc, preds) && RowsOk(desc, rows) && Sound(desc, rows, preds, g)
    && (if !IndexPlan(preds) then Complete(desc, rows, preds, g) && (g.Ok? ==> InOffsetOrder(g.value))
        else
          && OperandsOk(preds) && index != null && index.Valid()
          && g == BetweenBounds(desc, rows, preds, index, preds[0].column)
          && (PlanSafe(desc, preds, index, preds[0].column) ==> Complete(desc, rows, preds, g)))
  }

  lemma GatheredIs(desc: Descriptor, rows: RowMap, preds: seq<Predicate>, index: BPlusIndex.Index?)
    requires ColumnsOk(desc, preds) && RowsOk(desc, rows)
    ensures !IndexPlan(preds) ==>
              forall g :: Gathered(desc, rows, preds, index, g) <==>
                  Sound(desc, rows, preds, g) && Complete(desc, rows, preds, g) && (g.Ok? ==> InOffsetOrder(g.value))
    ensures IndexPlan(preds) && OperandsOk(preds) && index != null && index.Valid() ==>
              forall g :: Gathered(desc, rows, preds, index, g) <==>
                && Sound(desc, rows, preds, g) && g == BetweenBounds(desc, rows, preds, index, preds[0].column)
                && (PlanSafe(desc, preds, index, preds[0].column) ==> Complete(desc, rows, preds, g))
  {
  }

  method GatherByIndex(desc: Descriptor, table: Table, index: BPlusIndex.Index?, preds: seq<Predicate>)
    returns (g: Result<seq<Rid>, TableError>)
    requires Ready(desc, table, index, preds) && IndexPlan(preds)
    ensures Gathered(desc, table.Contents(), preds, index, g)
  {
    hide *;
    ReadyIs(desc, table, index, preds);
    GatheredIs(desc, table.Contents(), preds, index);
    g := ScanByIndex(desc, table, index, preds, table.Contents(), index.Sequence(), preds[0].column);
    BetweenSound(index, desc, table.Contents(), preds[0].column, preds);
    if PlanSafe(desc, preds, index, preds[0].column) {
      BetweenComplete(index, desc, table.Contents(), preds[0].column, preds, table.recordCount);
    }
  }

  /** Gathers by the plan of the first predicate. */
  method GatherValidSingleTableRecordOffsets(desc: Descriptor, table: Table, index: BPlusIndex.Index?,
                                             preds: seq<Predicate>)
    returns (g: Result<seq<Rid>, TableError>)
    requires Ready(desc, table, index, preds)
    ensures Gathered(desc, table.Contents(), preds, index, g)
  {
    hide *;
    ghost var rows := table.Contents();
    ReadyIs(desc, table, index, preds);
    GatheredIs(desc, rows, preds, index);
    OffsetsSelected(desc, table, preds);
    if preds == [] {  // all
      var rids := AllOffsets(table);
      return Result.Ok(rids);
    }
    match preds[0].plan {
      case ConstantEmpty =>
        NoneSelected(desc, rows, preds, table.recordCount);
        g := Result.Ok([]);
      case FullScanCompare =>
        var rids := FullScan(desc, table, preds);
        g := Result.Ok(rids);
      case FullScanNullCheck =>
        var rids := FullScan(desc, table, preds);
        g := Result.Ok(rids);
      case IndexSearch =>
        g := GatherByIndex(desc, table, index, preds);
      case PartialIndexScan =>
        g := GatherByIndex(desc, table, index, preds);
    }
  }
}
