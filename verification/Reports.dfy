/** Which records a gathering step reports, for every plan and in every state of the index, said of separators, entries
    and bounds (src/query/query_engine.cpp:420-496). */
module Reports {
  import opened Wrappers
  import opened Rows
  import opened Plans
  import opened TableFiles
  import opened RecordTable
  import opened Gather
  import BPlusTree
  import BPlusIndex

  /** The scan comes by record r: its bounds are not the wrong way round, its lower seek is right, and r is not below
      the lower bound and not behind the first entry above the upper one. */
  ghost predicate Reaches(index: BPlusIndex.Index, desc: Descriptor, rows: RowMap, preds: seq<Predicate>, r: Rid)
    requires index.Valid() && RowsOk(desc, rows) && ColumnsOk(desc, preds) && IndexPlan(preds) && OperandsOk(preds)
    reads index, index.repr
  {
    var b := ScanBounds(preds);
    r in rows && !EmptyRange(b) && SeekRight(index, b, desc[preds[0].column].unique) &&
    InReach(index, desc, rows, preds[0].column, b, r)
  }

  /** The scan starts at the end by a wrong seek, and has an entry to stop at. */
  ghost predicate ScanFails(index: BPlusIndex.Index, desc: Descriptor, preds: seq<Predicate>)
    requires index.Valid() && ColumnsOk(desc, preds) && IndexPlan(preds) && OperandsOk(preds)
    reads index, index.repr
  {
    var b, u := ScanBounds(preds), desc[preds[0].column].unique;
    !EmptyRange(b) && !SeekRight(index, b, u) && !NoStop(index, b.upper, u)
  }

  /** In the order of their keys in the index of column c. */
  ghost predicate InKeyOrder(desc: Descriptor, rows: RowMap, c: nat, L: seq<Rid>) {
    forall i, j :: 0 <= i < j < |L| ==> KeyBefore(desc, rows, c, L[i], L[j])
  }

  ghost predicate KeyBefore(desc: Descriptor, rows: RowMap, c: nat, q: Rid, r: Rid) {
    && c < |desc| && q in rows && r in rows && FitsRow(desc, rows[q]) && FitsRow(desc, rows[r])
    && KeyOf(rows[q].values[c], q, desc[c].unique) < KeyOf(rows[r].values[c], r, desc[c].unique)
  }

  /** A gathering step comes by record r: by every one unless it scans an index. */
  ghost predicate ReachedBy(desc: Descriptor, rows: RowMap, preds: seq<Predicate>, index: BPlusIndex.Index?, r: Rid)
    requires RowsOk(desc, rows) && ColumnsOk(desc, preds)
    reads index, if index == null then {} else index.repr
  {
    IndexPlan(preds) ==>
      OperandsOk(preds) && index != null && index.Valid() && Reaches(index, desc, rows, preds, r)
  }

  ghost predicate FailsBy(desc: Descriptor, preds: seq<Predicate>, index: BPlusIndex.Index?)
    requires ColumnsOk(desc, preds)
    reads index, if index == null then {} else index.repr
  {
    IndexPlan(preds) && OperandsOk(preds) && index != null && index.Valid() && ScanFails(index, desc, preds)
  }

  /** By key for an index scan, else by offset. */
  ghost predicate InPlanOrder(desc: Descriptor, rows: RowMap, preds: seq<Predicate>, L: seq<Rid>) {
    if IndexPlan(preds) then InKeyOrder(desc, rows, preds[0].column, L) else InOffsetOrder(L)
  }

  /** What a gathering step reports: exactly the selected records that it comes by, in its order, or an error exactly
      when its scan fails. */
  ghost predicate Reported(desc: Descriptor, rows: RowMap, preds: seq<Predicate>, index: BPlusIndex.Index?,
                           g: Result<seq<Rid>, TableError>)
    reads index, if index == null then {} else index.repr
  {
    && ColumnsOk(desc, preds) && RowsOk(desc, rows)
    && (g.Err? <==> FailsBy(desc, preds, index)) && (g.Err? ==> g.error == RecordOffsetOutOfRange)
    && (g.Ok? ==>
          && (forall r ::
                r in g.value <==> Selected(desc, rows, preds, r) && ReachedBy(desc, rows, preds, index, r))
          && InPlanOrder(desc, rows, preds, g.value))
  }

  // ---------------------------------------------------------------- the order of a scan

  lemma {:induction false} KeptInKeyOrder(desc: Descriptor, rows: RowMap, c: nat, preds: seq<Predicate>, L: seq<Rid>)
    requires ColumnsOk(desc, preds) && RowsOk(desc, rows) && InKeyOrder(desc, rows, c, L)
    ensures InKeyOrder(desc, rows, c, Kept(desc, rows, preds, L))
  {
    if L != [] {
      hide KeyBefore, RowsOk, ColumnsOk, Selected;
      var M, l := L[..|L| - 1], L[|L| - 1];
      KeptInKeyOrder(desc, rows, c, preds, M);
      KeptExact(desc, rows, preds, M);
      forall r | r in Kept(desc, rows, preds, M) ensures KeyBefore(desc, rows, c, r, l) {
        var j :| 0 <= j < |M| && M[j] == r;
        assert KeyBefore(desc, rows, c, L[j], L[|L| - 1]);
      }
    }
  }

  lemma TargetsInKeyOrder(desc: Descriptor, rows: RowMap, c: nat, S: seq<BPlusTree.Entry>, b: nat, e: nat)
    requires Pointing(desc, rows, c, S) && b <= e <= |S|
    ensures InKeyOrder(desc, rows, c, Targets(S[b..e]))
  {
    var T := Targets(S[b..e]);
    forall i, j | 0 <= i < j < |T| ensures KeyBefore(desc, rows, c, T[i], T[j]) {
      assert T[i] == RidOf(S[b + i].rid) && T[j] == RidOf(S[b + j].rid);
      assert S[b + i].key < S[b + j].key;
    }
  }

  lemma BetweenInOrder(index: BPlusIndex.Index, desc: Descriptor, rows: RowMap, c: nat, preds: seq<Predicate>)
    requires index.Valid() && c < |desc| && RowsOk(desc, rows) && Agrees(index.Contents(), desc, rows, c)
    requires ColumnsOk(desc, preds) && IndexPlan(preds) && OperandsOk(preds)
    ensures var g := BetweenBounds(desc, rows, preds, index, c);
            (g.Ok? ==> InKeyOrder(desc, rows, c, g.value)) && (g.Err? ==> g.error == RecordOffsetOutOfRange)
  {
    hide *;
    AgreesPoints(index, desc, rows, c);
    BetweenIs(desc, rows, preds, index, c);
    ScanBoundsAre(preds);
    var b, u, S := ScanBounds(preds), desc[c].unique, index.Sequence();
    NoneInOrder(desc, rows, c);
    if !EmptyRange(b) {
      ScanStarts(index, b, u);
      var s, t := StartOf(index, b.lower, u), StopOf(index, b.upper, u);
      ScanIs(desc, rows, preds, S, s, t);
      if s <= t {
        var e := if t < |S| then t else |S|;
        TargetsInKeyOrder(desc, rows, c, S, s, e);
        KeptInKeyOrder(desc, rows, c, preds, Targets(S[s..e]));
      }
    }
  }

  lemma NoneInOrder(desc: Descriptor, rows: RowMap, c: nat)
    ensures InKeyOrder(desc, rows, c, [])
  {
  }

  // ---------------------------------------------------------------- what is reported

  /** An index scan reports exactly the selected records that it reaches, or fails exactly when the lower seek is wrong
      and there is an entry to stop at. */
  lemma BetweenReported(index: BPlusIndex.Index, desc: Descriptor, rows: RowMap, c: nat, preds: seq<Predicate>,
                        count: nat)
    requires index.Valid() && c < |desc| && RowsOk(desc, rows) && Agrees(index.Contents(), desc, rows, c)
    requires Prepared(desc, count, preds) && IndexPlan(preds) && OperandsOk(preds) && c == preds[0].column
    ensures Reported(desc, rows, preds, index, BetweenBounds(desc, rows, preds, index, c))
  {
    hide *;
    PreparedColumns(desc, count, preds);
    var b, g := ScanBounds(preds), BetweenBounds(desc, rows, preds, index, c);
    BetweenSound(index, desc, rows, c, preds);
    BetweenInOrder(index, desc, rows, c, preds);
    SoundIs(desc, rows, preds, g);
    BetweenIs(desc, rows, preds, index, c);
    ScanBoundsAre(preds);
    FailsIs(index, desc, preds);
    if !EmptyRange(b) {
      if SeekRight(index, b, desc[c].unique) {
        SeekStarts(index, b, desc[c].unique);
        BetweenRuns(index, desc, rows, c, preds);
      } else {
        ScanLost(index, desc, rows, c, preds);
      }
    }
    forall r
      ensures g.Ok? ==> (r in g.value <==> Selected(desc, rows, preds, r) && Reaches(index, desc, rows, preds, r))
    {
      ReachesIs(index, desc, rows, preds, r);
      if Selected(desc, rows, preds, r) && !EmptyRange(b) && SeekRight(index, b, desc[c].unique) {
        ScanMisses(index, desc, rows, c, preds, count, r);
      }
    }
    ReportedIs(desc, rows, preds, index, g);
  }

  lemma FailsIs(index: BPlusIndex.Index, desc: Descriptor, preds: seq<Predicate>)
    requires index.Valid() && ColumnsOk(desc, preds) && IndexPlan(preds) && OperandsOk(preds)
    ensures preds != [] && preds[0].column < |desc|
    ensures ScanFails(index, desc, preds) <==>
              var b, u := ScanBounds(preds), desc[preds[0].column].unique;
              !EmptyRange(b) && !SeekRight(index, b, u) && !NoStop(index, b.upper, u)
  {
  }

  lemma ReachesIs(index: BPlusIndex.Index, desc: Descriptor, rows: RowMap, preds: seq<Predicate>, r: Rid)
    requires index.Valid() && RowsOk(desc, rows) && ColumnsOk(desc, preds) && IndexPlan(preds) && OperandsOk(preds)
    ensures preds != [] && preds[0].column < |desc| && (r in rows ==> FitsRow(desc, rows[r]))
    ensures Selected(desc, rows, preds, r) ==> r in rows
    ensures Reaches(index, desc, rows, preds, r) <==>
              var b := ScanBounds(preds);
              r in rows && !EmptyRange(b) && SeekRight(index, b, desc[preds[0].column].unique) &&
              InReach(index, desc, rows, preds[0].column, b, r)
  {
  }

  lemma ReportedIs(desc: Descriptor, rows: RowMap, preds: seq<Predicate>, index: BPlusIndex.Index,
                   g: Result<seq<Rid>, TableError>)
    requires ColumnsOk(desc, preds) && RowsOk(desc, rows) && IndexPlan(preds) && OperandsOk(preds) && index.Valid()
    ensures Reported(desc, rows, preds, index, g) <==>
              && (g.Err? <==> ScanFails(index, desc, preds)) && (g.Err? ==> g.error == RecordOffsetOutOfRange)
              && (g.Ok? ==>
                    && (forall r :: r in g.value <==>
                          Selected(desc, rows, preds, r) && Reaches(index, desc, rows, preds, r))
                    && InKeyOrder(desc, rows, preds[0].column, g.value))
  {
  }

  lemma GatheredReported(desc: Descriptor, rows: RowMap, preds: seq<Predicate>, index: BPlusIndex.Index?, count: nat,
                         g: Result<seq<Rid>, TableError>)
    requires Gathered(desc, rows, preds, index, g) && Prepared(desc, count, preds)
    requires IndexPlan(preds) ==>
               preds[0].column < |desc| && index != null && index.Valid() && RowsOk(desc, rows) &&
               Agrees(index.Contents(), desc, rows, preds[0].column)
    ensures Reported(desc, rows, preds, index, g)
  {
    hide RowsOk, Agrees, Prepared, BetweenBounds, InKeyOrder, PlanSafe, SatisfiesAll, Reaches, ScanFails;
    if IndexPlan(preds) {
      BetweenReported(index, desc, rows, preds[0].column, preds, count);
    }
  }
}
