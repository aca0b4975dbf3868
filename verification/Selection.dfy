/** Selecting from several tables (src/query/query_engine.cpp): the answers are exactly the rows of the
    filtered cross product, each once, whichever table each context picks next. */
module Selection {
  import opened Wrappers
  import opened Rows
  import opened Layout
  import opened Plans
  import opened TableFiles
  import opened RecordTable
  import opened Gather
  import opened JoinSpec
  import opened Join
  import opened Reports
  import opened Answers
  import opened Traces

  // ---------------------------------------------------------------- the next table

  /** The table with the least score, the last one of several. */
  method ChooseTable(schema: Schema, db: map<string, Source>, preds: seq<ColumnPredicate>, src: seq<string>,
                     ctx: seq<Chosen>)
    returns (k: nat, E: seq<Predicate>)
    requires AllWellFormed(schema, preds) && ContextFits(schema, ctx) && |ctx| < |src|
    requires forall i :: 0 <= i < |src| ==> src[i] in db && src[i] in schema
    ensures |ctx| <= k < |src| && Extraction(schema, db[src[k]].table.recordCount, src[k], ctx, preds, E)
    ensures forall i :: |ctx| <= i < |src| ==>
              var best := Score(schema[src[k]], db[src[k]].table.recordCount, E);
              ScoresFrom(schema, db[src[i]].table.recordCount, src[i], ctx, preds, if i > k then best + 1 else best)
  {
    hide *;
    var minScore := 0;
    k, E := 0, [];
    for i := |ctx| to |src|
      invariant i > |ctx| ==> |ctx| <= k < i && Extraction(schema, db[src[k]].table.recordCount, src[k], ctx, preds, E)
      invariant i > |ctx| ==> minScore == Score(schema[src[k]], db[src[k]].table.recordCount, E)
      invariant forall j :: |ctx| <= j < i ==>
                  ScoresFrom(schema, db[src[j]].table.recordCount, src[j], ctx, preds,
                             if j > k then minScore + 1 else minScore)
    {
      var count := db[src[i]].table.recordCount;
      var pds := ExtractContextualPredicates(schema, count, src[i], ctx, preds);
      ScoreIs(schema[src[i]], count, pds);
      OwnScore(schema, count, src[i], ctx, preds, pds);
      var score := if pds == [] then TABLE_SCAN * RecordLength(schema[src[i]]) * count else pds[0].cost;
      if i == |ctx| || score <= minScore {
        forall j | |ctx| <= j < i ensures ScoresFrom(schema, db[src[j]].table.recordCount, src[j], ctx, preds, score) {
          ScoresLess(schema, db[src[j]].table.recordCount, src[j], ctx, preds,
                     if j > k then minScore + 1 else minScore, score);
        }
        minScore, k, E := score, i, pds;
      } else {
        ScoresLess(schema, count, src[i], ctx, preds, score, minScore + 1);
      }
    }
  }

  lemma ScoreIs(desc: Descriptor, count: nat, E: seq<Predicate>)
    ensures Score(desc, count, E) == if E == [] then TABLE_SCAN * RecordLength(desc) * count else E[0].cost
  {
  }

  // The score of a table is the least of what is extracted for it.
  lemma OwnScore(schema: Schema, count: nat, name: string, ctx: seq<Chosen>, preds: seq<ColumnPredicate>,
                 E: seq<Predicate>)
    requires name in schema && AllWellFormed(schema, preds) && ContextFits(schema, ctx)
    requires Extraction(schema, count, name, ctx, preds, E)
    ensures ScoresFrom(schema, count, name, ctx, preds, Score(schema[name], count, E))
  {
    hide Extracted, AllWellFormed, ContextFits, RecordLength;
    var raw := Extracted(schema, count, name, ctx, preds);
    forall p | p in raw ensures E != [] && E[0].cost <= p.cost {
      assert p in multiset(E);
      var i :| 0 <= i < |E| && E[i] == p;
    }
    if raw != [] {
      assert raw[0] in raw;
    }
  }

  lemma ScoresLess(schema: Schema, count: nat, name: string, ctx: seq<Chosen>, preds: seq<ColumnPredicate>,
                   score: int, less: int)
    requires name in schema && AllWellFormed(schema, preds) && ContextFits(schema, ctx) && less <= score
    requires ScoresFrom(schema, count, name, ctx, preds, score)
    ensures ScoresFrom(schema, count, name, ctx, preds, less)
  {
    hide Extracted, AllWellFormed, ContextFits, RecordLength;
  }

  /** The source tables with table k moved behind those of the context. */
  function Reordered(src: seq<string>, n: nat, k: nat): seq<string>
    requires n <= k < |src|
  {
    src[..n] + [src[k]] + src[n..k] + src[k + 1..]
  }

  ghost predicate Different(src: seq<string>) {
    forall i, j :: 0 <= i < j < |src| ==> src[i] != src[j]
  }

  /** The source tables are those named, each once, and the context has taken the first of them. */
  ghost predicate SourcesOk(src: seq<string>, names: set<string>, ctx: seq<Chosen>) {
    && Different(src) && (forall n :: n in names <==> n in src)
    && |ctx| <= |src| && forall i :: 0 <= i < |ctx| ==> ctx[i].name == src[i]
  }

  // Where place i of the reordered list comes from, and where place j goes to.
  function From(n: nat, k: nat, i: nat): nat { if i < n || i > k then i else if i == n then k else i - 1 }
  lemma ReorderedAt(src: seq<string>, n: nat, k: nat, i: nat)
    requires n <= k < |src| && i < |src|
    ensures |Reordered(src, n, k)| == |src| && From(n, k, i) < |src|
    ensures Reordered(src, n, k)[i] == src[From(n, k, i)]
  {
  }

  lemma ReorderedDifferent(src: seq<string>, n: nat, k: nat)
    requires n <= k < |src| && Different(src)
    ensures Different(Reordered(src, n, k))
  {
    hide Reordered;
    var s := Reordered(src, n, k);
    ReorderedAt(src, n, k, 0);
    forall i, j | 0 <= i < j < |s| ensures s[i] != s[j] {
      ReorderedAt(src, n, k, i);
      ReorderedAt(src, n, k, j);
      var a, b := From(n, k, i), From(n, k, j);
      assert if a < b then src[a] != src[b] else src[b] != src[a];
    }
  }

  lemma ReorderedMembers(src: seq<string>, n: nat, k: nat, name: string)
    requires n <= k < |src|
    ensures name in Reordered(src, n, k) <==> name in src
  {
    assert src == src[..n] + src[n..k] + [src[k]] + src[k + 1..];
  }

  lemma ReorderedOk(src: seq<string>, names: set<string>, ctx: seq<Chosen>, k: nat, rid: Rid, row: Row)
    requires SourcesOk(src, names, ctx) && |ctx| <= k < |src|
    ensures SourcesOk(Reordered(src, |ctx|, k), names, ctx + [Chosen(src[k], rid, row)])
  {
    var n, c := |ctx|, Chosen(src[k], rid, row);
    var s := Reordered(src, n, k);
    assert |s| == |src| && s[n] == src[k] && forall i :: 0 <= i < n ==> s[i] == src[i];
    hide Reordered;
    ReorderedDifferent(src, n, k);
    forall name ensures name in names <==> name in s {
      ReorderedMembers(src, n, k, name);
    }
  }

  lemma NotChosen(src: seq<string>, names: set<string>, ctx: seq<Chosen>, k: nat)
    requires SourcesOk(src, names, ctx) && |ctx| <= k < |src|
    ensures src[k] !in ChoiceOf(ctx) && src[k] in names
  {
    ChoiceHas(ctx);
  }

  // ---------------------------------------------------------------- answers

  method EncodeSelected(schema: Schema, ghost rows: Snapshot, sel: seq<(string, nat)>, ctx: seq<Chosen>)
    returns (fields: seq<Option<int>>)
    requires SnapshotOk(schema, rows) && SelOk(schema, sel) && ContextOk(rows, ctx) && ContextFits(schema, ctx)
    ensures Picks(rows, ChoiceOf(ctx)) && fields == Project(schema, rows, sel, ChoiceOf(ctx))
  {
    hide Picks, ContextOk;
    ContextRow(rows, ctx, "");
    fields := [];
    for i := 0 to |sel|
      invariant SelOk(schema, sel[..i]) && fields == Project(schema, rows, sel[..i], ChoiceOf(ctx))
    {
      assert sel[..i + 1][..i] == sel[..i] && sel[..i + 1][i] == sel[i];
      var row := FindRow(ctx, sel[i].0);
      ContextRow(rows, ctx, sel[i].0);
      ChosenFits(schema, ctx, sel[i].0);
      if row.Some? {
        fields := fields + [CellValue(schema[sel[i].0], row.value, sel[i].1)];
      }
    }
    assert sel[..|sel|] == sel;
  }

  /** Completed choices: just this one. */
  lemma GoalsDone(schema: Schema, rows: Snapshot, q: Query, src: seq<string>, names: set<string>, ctx: seq<Chosen>,
                  fields: seq<Option<int>>, all: bool)
    requires QueryOk(schema, rows, q) && SourcesOk(src, names, ctx) && |ctx| == |src| && ContextOk(rows, ctx)
    requires Fits(schema, rows, q.preds, ChoiceOf(ctx)) && fields == Project(schema, rows, q.sel, ChoiceOf(ctx))
    ensures Lists(schema, rows, q, [Answer(ChoiceOf(ctx), fields)], Goals(schema, rows, q, names, ChoiceOf(ctx)), all)
  {
    hide Fits, QueryOk, Project, Goals, SourcesOk, ContextOk, ChoiceOf;
    var m := ChoiceOf(ctx);
    AllChosen(src, names, ctx);
    ContextRow(rows, ctx, "");
    forall a ensures a in Goals(schema, rows, q, names, m) <==> a == m {
      OnlyGoal(schema, rows, q, names, m, a);
    }
    var out := [Answer(m, fields)];
    assert out[0].choice == m;
    assert IsChoice(out, m);
  }

  /** On each of the joined tables, the predicates can bring about only sure index plans. */
  ghost predicate AllReliable(schema: Schema, db: map<string, Source>, names: set<string>, preds: seq<ColumnPredicate>)
    reads set n, i | n in db && i in db[n].indexes.Values :: i,
          set n, i, o | n in db && i in db[n].indexes.Values && o in i.repr :: o
  {
    forall n :: n in names && n in schema && n in db ==> Reliable(schema[n], db[n], n, names, preds)
  }

  // Objects of a database are older than what is allocated later, so that reading keeps DatabaseOk.
  lemma Allocated(db: map<string, Source>)
    ensures forall n :: n in db ==> allocated(db[n].table) && allocated(db[n].indexes)
    ensures forall n, i :: n in db && i in db[n].indexes.Values ==> allocated(i)
  {
  }

  lemma TableIn(schema: Schema, db: map<string, Source>, rows: Snapshot, n: string)
    requires DatabaseOk(schema, db, rows) && n in schema
    ensures n in db && n in rows && SourceOk(schema[n], db[n], rows[n])
  {
  }

  lemma ReliableIn(schema: Schema, db: map<string, Source>, names: set<string>, preds: seq<ColumnPredicate>, n: string)
    requires AllReliable(schema, db, names, preds) && n in names && n in schema && n in db
    ensures Reliable(schema[n], db[n], n, names, preds)
  {
  }

  method ReadRow(desc: Descriptor, s: Source, ghost rows: RowMap, rid: Rid) returns (row: Row)
    requires SourceOk(desc, s, rows) && rid in rows
    ensures row == rows[rid] && FitsRow(desc, row)
  {
    hide *;
    RowThere(desc, s, rows, rid);
    var record := s.table.GetRecord(rid);
    row := record.value;
  }

  lemma RowThere(desc: Descriptor, s: Source, rows: RowMap, rid: Rid)
    requires SourceOk(desc, s, rows) && rid in rows
    ensures s.table.Valid() && rows == s.table.Contents() && rid.page != 0 && FitsRow(desc, rows[rid])
  {
    hide Agrees;
  }

  /** Where the join stands: the context fits the query and takes the first of the source tables. */
  ghost predicate Standing(schema: Schema, rows: Snapshot, q: Query, src: seq<string>, names: set<string>,
                           ctx: seq<Chosen>)
  {
    && QueryOk(schema, rows, q) && SourcesOk(src, names, ctx) && (forall n :: n in names ==> n in schema)
    && ContextOk(rows, ctx) && Fits(schema, rows, q.preds, ChoiceOf(ctx))
  }

  lemma StandingIs(schema: Schema, rows: Snapshot, q: Query, src: seq<string>, names: set<string>, ctx: seq<Chosen>)
    requires Standing(schema, rows, q, src, names, ctx)
    ensures QueryOk(schema, rows, q) && SnapshotOk(schema, rows) && AllWellFormed(schema, q.preds)
    ensures SelOk(schema, q.sel)
    ensures SourcesOk(src, names, ctx) && |ctx| <= |src|
    ensures (forall i :: 0 <= i < |src| ==> src[i] in schema && src[i] in rows)
    ensures ContextOk(rows, ctx) && ContextFits(schema, ctx) && Fits(schema, rows, q.preds, ChoiceOf(ctx))
  {
    assert forall i :: 0 <= i < |src| ==> src[i] in names;
    hide Fits, AllWellFormed;
  }

  lemma NextStanding(schema: Schema, rows: Snapshot, q: Query, src: seq<string>, names: set<string>, ctx: seq<Chosen>,
                     k: nat, rid: Rid)
    requires Standing(schema, rows, q, src, names, ctx) && |ctx| <= k < |src| && QueryOk(schema, rows, q)
    requires Choosable(schema, rows, q, ctx, src[k], rid)
    ensures src[k] in rows && rid in rows[src[k]]
    ensures var next := ctx + [Chosen(src[k], rid, rows[src[k]][rid])];
            && Standing(schema, rows, q, Reordered(src, |ctx|, k), names, next) && |Reordered(src, |ctx|, k)| == |src|
            && ChoiceOf(next) == ChoiceOf(ctx)[src[k] := rid] && src[k] !in ChoiceOf(ctx)
  {
    hide Fits, QueryOk, SourcesOk;
    var row := rows[src[k]][rid];
    var next := ctx + [Chosen(src[k], rid, row)];
    ReorderedAt(src, |ctx|, k, k);
    ReorderedOk(src, names, ctx, k, rid, row);
    NotChosen(src, names, ctx, k);
    ChoiceHas(ctx);
    assert next[..|ctx|] == ctx;
  }

  /** Gathers the records of the next table. */
  method GatherNext(schema: Schema, db: map<string, Source>, q: Query, src: seq<string>, ctx: seq<Chosen>, k: nat,
                    E: seq<Predicate>, ghost v: View,
                    ghost rows: Snapshot, ghost names: set<string>, ghost sure: bool)
    returns (g: Result<seq<Rid>, TableError>)
    requires Standing(schema, rows, q, src, names, ctx) && |ctx| <= k < |src| && DatabaseOk(schema, db, rows)
    requires QueryOk(schema, rows, q) && ContextFits(schema, ctx) && src[k] in schema && src[k] in db
    requires Extraction(schema, db[src[k]].table.recordCount, src[k], ctx, q.preds, E)
    requires v == ViewOf(schema, db, rows) && Picked(schema, v, q, names, ctx, src[k], E)
    requires (sure ==> AllReliable(schema, db, names, q.preds))
    ensures g.Ok? ==> Step(schema, v, rows, q, names, ctx, src[k], E, g.value)
    ensures g.Err? ==> (src[k], E) in v.failing && g.error == RecordOffsetOutOfRange
    ensures sure ==>
              && g.Ok?
              && GoalsWith(schema, rows, q, names, ChoiceOf(ctx), src[k], g.value) ==
                   Goals(schema, rows, q, names, ChoiceOf(ctx))
  {
    hide *;
    StandingIs(schema, rows, q, src, names, ctx);
    TableIn(schema, db, rows, src[k]);
    ExtractionPrepared(schema, db[src[k]].table.recordCount, src[k], ctx, q.preds, E);
    if sure { NextSure(schema, db, q, src, ctx, k, E, rows, names); }
    Allocated(db);
    g := GatherFrom(schema[src[k]], db[src[k]], rows[src[k]], E);
    NotChosen(src, names, ctx, k);
    ReportedStep(schema, db, v, rows, q, names, ctx, src[k], E, g);
    if sure {
      CompleteOk(schema[src[k]], rows[src[k]], E, g);
      GoalsAll(schema, rows, q, names, ctx, src[k], db[src[k]].table.recordCount, E, g.value);
    }
  }

  // What is reported of the next table is what a run goes on with.
  lemma ReportedStep(schema: Schema, db: map<string, Source>, v: View, rows: Snapshot, q: Query, names: set<string>,
                     ctx: seq<Chosen>, name: string, E: seq<Predicate>, g: Result<seq<Rid>, TableError>)
    requires QueryOk(schema, rows, q) && ContextOk(rows, ctx) && ContextFits(schema, ctx)
    requires Fits(schema, rows, q.preds, ChoiceOf(ctx)) && name !in ChoiceOf(ctx)
    requires name in schema && name in db && name in rows && v == ViewOf(schema, db, rows)
    requires Extraction(schema, db[name].table.recordCount, name, ctx, q.preds, E)
    requires Picked(schema, v, q, names, ctx, name, E)
    requires ColumnsOk(schema[name], E) && RowsOk(schema[name], rows[name]) && Sound(schema[name], rows[name], E, g)
    requires Reported(schema[name], rows[name], E, IndexFor(db[name], E), g)
    ensures g.Ok? ==> Step(schema, v, rows, q, names, ctx, name, E, g.value)
    ensures g.Err? ==> (name, E) in v.failing && g.error == RecordOffsetOutOfRange
  {
    hide *;
    ReportedView(schema, db, rows, name, E, g);
    forall r ensures Choosable(schema, rows, q, ctx, name, r) <==> Selected(schema[name], rows[name], E, r) {
      ChoosableIff(schema, rows, q, ctx, name, db[name].table.recordCount, E, r);
    }
    StepIs(schema, v, rows, q, names, ctx, name, E, g);
  }

  lemma ReportedView(schema: Schema, db: map<string, Source>, rows: Snapshot, name: string, E: seq<Predicate>,
                     g: Result<seq<Rid>, TableError>)
    requires name in schema && name in db && name in rows
    requires ColumnsOk(schema[name], E) && RowsOk(schema[name], rows[name]) && Sound(schema[name], rows[name], E, g)
    requires Reported(schema[name], rows[name], E, IndexFor(db[name], E), g)
    ensures var v := ViewOf(schema, db, rows);
            && (g.Err? <==> (name, E) in v.failing) && (g.Err? ==> g.error == RecordOffsetOutOfRange)
            && (g.Ok? ==>
                  && NoneTwice(g.value) && InPlanOrder(schema[name], rows[name], E, g.value)
                  && forall r ::
                       r in g.value <==> Selected(schema[name], rows[name], E, r) && (name, E, r) in v.reached)
  {
    hide InPlanOrder, ReachedBy, FailsBy, Selected, IndexFor, RowsOk, ColumnsOk, NoneTwice;
  }

  lemma ChoosableIff(schema: Schema, rows: Snapshot, q: Query, ctx: seq<Chosen>, name: string, count: nat,
                     E: seq<Predicate>, r: Rid)
    requires QueryOk(schema, rows, q) && ContextOk(rows, ctx) && ContextFits(schema, ctx)
    requires Fits(schema, rows, q.preds, ChoiceOf(ctx)) && name !in ChoiceOf(ctx) && name in schema && name in rows
    requires Extraction(schema, count, name, ctx, q.preds, E)
    requires ColumnsOk(schema[name], E) && RowsOk(schema[name], rows[name])
    ensures Choosable(schema, rows, q, ctx, name, r) <==> Selected(schema[name], rows[name], E, r)
  {
    hide Fits, QueryOk, ContextOk, ContextFits, Extraction, RowsOk, ColumnsOk, SatisfiesAll;
    if r in rows[name] {
      ChosenSelected(schema, rows, q, ctx, name, count, E, r);
    }
  }

  lemma StepIs(schema: Schema, v: View, rows: Snapshot, q: Query, names: set<string>, ctx: seq<Chosen>,
               name: string, E: seq<Predicate>, g: Result<seq<Rid>, TableError>)
    requires QueryOk(schema, rows, q) && Picked(schema, v, q, names, ctx, name, E)
    requires name in schema && name in rows && ColumnsOk(schema[name], E) && RowsOk(schema[name], rows[name])
    requires forall r :: Choosable(schema, rows, q, ctx, name, r) <==> Selected(schema[name], rows[name], E, r)
    requires g.Err? <==> (name, E) in v.failing
    requires g.Ok? ==>
               && NoneTwice(g.value) && InPlanOrder(schema[name], rows[name], E, g.value)
               && forall r :: r in g.value <==> Selected(schema[name], rows[name], E, r) && (name, E, r) in v.reached
    ensures g.Ok? ==> Step(schema, v, rows, q, names, ctx, name, E, g.value)
  {
    hide Picked, InPlanOrder, Choosable, Selected, NoneTwice, QueryOk, ColumnsOk, RowsOk;
  }

  lemma NextSure(schema: Schema, db: map<string, Source>, q: Query, src: seq<string>, ctx: seq<Chosen>, k: nat,
                 E: seq<Predicate>,
                 rows: Snapshot, names: set<string>)
    requires Standing(schema, rows, q, src, names, ctx) && |ctx| <= k < |src| && DatabaseOk(schema, db, rows)
    requires QueryOk(schema, rows, q) && ContextFits(schema, ctx) && src[k] in schema && src[k] in db && src[k] in rows
    requires Extraction(schema, db[src[k]].table.recordCount, src[k], ctx, q.preds, E)
    requires AllReliable(schema, db, names, q.preds)
    ensures SureFrom(schema[src[k]], db[src[k]], E)
  {
    hide *;
    StandingIs(schema, rows, q, src, names, ctx);
    TableIn(schema, db, rows, src[k]);
    ExtractionPrepared(schema, db[src[k]].table.recordCount, src[k], ctx, q.preds, E);
    PreparedColumns(schema[src[k]], db[src[k]].table.recordCount, E);
    NextInContext(src, names, ctx, k);
    ReliableIn(schema, db, names, q.preds, src[k]);
    if IndexPlan(E) {
      ReliableSure(schema, db[src[k]], rows[src[k]], src[k], names, ctx, q.preds, E);
    }
    SureFromIs(schema[src[k]], db[src[k]], E);
  }

  lemma NextInContext(src: seq<string>, names: set<string>, ctx: seq<Chosen>, k: nat)
    requires SourcesOk(src, names, ctx) && |ctx| <= k < |src|
    ensures InContext(ctx, names, src[k]) && src[k] in names
  {
    ChoiceHas(ctx);
    forall n | n in ChoiceOf(ctx) ensures n in names {
      var i :| 0 <= i < |ctx| && ctx[i].name == n;
      assert src[i] in src;
    }
  }

  lemma SureFromIs(desc: Descriptor, s: Source, E: seq<Predicate>)
    requires ColumnsOk(desc, E)
    requires IndexPlan(E) ==>
               E[0].column in s.indexes && s.indexes[E[0].column].Valid() && Sure(desc, E, s.indexes[E[0].column])
    ensures SureFrom(desc, s, E)
  {
  }

  lemma CompleteOk(desc: Descriptor, rows: RowMap, E: seq<Predicate>, g: Result<seq<Rid>, TableError>)
    requires ColumnsOk(desc, E) && RowsOk(desc, rows) && Complete(desc, rows, E, g)
    ensures g.Ok? && g == Ok(g.value)
  {
  }

  /** Goes on from a context: the rows of the filtered cross product that extend it and that its run comes by, in the
      order of the run, each once; or an error, exactly where the run fails. */
  method SelectFromMultipleTables(schema: Schema, db: map<string, Source>, q: Query, src: seq<string>, ctx: seq<Chosen>,
                                  ghost v: View, ghost rows: Snapshot, ghost names: set<string>, ghost sure: bool)
    returns (r: Result<seq<Answer>, TableError>, count: nat, ghost T: Trace)
    requires Standing(schema, rows, q, src, names, ctx) && DatabaseOk(schema, db, rows)
    requires QueryOk(schema, rows, q) && |ctx| <= |src| && (sure ==> AllReliable(schema, db, names, q.preds))
    requires v == ViewOf(schema, db, rows)
    ensures r.Ok? ==>
              count == |r.value| && Lists(schema, rows, q, r.value, Goals(schema, rows, q, names, ChoiceOf(ctx)), sure)
    ensures r.Ok? ==>
              Runs(schema, v, rows, q, names, ctx, T) && ChoicesIn(r.value) == Choices(T, ChoiceOf(ctx))
    ensures r.Err? ==> Breaks(schema, v, rows, q, names, ctx, T) && r.error == RecordOffsetOutOfRange
    ensures sure ==> r.Ok?
    decreases |src| - |ctx|, 1
  {
    hide *;
    StandingIs(schema, rows, q, src, names, ctx);
    if |ctx| == |src| {  // done
      var fields := EncodeSelected(schema, rows, q.sel, ctx);
      GoalsDone(schema, rows, q, src, names, ctx, fields, sure);
      LeafRuns(schema, v, rows, q, src, names, ctx, Answer(ChoiceOf(ctx), fields));
      return Result.Ok([Answer(ChoiceOf(ctx), fields)]), 1, Leaf;
    }
    TablesIn(schema, db, rows);
    Allocated(db);
    var k, E := ChooseTable(schema, db, q.preds, src, ctx);
    PickedHere(schema, db, v, rows, q, src, names, ctx, k, E);
    var g := GatherNext(schema, db, q, src, ctx, k, E, v, rows, names, sure);
    if g.Err? {
      LostBreaks(schema, v, rows, q, names, ctx, src[k], E);
      return Err(g.error), 0, Lost(src[k], E);
    }
    ghost var done;
    r, count, done := SelectEach(schema, db, q, src, ctx, k, g.value, E, v, rows, names, sure);
    T := Next(src[k], E, g.value, done);
    if r.Ok? {
      ListsSome(schema, rows, q, r.value, names, ChoiceOf(ctx), src[k], g.value, sure);
      NextRuns(schema, v, rows, q, names, ctx, T);
    }
  }

  lemma LeafRuns(schema: Schema, v: View, rows: Snapshot, q: Query, src: seq<string>, names: set<string>,
                 ctx: seq<Chosen>, a: Answer)
    requires QueryOk(schema, rows, q) && SourcesOk(src, names, ctx) && |ctx| == |src| && a.choice == ChoiceOf(ctx)
    ensures Runs(schema, v, rows, q, names, ctx, Leaf) && ChoicesIn([a]) == Choices(Leaf, ChoiceOf(ctx))
  {
    AllChosen(src, names, ctx);
  }

  lemma AllChosen(src: seq<string>, names: set<string>, ctx: seq<Chosen>)
    requires SourcesOk(src, names, ctx) && |ctx| == |src|
    ensures ChoiceOf(ctx).Keys == names
  {
    ChoiceHas(ctx);
    forall n | n in names ensures n in ChoiceOf(ctx) {
      var i :| 0 <= i < |src| && src[i] == n;
      assert ctx[i].name == n;
    }
  }

  // What ChooseTable says of places in the source, said of names.
  lemma PickedHere(schema: Schema, db: map<string, Source>, v: View, rows: Snapshot, q: Query, src: seq<string>,
                   names: set<string>, ctx: seq<Chosen>, k: nat, E: seq<Predicate>)
    requires Standing(schema, rows, q, src, names, ctx) && |ctx| <= k < |src|
    requires AllWellFormed(schema, q.preds) && ContextFits(schema, ctx) && v == ViewOf(schema, db, rows)
    requires forall i :: 0 <= i < |src| ==> src[i] in db && src[i] in schema
    requires Extraction(schema, db[src[k]].table.recordCount, src[k], ctx, q.preds, E)
    requires forall i :: |ctx| <= i < |src| ==>
               var best := Score(schema[src[k]], db[src[k]].table.recordCount, E);
               ScoresFrom(schema, db[src[i]].table.recordCount, src[i], ctx, q.preds, if i > k then best + 1 else best)
    ensures Picked(schema, v, q, names, ctx, src[k], E)
  {
    hide *;
    StandingIs(schema, rows, q, src, names, ctx);
    NotChosen(src, names, ctx, k);
    CountsAre(schema, db, rows);
    var best := Score(schema[src[k]], db[src[k]].table.recordCount, E);
    forall n | n in names && n !in ChoiceOf(ctx)
      ensures n in schema && n in v.counts && ScoresFrom(schema, v.counts[n], n, ctx, q.preds, best)
    {
      var i := PlaceOf(src, names, ctx, n);
      ScoresLess(schema, db[src[i]].table.recordCount, src[i], ctx, q.preds, if i > k then best + 1 else best, best);
    }
    PickedIs(schema, v, q, names, ctx, src[k], E);
  }

  lemma CountsAre(schema: Schema, db: map<string, Source>, rows: Snapshot)
    ensures forall n :: n in db ==>
              n in ViewOf(schema, db, rows).counts && ViewOf(schema, db, rows).counts[n] == db[n].table.recordCount
  {
  }

  lemma PlaceOf(src: seq<string>, names: set<string>, ctx: seq<Chosen>, n: string) returns (i: nat)
    requires SourcesOk(src, names, ctx) && n in names && n !in ChoiceOf(ctx)
    ensures |ctx| <= i < |src| && src[i] == n
  {
    ChoiceHas(ctx);
    i :| 0 <= i < |src| && src[i] == n;
    assert forall j :: 0 <= j < |ctx| ==> ctx[j].name in ChoiceOf(ctx);
  }

  lemma PickedIs(schema: Schema, v: View, q: Query, names: set<string>, ctx: seq<Chosen>, name: string,
                 E: seq<Predicate>)
    requires AllWellFormed(schema, q.preds) && ContextFits(schema, ctx)
    requires name in names && name !in ChoiceOf(ctx) && name in schema && name in v.counts
    requires Extraction(schema, v.counts[name], name, ctx, q.preds, E)
    requires forall n :: n in names && n !in ChoiceOf(ctx) ==>
               n in schema && n in v.counts &&
               ScoresFrom(schema, v.counts[n], n, ctx, q.preds, Score(schema[name], v.counts[name], E))
    ensures Picked(schema, v, q, names, ctx, name, E)
  {
    hide ScoresFrom, Score, Extraction, AllWellFormed, ContextFits;
  }

  lemma LostBreaks(schema: Schema, v: View, rows: Snapshot, q: Query, names: set<string>, ctx: seq<Chosen>,
                   name: string, E: seq<Predicate>)
    requires QueryOk(schema, rows, q) && Picked(schema, v, q, names, ctx, name, E) && (name, E) in v.failing
    ensures Breaks(schema, v, rows, q, names, ctx, Lost(name, E))
  {
    hide Picked, QueryOk;
  }

  lemma NextRuns(schema: Schema, v: View, rows: Snapshot, q: Query, names: set<string>, ctx: seq<Chosen>, T: Trace)
    requires QueryOk(schema, rows, q) && T.Next? && |T.after| == |T.rids|
    requires Step(schema, v, rows, q, names, ctx, T.name, T.E, T.rids)
    requires RunsUpTo(schema, v, rows, q, names, ctx, T, |T.rids|)
    ensures Runs(schema, v, rows, q, names, ctx, T)
    ensures Choices(T, ChoiceOf(ctx)) == ChoicesUpTo(T, ChoiceOf(ctx), |T.rids|)
  {
    hide Step, RunsUpTo, QueryOk, ChoicesUpTo;
  }

  lemma TablesIn(schema: Schema, db: map<string, Source>, rows: Snapshot)
    requires DatabaseOk(schema, db, rows)
    ensures forall n :: n in schema ==> n in db
  {
  }

  lemma ListsSome(schema: Schema, rows: Snapshot, q: Query, out: seq<Answer>, names: set<string>, m: Choice,
                  name: string, R: seq<Rid>, all: bool)
    requires QueryOk(schema, rows, q) && Lists(schema, rows, q, out, GoalsWith(schema, rows, q, names, m, name, R), all)
    requires all ==> GoalsWith(schema, rows, q, names, m, name, R) == Goals(schema, rows, q, names, m)
    ensures Lists(schema, rows, q, out, Goals(schema, rows, q, names, m), all)
  {
    hide Goals, QueryOk, Project;
  }

  /** Goes on with every gathered record of the chosen table. */
  method SelectEach(schema: Schema, db: map<string, Source>, q: Query, src: seq<string>, ctx: seq<Chosen>, k: nat,
                    rids: seq<Rid>, ghost E: seq<Predicate>, ghost v: View,
                    ghost rows: Snapshot, ghost names: set<string>, ghost sure: bool)
    returns (r: Result<seq<Answer>, TableError>, count: nat, ghost done: seq<Trace>)
    requires Standing(schema, rows, q, src, names, ctx) && DatabaseOk(schema, db, rows)
    requires QueryOk(schema, rows, q) && |ctx| <= k < |src| && (sure ==> AllReliable(schema, db, names, q.preds))
    requires v == ViewOf(schema, db, rows) && Step(schema, v, rows, q, names, ctx, src[k], E, rids)
    ensures r.Ok? ==>
              && count == |r.value|
              && Lists(schema, rows, q, r.value, GoalsWith(schema, rows, q, names, ChoiceOf(ctx), src[k], rids), sure)
    ensures r.Ok? ==>
              var T := Next(src[k], E, rids, done);
              && |done| == |rids| && RunsUpTo(schema, v, rows, q, names, ctx, T, |rids|)
              && ChoicesIn(r.value) == ChoicesUpTo(T, ChoiceOf(ctx), |rids|)
    ensures r.Err? ==>
              && Breaks(schema, v, rows, q, names, ctx, Next(src[k], E, rids, done))
              && r.error == RecordOffsetOutOfRange
    ensures sure ==> r.Ok?
    decreases |src| - |ctx|, 0
  {
    hide *;
    StandingIs(schema, rows, q, src, names, ctx);
    TableIn(schema, db, rows, src[k]);
    StepChooses(schema, v, rows, q, names, ctx, src[k], E, rids);
    var out: seq<Answer> := [];
    count, done := 0, [];
    ListsNone(schema, rows, q, names, ChoiceOf(ctx), src[k], sure);
    NoneRun(schema, v, rows, q, names, ctx, Next(src[k], E, rids, []));
    Allocated(db);
    for i := 0 to |rids|
      invariant count == |out| && |done| == i
      invariant Lists(schema, rows, q, out, GoalsWith(schema, rows, q, names, ChoiceOf(ctx), src[k], rids[..i]), sure)
      invariant RunsUpTo(schema, v, rows, q, names, ctx, Next(src[k], E, rids, done), i)
      invariant ChoicesIn(out) == ChoicesUpTo(Next(src[k], E, rids, done), ChoiceOf(ctx), i)
    {
      Allocated(db);
      NextStanding(schema, rows, q, src, names, ctx, k, rids[i]);
      TableIn(schema, db, rows, src[k]);
      var row := ReadRow(schema[src[k]], db[src[k]], rows[src[k]], rids[i]);
      ghost var t;
      var sub, n;
      sub, n, t := SelectFromMultipleTables(schema, db, q, Reordered(src, |ctx|, k), ctx +
          [Chosen(src[k], rids[i], row)], v, rows, names, sure);
      if sub.Err? {
        OneBreaks(schema, v, rows, q, names, ctx, src[k], E, rids, done, t);
        return sub, 0, done + [t];
      }
      OneRuns(schema, v, rows, q, names, ctx, src[k], E, rids, done, t, out, sub.value);
      OneMore(rids, i);
      GoalsSplit(schema, rows, q, names, ChoiceOf(ctx), src[k], rids[..i], rids[i]);
      ListsBoth(schema, rows, q, out, sub.value, GoalsWith(schema, rows, q, names, ChoiceOf(ctx), src[k], rids[..i]),
                Goals(schema, rows, q, names, ChoiceOf(ctx)[src[k] := rids[i]]), sure);
      out, done := out + sub.value, done + [t];
      count := count + n;
    }
    assert rids[..|rids|] == rids;
    r := Result.Ok(out);
  }

  lemma StepChooses(schema: Schema, v: View, rows: Snapshot, q: Query, names: set<string>, ctx: seq<Chosen>,
                    name: string, E: seq<Predicate>, rids: seq<Rid>)
    requires QueryOk(schema, rows, q) && Step(schema, v, rows, q, names, ctx, name, E, rids)
    ensures NoneTwice(rids) && forall r :: r in rids ==> Choosable(schema, rows, q, ctx, name, r)
  {
    hide Picked, Choosable, NoneTwice, QueryOk, InPlanOrder;
  }

  lemma NoneRun(schema: Schema, v: View, rows: Snapshot, q: Query, names: set<string>, ctx: seq<Chosen>, T: Trace)
    requires QueryOk(schema, rows, q) && T.Next?
    ensures RunsUpTo(schema, v, rows, q, names, ctx, T, 0)
    ensures ChoicesIn([]) == ChoicesUpTo(T, ChoiceOf(ctx), 0)
  {
    hide QueryOk;
  }

  lemma OneRuns(schema: Schema, v: View, rows: Snapshot, q: Query, names: set<string>, ctx: seq<Chosen>,
                name: string, E: seq<Predicate>, rids: seq<Rid>, done: seq<Trace>, t: Trace, out: seq<Answer>,
                sub: seq<Answer>)
    requires QueryOk(schema, rows, q) && |done| < |rids| && name in rows && rids[|done|] in rows[name]
    requires RunsUpTo(schema, v, rows, q, names, ctx, Next(name, E, rids, done), |done|)
    requires var r := rids[|done|]; Runs(schema, v, rows, q, names, ctx + [Chosen(name, r, rows[name][r])], t)
    requires ChoicesIn(out) == ChoicesUpTo(Next(name, E, rids, done), ChoiceOf(ctx), |done|)
    requires ChoicesIn(sub) == Choices(t, ChoiceOf(ctx)[name := rids[|done|]])
    ensures RunsUpTo(schema, v, rows, q, names, ctx, Next(name, E, rids, done + [t]), |done| + 1)
    ensures ChoicesIn(out + sub) == ChoicesUpTo(Next(name, E, rids, done + [t]), ChoiceOf(ctx), |done| + 1)
  {
    hide Runs, QueryOk, Choices;
    MoreChoices(name, E, rids, done, t, ChoiceOf(ctx), |done|);
    var T, U := Next(name, E, rids, done), Next(name, E, rids, done + [t]);
    RunsSame(schema, v, rows, q, names, ctx, T, U, |done|);
    assert RunsAt(schema, v, rows, q, names, ctx, U, |done|);
  }

  // The choices of the first records do not depend on what comes behind.
  lemma {:induction false} MoreChoices(name: string, E: seq<Predicate>, rids: seq<Rid>, done: seq<Trace>, t: Trace,
                                       m: Choice, k: nat)
    requires k <= |done| < |rids|
    ensures ChoicesUpTo(Next(name, E, rids, done + [t]), m, k) == ChoicesUpTo(Next(name, E, rids, done), m, k)
  {
    if k > 0 {
      MoreChoices(name, E, rids, done, t, m, k - 1);
    }
  }

  lemma OneBreaks(schema: Schema, v: View, rows: Snapshot, q: Query, names: set<string>, ctx: seq<Chosen>,
                  name: string, E: seq<Predicate>, rids: seq<Rid>, done: seq<Trace>, t: Trace)
    requires QueryOk(schema, rows, q) && |done| < |rids| && name in rows && rids[|done|] in rows[name]
    requires Step(schema, v, rows, q, names, ctx, name, E, rids)
    requires RunsUpTo(schema, v, rows, q, names, ctx, Next(name, E, rids, done), |done|)
    requires var r := rids[|done|]; Breaks(schema, v, rows, q, names, ctx + [Chosen(name, r, rows[name][r])], t)
    ensures Breaks(schema, v, rows, q, names, ctx, Next(name, E, rids, done + [t]))
  {
    hide *;
    RunsSame(schema, v, rows, q, names, ctx, Next(name, E, rids, done), Next(name, E, rids, done + [t]), |done|);
    BreaksHere(schema, v, rows, q, names, ctx, Next(name, E, rids, done + [t]));
  }

  lemma RunsSame(schema: Schema, v: View, rows: Snapshot, q: Query, names: set<string>, ctx: seq<Chosen>, T: Trace,
                 U: Trace, k: nat)
    requires QueryOk(schema, rows, q) && T.Next? && U.Next? && T.name == U.name && T.rids == U.rids
    requires k <= |T.rids| && k <= |T.after| && k <= |U.after| && forall i :: 0 <= i < k ==> T.after[i] == U.after[i]
    requires RunsUpTo(schema, v, rows, q, names, ctx, T, k)
    ensures RunsUpTo(schema, v, rows, q, names, ctx, U, k)
  {
    hide Runs, QueryOk;
    forall i: nat | i < k ensures RunsAt(schema, v, rows, q, names, ctx, U, i) {
      assert RunsAt(schema, v, rows, q, names, ctx, T, i);
    }
  }

  lemma BreaksHere(schema: Schema, v: View, rows: Snapshot, q: Query, names: set<string>, ctx: seq<Chosen>, T: Trace)
    requires QueryOk(schema, rows, q) && T.Next? && 0 < |T.after| <= |T.rids|
    requires Step(schema, v, rows, q, names, ctx, T.name, T.E, T.rids)
    requires var k := |T.after| - 1;
             && RunsUpTo(schema, v, rows, q, names, ctx, T, k) && T.name in rows && T.rids[k] in rows[T.name]
             && Breaks(schema, v, rows, q, names, ctx + [Chosen(T.name, T.rids[k], rows[T.name][T.rids[k]])],
                       T.after[k])
    ensures Breaks(schema, v, rows, q, names, ctx, T)
  {
    hide Step, RunsUpTo, QueryOk;
  }

  lemma OneMore(rids: seq<Rid>, i: nat)
    requires NoneTwice(rids) && i < |rids|
    ensures rids[..i + 1] == rids[..i] + [rids[i]] && rids[i] !in rids[..i]
  {
  }

  lemma StandingFirst(schema: Schema, rows: Snapshot, q: Query, src: seq<string>, names: set<string>)
    requires QueryOk(schema, rows, q) && Different(src)
    requires (forall i :: 0 <= i < |src| ==> src[i] in schema) && forall n :: n in names <==> n in src
    ensures ChoiceOf([]) == map[] && Standing(schema, rows, q, src, names, [])
    ensures ContextOk(rows, []) && Fits(schema, rows, q.preds, map[])
  {
    hide SnapshotOk;
  }

  ghost function NamesOf(src: seq<string>): (names: set<string>)
    ensures forall n :: n in names <==> n in src
  {
    set n | n in src
  }

  /** A selection from several different tables.  It goes by one run of the join, which at each step takes a table
      with the least score, and fails exactly where a scan of the run does.  Otherwise the answers are the rows of the
      filtered cross product whose records the run comes by, each once and in the order of the run, and the count is
      their number. They are all rows, and there is no error, whenever the predicates can bring about only sure index
      plans on the joined tables. */
  method SelectRecords(schema: Schema, db: map<string, Source>, q: Query, src: seq<string>, ghost rows: Snapshot)
    returns (r: Result<seq<Answer>, TableError>, count: nat, ghost T: Trace)
    requires QueryOk(schema, rows, q) && DatabaseOk(schema, db, rows)
    requires Different(src) && forall i :: 0 <= i < |src| ==> src[i] in schema
    ensures r.Ok? ==>
              && count == |r.value| && Runs(schema, ViewOf(schema, db, rows), rows, q, NamesOf(src), [], T)
              && ChoicesIn(r.value) == Choices(T, map[])
    ensures r.Ok? ==>
              Lists(schema, rows, q, r.value,
                    Visited(schema, ViewOf(schema, db, rows), rows, q, NamesOf(src), T), true)
    ensures r.Err? ==>
              && Breaks(schema, ViewOf(schema, db, rows), rows, q, NamesOf(src), [], T)
              && r.error == RecordOffsetOutOfRange
    ensures AllReliable(schema, db, NamesOf(src), q.preds) ==>
              r.Ok? && Lists(schema, rows, q, r.value, Goals(schema, rows, q, NamesOf(src), map[]), true)
    ensures r.Ok? && (forall i :: 0 <= i < |q.sel| ==> q.sel[i].0 in src) ==>
              forall j :: 0 <= j < |r.value| ==>
                && Picks(rows, r.value[j].choice) && |r.value[j].fields| == |q.sel|
                && forall i :: 0 <= i < |q.sel| ==> Shows(schema, rows, r.value[j], q.sel[i], r.value[j].fields[i])
  {
    hide *;
    ghost var names := NamesOf(src);
    ghost var sure := AllReliable(schema, db, names, q.preds);
    ghost var v := ViewOf(schema, db, rows);
    StandingFirst(schema, rows, q, src, names);
    Allocated(db);
    r, count, T := SelectFromMultipleTables(schema, db, q, src, [], v, rows, names, sure);
    if r.Ok? {
      ListsVisited(schema, v, rows, q, names, T, r.value, sure);
      AllShown(schema, rows, q, names, r.value, sure);
    }
  }

  /** The rows of the filtered cross product that a run comes by. */
  ghost function Visited(schema: Schema, v: View, rows: Snapshot, q: Query, names: set<string>, T: Trace): iset<Choice>
    requires QueryOk(schema, rows, q)
  {
    iset a | a in Goals(schema, rows, q, names, map[]) && Reached(v, T, a)
  }

  lemma ListsVisited(schema: Schema, v: View, rows: Snapshot, q: Query, names: set<string>, T: Trace,
                     out: seq<Answer>, all: bool)
    requires QueryOk(schema, rows, q) && Runs(schema, v, rows, q, names, [], T) && ContextOk(rows, [])
    requires ChoiceOf([]) == map[] && Fits(schema, rows, q.preds, map[]) && ChoicesIn(out) == Choices(T, map[])
    requires Lists(schema, rows, q, out, Goals(schema, rows, q, names, map[]), all)
    ensures Lists(schema, rows, q, out, Visited(schema, v, rows, q, names, T), true)
  {
    forall a: Choice
      ensures IsChoice(out, a) <==> a in Goals(schema, rows, q, names, map[]) && Reached(v, T, a)
    {
      hide *;
      RunExact(schema, v, rows, q, names, [], T, a);
      ChoicesInAre(out, a);
    }
    hide Goals, Reached, Runs, QueryOk, Picks, Project, Fits, Choices;
    forall i | 0 <= i < |out| ensures out[i].choice in Visited(schema, v, rows, q, names, T) {
      assert IsChoice(out, out[i].choice);
    }
  }

  lemma ChoicesInAre(out: seq<Answer>, a: Choice)
    ensures a in ChoicesIn(out) <==> IsChoice(out, a)
  {
    if IsChoice(out, a) {
      var i :| 0 <= i < |out| && out[i].choice == a;
      assert ChoicesIn(out)[i] == a;
    }
  }

  lemma AllShown(schema: Schema, rows: Snapshot, q: Query, names: set<string>, out: seq<Answer>, all: bool)
    requires QueryOk(schema, rows, q) && Lists(schema, rows, q, out, Goals(schema, rows, q, names, map[]), all)
    ensures (forall i :: 0 <= i < |q.sel| ==> q.sel[i].0 in names) ==>
              forall j :: 0 <= j < |out| ==>
                && Picks(rows, out[j].choice) && |out[j].fields| == |q.sel|
                && forall i :: 0 <= i < |q.sel| ==> Shows(schema, rows, out[j], q.sel[i], out[j].fields[i])
  {
    hide SnapshotOk, AllWellFormed, SelOk, Project, Shows, Fits;
    if forall i :: 0 <= i < |q.sel| ==> q.sel[i].0 in names {
      forall j | 0 <= j < |out|
        ensures Picks(rows, out[j].choice) && |out[j].fields| == |q.sel|
        ensures forall i :: 0 <= i < |q.sel| ==> Shows(schema, rows, out[j], q.sel[i], out[j].fields[i])
      {
        ProjectShows(schema, rows, q, out[j]);
      }
    }
  }
}
