/** How a join goes from table to table, and which rows of the filtered cross product it comes by
    (src/query/query_engine.cpp:656-709). */
module Traces {
  import opened Rows
  import opened Layout
  import opened Plans
  import opened TableFiles
  import opened Gather
  import opened JoinSpec
  import opened Join
  import opened Reports
  import opened Answers

  /** What the files of a database let a join find: the record counts of the tables, the records that gathering by some
      predicates comes by, and the gatherings that fail. */
  datatype View = View(counts: map<string, nat>, reached: iset<(string, seq<Predicate>, Rid)>,
                       failing: iset<(string, seq<Predicate>)>)

  ghost function ViewOf(schema: Schema, db: map<string, Source>, rows: Snapshot): View
    reads set n | n in db :: db[n].table,
          set n, i | n in db && i in db[n].indexes.Values :: i,
          set n, i, o | n in db && i in db[n].indexes.Values && o in i.repr :: o
  {
    View(map n | n in db :: db[n].table.recordCount,
         iset x: (string, seq<Predicate>, Rid) |
           x.0 in schema && x.0 in db && x.0 in rows && ReachedIn(schema[x.0], db[x.0], rows[x.0], x.1, x.2),
         iset x: (string, seq<Predicate>) | x.0 in schema && x.0 in db && FailingIn(schema[x.0], db[x.0], x.1))
  }

  ghost predicate ReachedIn(desc: Descriptor, s: Source, rows: RowMap, E: seq<Predicate>, r: Rid)
    reads s.indexes.Values, set i, o | i in s.indexes.Values && o in i.repr :: o
  {
    RowsOk(desc, rows) && ColumnsOk(desc, E) && ReachedBy(desc, rows, E, IndexFor(s, E), r)
  }

  ghost predicate FailingIn(desc: Descriptor, s: Source, E: seq<Predicate>)
    reads s.indexes.Values, set i, o | i in s.indexes.Values && o in i.repr :: o
  {
    ColumnsOk(desc, E) && FailsBy(desc, E, IndexFor(s, E))
  }

  /** The run of a join from some context: all tables are chosen, the scan of the next one fails, or it goes on with
      records of the next one, one after the other, up to a failure. */
  datatype Trace =
    | Leaf
    | Lost(name: string, E: seq<Predicate>)
    | Next(name: string, E: seq<Predicate>, rids: seq<Rid>, after: seq<Trace>)

  // ---------------------------------------------------------------- the next table

  /** The score of a table: the cost of its first predicate, or of reading it all. */
  function Score(desc: Descriptor, count: nat, E: seq<Predicate>): nat {
    if E == [] then TABLE_SCAN * RecordLength(desc) * count else E[0].cost
  }

  /** The score of the table is at least the given one: whatever is extracted for it costs as much, or reading it all
      does if nothing is. */
  ghost predicate ScoresFrom(schema: Schema, count: nat, name: string, ctx: seq<Chosen>, preds: seq<ColumnPredicate>,
                             score: int)
    requires name in schema && AllWellFormed(schema, preds) && ContextFits(schema, ctx)
  {
    var raw := Extracted(schema, count, name, ctx, preds);
    if raw == [] then score <= TABLE_SCAN * RecordLength(schema[name]) * count
    else forall p :: p in raw ==> score <= p.cost
  }

  /** The next table: of those not chosen yet one with the least score, and what is extracted for it. */
  ghost predicate Picked(schema: Schema, v: View, q: Query, names: set<string>, ctx: seq<Chosen>, name: string,
                         E: seq<Predicate>)
  {
    && AllWellFormed(schema, q.preds) && ContextFits(schema, ctx)
    && name in names && name !in ChoiceOf(ctx) && name in schema && name in v.counts
    && Extraction(schema, v.counts[name], name, ctx, q.preds, E)
    && forall n :: n in names && n !in ChoiceOf(ctx) ==>
         n in schema && n in v.counts &&
         ScoresFrom(schema, v.counts[n], n, ctx, q.preds, Score(schema[name], v.counts[name], E))
  }

  /** The records gathered of the next table: exactly those that go with the context and that the gathering comes by,
      each once and in the order of its plan. */
  ghost predicate Step(schema: Schema, v: View, rows: Snapshot, q: Query, names: set<string>, ctx: seq<Chosen>,
                       name: string, E: seq<Predicate>, rids: seq<Rid>)
    requires QueryOk(schema, rows, q)
  {
    && Picked(schema, v, q, names, ctx, name, E) && (name, E) !in v.failing
    && NoneTwice(rids)
    && (forall r :: r in rids <==> Choosable(schema, rows, q, ctx, name, r) && (name, E, r) in v.reached)
    && InPlanOrder(schema[name], rows[name], E, rids)
  }

  /** A run that comes to its end. */
  ghost predicate Runs(schema: Schema, v: View, rows: Snapshot, q: Query, names: set<string>, ctx: seq<Chosen>,
                       T: Trace)
    requires QueryOk(schema, rows, q)
    decreases T, 2
  {
    match T
    case Leaf => ChoiceOf(ctx).Keys == names
    case Lost(_, _) => false
    case Next(name, E, rids, after) =>
      && Step(schema, v, rows, q, names, ctx, name, E, rids) && |after| == |rids|
      && RunsUpTo(schema, v, rows, q, names, ctx, T, |rids|)
  }

  /** The runs with the first k records come to their ends. */
  ghost predicate RunsUpTo(schema: Schema, v: View, rows: Snapshot, q: Query, names: set<string>, ctx: seq<Chosen>,
                           T: Trace, k: nat)
    requires QueryOk(schema, rows, q) && T.Next? && k <= |T.rids| && k <= |T.after|
    decreases T, 1
  {
    forall i: nat :: i < k ==> RunsAt(schema, v, rows, q, names, ctx, T, i)
  }

  ghost predicate RunsAt(schema: Schema, v: View, rows: Snapshot, q: Query, names: set<string>, ctx: seq<Chosen>,
                         T: Trace, i: nat)
    requires QueryOk(schema, rows, q) && T.Next? && i < |T.rids| && i < |T.after|
    decreases T, 0
  {
    && T.name in rows && T.rids[i] in rows[T.name]
    && Runs(schema, v, rows, q, names, ctx + [Chosen(T.name, T.rids[i], rows[T.name][T.rids[i]])], T.after[i])
  }

  /** A run that fails at last. */
  ghost predicate Breaks(schema: Schema, v: View, rows: Snapshot, q: Query, names: set<string>, ctx: seq<Chosen>,
                         T: Trace)
    requires QueryOk(schema, rows, q)
    decreases T
  {
    match T
    case Leaf => false
    case Lost(name, E) => Picked(schema, v, q, names, ctx, name, E) && (name, E) in v.failing
    case Next(name, E, rids, after) =>
      && Step(schema, v, rows, q, names, ctx, name, E, rids) && 0 < |after| <= |rids|
      && var k := |after| - 1;
         RunsUpTo(schema, v, rows, q, names, ctx, T, k) && name in rows && rids[k] in rows[name] &&
         Breaks(schema, v, rows, q, names, ctx + [Chosen(name, rids[k], rows[name][rids[k]])], after[k])
  }

  // ---------------------------------------------------------------- what a run comes by

  /** The choices of a run, in its order. */
  ghost function Choices(T: Trace, m: Choice): seq<Choice>
    decreases T
  {
    match T
    case Leaf => [m]
    case Lost(_, _) => []
    case Next(_, _, rids, after) => if |after| == |rids| then ChoicesUpTo(T, m, |rids|) else []
  }

  ghost function ChoicesUpTo(T: Trace, m: Choice, k: nat): seq<Choice>
    requires T.Next? && k <= |T.rids| && k <= |T.after|
    decreases T, 0, k
  {
    if k == 0 then [] else ChoicesUpTo(T, m, k - 1) + Choices(T.after[k - 1], m[T.name := T.rids[k - 1]])
  }

  ghost function ChoicesIn(out: seq<Answer>): seq<Choice> {
    seq(|out|, i requires 0 <= i < |out| => out[i].choice)
  }

  /** On its way through the run, each record of the choice is come by. */
  ghost predicate Reached(v: View, T: Trace, a: Choice)
    decreases T
  {
    match T
    case Leaf => true
    case Lost(_, _) => false
    case Next(name, E, rids, after) =>
      && name in a && (name, E, a[name]) in v.reached
      && forall i :: 0 <= i < |rids| && i < |after| && rids[i] == a[name] ==> Reached(v, after[i], a)
  }

  lemma {:induction false} ChoicesAre(T: Trace, m: Choice, k: nat, a: Choice)
    requires T.Next? && k <= |T.rids| && k <= |T.after|
    ensures a in ChoicesUpTo(T, m, k) <==> exists i :: 0 <= i < k && a in Choices(T.after[i], m[T.name := T.rids[i]])
  {
    if k > 0 {
      ChoicesAre(T, m, k - 1, a);
    }
  }

  lemma OnlyGoal(schema: Schema, rows: Snapshot, q: Query, names: set<string>, m: Choice, a: Choice)
    requires QueryOk(schema, rows, q) && m.Keys == names && Fits(schema, rows, q.preds, m)
    ensures a in Goals(schema, rows, q, names, m) <==> a == m
  {
    if a in Goals(schema, rows, q, names, m) {
      assert forall n :: n in a ==> n in m;
    }
  }

  lemma NextContext(schema: Schema, v: View, rows: Snapshot, q: Query, names: set<string>, ctx: seq<Chosen>,
                    name: string, E: seq<Predicate>, rids: seq<Rid>, i: nat)
    requires QueryOk(schema, rows, q) && ContextOk(rows, ctx) && i < |rids|
    requires Step(schema, v, rows, q, names, ctx, name, E, rids)
    ensures name !in ChoiceOf(ctx) && name in rows && rids[i] in rows[name]
    ensures var next := ctx + [Chosen(name, rids[i], rows[name][rids[i]])];
            && ContextOk(rows, next) && ChoiceOf(next) == ChoiceOf(ctx)[name := rids[i]]
            && Fits(schema, rows, q.preds, ChoiceOf(next))
  {
    hide Fits, QueryOk, ContextOk;
    assert Choosable(schema, rows, q, ctx, name, rids[i]);
    MoreContext(rows, ctx, name, rids[i]);
  }

  lemma MoreContext(rows: Snapshot, ctx: seq<Chosen>, name: string, rid: Rid)
    requires ContextOk(rows, ctx) && name !in ChoiceOf(ctx) && name in rows && rid in rows[name]
    ensures var next := ctx + [Chosen(name, rid, rows[name][rid])];
            ContextOk(rows, next) && ChoiceOf(next) == ChoiceOf(ctx)[name := rid]
  {
    var next := ctx + [Chosen(name, rid, rows[name][rid])];
    ChoiceHas(ctx);
    assert next[..|ctx|] == ctx;
  }

  lemma GoalThrough(schema: Schema, rows: Snapshot, q: Query, names: set<string>, m: Choice, name: string, rid: Rid,
                    a: Choice)
    requires QueryOk(schema, rows, q) && name !in m
    ensures a in Goals(schema, rows, q, names, m[name := rid]) <==>
              a in Goals(schema, rows, q, names, m) && name in a && a[name] == rid
  {
    hide *;
    GoalsSplit(schema, rows, q, names, m, name, [], rid);
    GoalsWithIs(schema, rows, q, names, m, name, [], a);
    GoalsWithIs(schema, rows, q, names, m, name, [rid], a);
    assert [] + [rid] == [rid];
  }

  lemma GoalsWithIs(schema: Schema, rows: Snapshot, q: Query, names: set<string>, m: Choice, name: string, R: seq<Rid>,
                    a: Choice)
    requires QueryOk(schema, rows, q)
    ensures a in GoalsWith(schema, rows, q, names, m, name, R) <==>
              a in Goals(schema, rows, q, names, m) && name in a && a[name] in R
  {
  }

  // A goal whose record of the next table is come by goes through a gathered record.
  lemma GoalStep(schema: Schema, v: View, rows: Snapshot, q: Query, names: set<string>, ctx: seq<Chosen>,
                 name: string, E: seq<Predicate>, rids: seq<Rid>, a: Choice)
    requires QueryOk(schema, rows, q) && Step(schema, v, rows, q, names, ctx, name, E, rids)
    requires a in Goals(schema, rows, q, names, ChoiceOf(ctx)) && name in a && (name, E, a[name]) in v.reached
    ensures a[name] in rids
  {
    FitsPart(schema, rows, q.preds, a, ChoiceOf(ctx)[name := a[name]]);
    hide Picked, QueryOk;
    assert Choosable(schema, rows, q, ctx, name, a[name]);
  }

  lemma OneOf(schema: Schema, v: View, rows: Snapshot, q: Query, names: set<string>, ctx: seq<Chosen>,
              name: string, E: seq<Predicate>, rids: seq<Rid>, i: nat)
    requires QueryOk(schema, rows, q) && Step(schema, v, rows, q, names, ctx, name, E, rids) && i < |rids|
    ensures (name, E, rids[i]) in v.reached && forall j :: 0 <= j < |rids| && rids[j] == rids[i] ==> i == j
  {
    hide Picked, QueryOk, Choosable;
    assert rids[i] in rids;
  }

  /** What a run chooses: exactly the rows of the filtered cross product that extend its context and whose records it
      comes by. */
  lemma {:induction false} RunExact(schema: Schema, v: View, rows: Snapshot, q: Query, names: set<string>,
                                    ctx: seq<Chosen>, T: Trace, a: Choice)
    requires QueryOk(schema, rows, q) && ContextOk(rows, ctx) && Fits(schema, rows, q.preds, ChoiceOf(ctx))
    requires Runs(schema, v, rows, q, names, ctx, T)
    ensures a in Choices(T, ChoiceOf(ctx)) <==>
              a in Goals(schema, rows, q, names, ChoiceOf(ctx)) && Reached(v, T, a)
    decreases T
  {
    hide Fits, QueryOk, ContextOk, Step;
    var m := ChoiceOf(ctx);
    match T {
      case Leaf => OnlyGoal(schema, rows, q, names, m, a);
      case Next(name, E, rids, after) =>
        ChoicesAre(T, m, |rids|, a);
        forall i | 0 <= i < |rids|
          ensures a in Choices(after[i], m[name := rids[i]]) <==>
                    a in Goals(schema, rows, q, names, m) && name in a && a[name] == rids[i] && Reached(v, after[i], a)
        {
          NextContext(schema, v, rows, q, names, ctx, name, E, rids, i);
          assert RunsAt(schema, v, rows, q, names, ctx, T, i);
          var next := ctx + [Chosen(name, rids[i], rows[name][rids[i]])];
          RunExact(schema, v, rows, q, names, next, after[i], a);
          GoalThrough(schema, rows, q, names, m, name, rids[i], a);
        }
        if a in Goals(schema, rows, q, names, m) && Reached(v, T, a) {
          GoalStep(schema, v, rows, q, names, ctx, name, E, rids, a);
        } else if a in Choices(T, m) {
          var i :| 0 <= i < |rids| && a in Choices(after[i], m[name := rids[i]]);
          OneOf(schema, v, rows, q, names, ctx, name, E, rids, i);
        }
    }
  }
}
