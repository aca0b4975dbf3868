/** The recursive join, which picks the next table anew for every context (src/query/query_engine.cpp). */
module Join {
  import opened Wrappers
  import opened Rows
  import opened Plans
  import opened TableFiles
  import opened RecordTable
  import opened Gather
  import opened JoinSpec
  import opened Reports
  import BPlusIndex

  /** A table of the database with its indexes by column. */
  datatype Source = Source(table: Table, indexes: map<nat, BPlusIndex.Index>)

  /** The rows of a table, with every index in step with them. */
  ghost predicate SourceOk(desc: Descriptor, s: Source, rows: RowMap)
    reads s.table, s.table.repr, s.indexes.Values, set i, o | i in s.indexes.Values && o in i.repr :: o
  {
    && s.table.Valid() && rows == s.table.Contents() && RowsOk(desc, rows) && LengthsOk(desc)
    && forall c: nat :: c < |desc| && desc[c].indexed ==>
         && c in s.indexes && s.indexes[c].Valid() && s.indexes[c].unique == desc[c].unique
         && Agrees(s.indexes[c].Contents(), desc, rows, c)
  }

  // ---------------------------------------------------------------- extracting and sorting

  method FindRow(ctx: seq<Chosen>, name: string) returns (row: Option<Row>)
    ensures row == RowIn(ctx, name)
  {
    for i := 0 to |ctx|
      invariant RowIn(ctx, name) == RowIn(ctx[i..], name)
    {
      if ctx[i].name == name {
        return Some(ctx[i].row);
      }
    }
    row := None;
  }

  method ExtractFor(schema: Schema, count: nat, name: string, ctx: seq<Chosen>, p: ColumnPredicate)
    returns (E: seq<Predicate>)
    requires name in schema && WellFormed(schema, p) && ContextFits(schema, ctx)
    ensures E == Extract(schema, count, name, ctx, p)
  {
    var desc := schema[name];
    E := [];
    if p.table == name {  // as lhs
      match p.rhs {
        case NoValue => E := [Planned(desc, count, p.column, p.op, None)];
        case Value(v) => E := [Planned(desc, count, p.column, p.op, Some(v))];
        case Column(t, c) =>
          var row := FindRow(ctx, t);  // find it if it is already in context
          ChosenFits(schema, ctx, t);
          if row.Some? {
            E := [Planned(desc, count, p.column, p.op, CellValue(schema[t], row.value, c))];
          }
      }
    } else if p.rhs.Column? && p.rhs.table == name {  // as rhs
      var row := FindRow(ctx, p.table);
      ChosenFits(schema, ctx, p.table);
      if row.Some? {
        E := [Planned(desc, count, p.rhs.column, Reversed(p.op), CellValue(schema[p.table], row.value, p.column))];
      }
    }
  }

  ghost predicate ByCost(E: seq<Predicate>) {
    forall i, j :: 0 <= i < j < |E| ==> E[i].cost <= E[j].cost
  }

  method SortByCost(E: seq<Predicate>) returns (s: seq<Predicate>)
    ensures ByCost(s) && multiset(s) == multiset(E)
  {
    s := [];
    for i := 0 to |E|
      invariant ByCost(s) && multiset(s) == multiset(E[..i])
    {
      var k := |s|;
      while k > 0 && s[k - 1].cost > E[i].cost
        invariant 0 <= k <= |s| && forall j :: k <= j < |s| ==> E[i].cost < s[j].cost
      {
        k := k - 1;
      }
      Placed(s, k, E[i]);
      assert E[..i + 1] == E[..i] + [E[i]];
      s := s[..k] + [E[i]] + s[k..];
    }
    assert E[..|E|] == E;
  }

  lemma Placed(s: seq<Predicate>, k: nat, p: Predicate)
    requires k <= |s| && ByCost(s)
    requires (k > 0 ==> s[k - 1].cost <= p.cost) && forall j :: k <= j < |s| ==> p.cost < s[j].cost
    ensures ByCost(s[..k] + [p] + s[k..]) && multiset(s[..k] + [p] + s[k..]) == multiset(s) + multiset{p}
  {
    PlacedOrdered(s, k, p, s[..k] + [p] + s[k..]);
    PlacedElements(s[..k], s[k..], p);
    assert s == s[..k] + s[k..];
  }

  lemma PlacedOrdered(s: seq<Predicate>, k: nat, p: Predicate, t: seq<Predicate>)
    requires k <= |s| && ByCost(s) && |t| == |s| + 1
    requires forall i :: 0 <= i < |t| ==> t[i] == if i < k then s[i] else if i == k then p else s[i - 1]
    requires (k > 0 ==> s[k - 1].cost <= p.cost) && forall j :: k <= j < |s| ==> p.cost < s[j].cost
    ensures ByCost(t)
  {
    forall i, j | 0 <= i < j < |t| ensures t[i].cost <= t[j].cost {
      assert t[i] == if i < k then s[i] else if i == k then p else s[i - 1];
      assert t[j] == if j < k then s[j] else if j == k then p else s[j - 1];
      if i < k {
        assert i == k - 1 || s[i].cost <= s[k - 1].cost;
        if j < k {
          assert s[i].cost <= s[j].cost;
        } else if j > k { assert s[i].cost <= s[j - 1].cost; }
      } else if i == k {
        assert p.cost < s[j - 1].cost;
      } else {
        assert s[i - 1].cost <= s[j - 1].cost;
      }
    }
  }

  lemma PlacedElements(a: seq<Predicate>, b: seq<Predicate>, p: Predicate)
    ensures multiset(a + [p] + b) == multiset(a + b) + multiset{p}
  {
  }

  /** The predicates extracted for a table, planned and sorted by cost. */
  ghost predicate Extraction(schema: Schema, count: nat, name: string, ctx: seq<Chosen>, preds: seq<ColumnPredicate>,
                             E: seq<Predicate>)
    requires name in schema && AllWellFormed(schema, preds) && ContextFits(schema, ctx)
  {
    Prepared(schema[name], count, E) && multiset(E) == multiset(Extracted(schema, count, name, ctx, preds))
  }

  method ExtractContextualPredicates(schema: Schema, count: nat, name: string, ctx: seq<Chosen>,
                                     preds: seq<ColumnPredicate>)
    returns (E: seq<Predicate>)
    requires name in schema && AllWellFormed(schema, preds) && ContextFits(schema, ctx)
    ensures Extraction(schema, count, name, ctx, preds, E)
  {
    hide Extract, ContextFits;
    var raw := [];
    for i := 0 to |preds|
      invariant AllWellFormed(schema, preds[..i]) && raw == Extracted(schema, count, name, ctx, preds[..i])
    {
      var more := ExtractFor(schema, count, name, ctx, preds[i]);
      assert preds[..i + 1][..i] == preds[..i] && preds[..i + 1][i] == preds[i];
      raw := raw + more;
    }
    assert preds[..|preds|] == preds;
    E := SortByCost(raw);
    ExtractedPlanned(schema, count, name, ctx, preds);
    SortedPlanned(schema[name], count, raw, E);
  }

  ghost predicate AllPlanned(desc: Descriptor, count: nat, E: seq<Predicate>) {
    forall p :: p in E ==> p.column < |desc| && p == Planned(desc, count, p.column, p.op, p.operand)
  }

  lemma {:induction false} ExtractedPlanned(schema: Schema, count: nat, name: string, ctx: seq<Chosen>,
                                            preds: seq<ColumnPredicate>)
    requires name in schema && AllWellFormed(schema, preds) && ContextFits(schema, ctx)
    ensures AllPlanned(schema[name], count, Extracted(schema, count, name, ctx, preds))
  {
    if preds != [] {
      ExtractedPlanned(schema, count, name, ctx, preds[..|preds| - 1]);
      var p := preds[|preds| - 1];
      ChosenFits(schema, ctx, p.table);
    }
  }

  lemma SortedPlanned(desc: Descriptor, count: nat, raw: seq<Predicate>, E: seq<Predicate>)
    requires AllPlanned(desc, count, raw) && ByCost(E) && multiset(E) == multiset(raw)
    ensures Prepared(desc, count, E)
  {
    forall i | 0 <= i < |E| ensures E[i] in raw {
      assert E[i] in multiset(E);
    }
  }

  /** Sorting does not change which records satisfy all predicates. */
  lemma ExtractionSatisfied(schema: Schema, count: nat, name: string, ctx: seq<Chosen>, preds: seq<ColumnPredicate>,
                            E: seq<Predicate>, row: Row)
    requires name in schema && AllWellFormed(schema, preds) && ContextFits(schema, ctx) && FitsRow(schema[name], row)
    requires Extraction(schema, count, name, ctx, preds, E)
    requires ColumnsOk(schema[name], Extracted(schema, count, name, ctx, preds))
    ensures ColumnsOk(schema[name], E)
    ensures SatisfiesAll(schema[name], row, E) <==>
              SatisfiesAll(schema[name], row, Extracted(schema, count, name, ctx, preds))
  {
    hide Extracted, Satisfies;
    var raw := Extracted(schema, count, name, ctx, preds);
    if SatisfiesAll(schema[name], row, E) {
      SamePredicates(schema[name], row, E, raw);
    } else if SatisfiesAll(schema[name], row, raw) {
      SamePredicates(schema[name], row, raw, E);
    }
  }

  lemma SamePredicates(desc: Descriptor, row: Row, D: seq<Predicate>, E: seq<Predicate>)
    requires multiset(D) == multiset(E) && ColumnsOk(desc, D) && ColumnsOk(desc, E) && FitsRow(desc, row)
    requires SatisfiesAll(desc, row, D)
    ensures SatisfiesAll(desc, row, E)
  {
    hide Satisfies;
    forall i | 0 <= i < |E| ensures Satisfies(desc, row, E[i]) {
      assert E[i] in multiset(D);
      var j :| 0 <= j < |D| && D[j] == E[i];
    }
  }

  // ---------------------------------------------------------------- gathering for the next table

  predicate RangeOp(op: Op) { LowerOp(op) || UpperOp(op) }

  /** A predicate read from the side of one table: the column it is on and the comparison, turned round on the right. */
  datatype Reading = Reading(column: nat, op: Op)

  /** How a predicate bears on a table in a join of the named tables, if it does. */
  function ReadingOf(p: ColumnPredicate, name: string, names: set<string>): Option<Reading> {
    if p.table == name then
      if p.rhs.Column? && (p.rhs.table !in names || p.rhs.table == name) then None else Some(Reading(p.column, p.op))
    else if p.rhs.Column? && p.rhs.table == name && p.table in names then Some(Reading(p.rhs.column, Reversed(p.op)))
    else None
  }

  ghost predicate InContext(ctx: seq<Chosen>, names: set<string>, name: string) {
    name !in ChoiceOf(ctx) && forall n :: n in ChoiceOf(ctx) ==> n in names
  }

  /** Whatever is extracted for a table is the reading of some predicate. */
  lemma {:induction false} ExtractedReading(schema: Schema, count: nat, name: string, names: set<string>,
                                            ctx: seq<Chosen>,
                                            preds: seq<ColumnPredicate>, q: Predicate) returns (i: nat)
    requires name in schema && AllWellFormed(schema, preds) && ContextFits(schema, ctx) && InContext(ctx, names, name)
    requires q in Extracted(schema, count, name, ctx, preds)
    ensures i < |preds| && ReadingOf(preds[i], name, names) == Some(Reading(q.column, q.op))
  {
    var rest, p := preds[..|preds| - 1], preds[|preds| - 1];
    if q in Extracted(schema, count, name, ctx, rest) {
      i := ExtractedReading(schema, count, name, names, ctx, rest, q);
    } else {
      i := |preds| - 1;
      ChosenFits(schema, ctx, p.table);
      ChosenIn(ctx, names, name, p.table);
      if p.rhs.Column? { ChosenIn(ctx, names, name, p.rhs.table); }
    }
  }

  lemma ChosenIn(ctx: seq<Chosen>, names: set<string>, name: string, t: string)
    requires InContext(ctx, names, name)
    ensures RowIn(ctx, t).Some? ==> t in names && t != name
  {
    RowInIs(ctx, t);
    ChoiceHas(ctx);
  }

  /** All index plans that the predicates can bring about for a table are sure.  For every predicate on an indexed
      column that bears on it: an equality on a column that is not unique needs all seeks in the index to be right; a
      range predicate needs all other range predicates to be on its column, and all seeks to be right unless they are
      all upper bounds. */
  ghost predicate Reliable(desc: Descriptor, s: Source, name: string, names: set<string>, preds: seq<ColumnPredicate>)
    reads s.indexes.Values, set i, o | i in s.indexes.Values && o in i.repr :: o
  {
    forall i :: 0 <= i < |preds| ==> ReliableFor(desc, s, name, names, preds, ReadingOf(preds[i], name, names))
  }

  ghost predicate ReliableFor(desc: Descriptor, s: Source, name: string, names: set<string>,
                              preds: seq<ColumnPredicate>,
                              reading: Option<Reading>)
    reads s.indexes.Values, set i, o | i in s.indexes.Values && o in i.repr :: o
  {
    reading.Some? && reading.value.column < |desc| && desc[reading.value.column].indexed ==>
      var c := reading.value.column;
      && (reading.value.op == Equal && !desc[c].unique ==> SeeksRightIn(s, c))
      && (RangeOp(reading.value.op) ==>
            && RangesOn(preds, name, names, c)
            && (SeeksRightIn(s, c) || NoLowerReading(preds, name, names)))
  }

  ghost predicate SeeksRightIn(s: Source, c: nat)
    reads s.indexes.Values, set i, o | i in s.indexes.Values && o in i.repr :: o
  {
    c in s.indexes && s.indexes[c].Valid() && s.indexes[c].AllSeeksRight()
  }

  ghost predicate RangesOn(preds: seq<ColumnPredicate>, name: string, names: set<string>, c: nat) {
    forall j :: 0 <= j < |preds| ==>
      var reading := ReadingOf(preds[j], name, names);
      reading.Some? && RangeOp(reading.value.op) ==> reading.value.column == c
  }

  ghost predicate NoLowerReading(preds: seq<ColumnPredicate>, name: string, names: set<string>) {
    forall j :: 0 <= j < |preds| ==>
      var reading := ReadingOf(preds[j], name, names);
      reading.Some? ==> !LowerOp(reading.value.op)
  }

  lemma ReadingIn(schema: Schema, count: nat, name: string, names: set<string>, ctx: seq<Chosen>,
                  preds: seq<ColumnPredicate>,
                  E: seq<Predicate>, i: nat) returns (a: nat)
    requires name in schema && AllWellFormed(schema, preds) && ContextFits(schema, ctx) && InContext(ctx, names, name)
    requires Extraction(schema, count, name, ctx, preds, E) && i < |E|
    ensures a < |preds| && ReadingOf(preds[a], name, names) == Some(Reading(E[i].column, E[i].op))
  {
    hide Extracted, Prepared, ReadingOf, InContext;
    assert E[i] in multiset(Extracted(schema, count, name, ctx, preds));
    a := ExtractedReading(schema, count, name, names, ctx, preds, E[i]);
  }

  /** On a reliable table every extracted index plan is sure. */
  lemma ReliableSure(schema: Schema, s: Source, rows: RowMap, name: string, names: set<string>, ctx: seq<Chosen>,
                     preds: seq<ColumnPredicate>, E: seq<Predicate>)
    requires name in schema && AllWellFormed(schema, preds) && ContextFits(schema, ctx) && InContext(ctx, names, name)
    requires SourceOk(schema[name], s, rows) && Extraction(schema, s.table.recordCount, name, ctx, preds, E)
    requires Reliable(schema[name], s, name, names, preds) && IndexPlan(E)
    ensures ColumnsOk(schema[name], E) && E[0].column in s.indexes && s.indexes[E[0].column].Valid()
    ensures Sure(schema[name], E, s.indexes[E[0].column])
  {
    hide *;
    var desc, count := schema[name], s.table.recordCount;
    ExtractionPrepared(schema, count, name, ctx, preds, E);
    PreparedColumns(desc, count, E);
    IndexPlanIs(E);
    PlanIndexed(desc, count, E);
    IndexOf(desc, s, rows, E[0].column);
    PlanOp(desc, count, E);
    var a := ReadingIn(schema, count, name, names, ctx, preds, E, 0);
    forall i | 0 <= i < |E|
      ensures exists b :: 0 <= b < |preds| && ReadingOf(preds[b], name, names) == Some(Reading(E[i].column, E[i].op))
    {
      var b := ReadingIn(schema, count, name, names, ctx, preds, E, i);
    }
    SureReading(desc, s, name, names, preds, a, E);
  }

  // What ReliableFor says of the driving predicate makes the plan sure.
  lemma SureReading(desc: Descriptor, s: Source, name: string, names: set<string>, preds: seq<ColumnPredicate>,
                    a: nat, E: seq<Predicate>)
    requires Reliable(desc, s, name, names, preds) && a < |preds| && ColumnsOk(desc, E) && IndexPlan(E)
    requires ReadingOf(preds[a], name, names) == Some(Reading(E[0].column, E[0].op))
    requires forall i :: 0 <= i < |E| ==>
               exists b :: 0 <= b < |preds| && ReadingOf(preds[b], name, names) == Some(Reading(E[i].column, E[i].op))
    requires desc[E[0].column].indexed && E[0].column in s.indexes && s.indexes[E[0].column].Valid()
    requires (E[0].plan == IndexSearch ==> E[0].op == Equal) && (E[0].plan == PartialIndexScan ==> RangeOp(E[0].op))
    ensures Sure(desc, E, s.indexes[E[0].column])
  {
    hide ReadingOf, BPlusIndex.Index.Valid, BPlusIndex.Index.AllSeeksRight;
    assert ReliableFor(desc, s, name, names, preds, ReadingOf(preds[a], name, names));
    if E[0].plan == PartialIndexScan {
      forall i | 0 <= i < |E| && RangeOp(E[i].op) ensures E[i].column == E[0].column {
        var b :| 0 <= b < |preds| && ReadingOf(preds[b], name, names) == Some(Reading(E[i].column, E[i].op));
      }
      if NoLowerReading(preds, name, names) {
        forall i | 0 <= i < |E| ensures !LowerOp(E[i].op) {
          var b :| 0 <= b < |preds| && ReadingOf(preds[b], name, names) == Some(Reading(E[i].column, E[i].op));
        }
      }
    }
  }

  lemma PlanOp(desc: Descriptor, count: nat, E: seq<Predicate>)
    requires Prepared(desc, count, E) && IndexPlan(E)
    ensures E[0].plan == IndexSearch ==> E[0].op == Equal
    ensures E[0].plan == PartialIndexScan ==> RangeOp(E[0].op)
  {
    assert E[0] == Planned(desc, count, E[0].column, E[0].op, E[0].operand);
  }

  lemma ExtractionPrepared(schema: Schema, count: nat, name: string, ctx: seq<Chosen>, preds: seq<ColumnPredicate>,
                           E: seq<Predicate>)
    requires name in schema && AllWellFormed(schema, preds) && ContextFits(schema, ctx)
    requires Extraction(schema, count, name, ctx, preds, E)
    ensures Prepared(schema[name], count, E)
  {
  }

  /** The plan, if it uses an index, is sure. */
  ghost predicate SureFrom(desc: Descriptor, s: Source, E: seq<Predicate>)
    reads s.indexes.Values, set i, o | i in s.indexes.Values && o in i.repr :: o
  {
    ColumnsOk(desc, E)
    && (IndexPlan(E) ==>
          E[0].column in s.indexes && s.indexes[E[0].column].Valid() && Sure(desc, E, s.indexes[E[0].column]))
  }

  /** The index that the plan asks for, if any. */
  function IndexFor(s: Source, E: seq<Predicate>): BPlusIndex.Index? {
    if IndexPlan(E) && E[0].column in s.indexes then s.indexes[E[0].column] else null
  }

  /** Gathers with the index that the plan asks for: exactly the selected records that the plan reaches, in its order,
      or an error exactly when its scan fails; nothing is missed by a full scan or a sure plan. */
  method GatherFrom(desc: Descriptor, s: Source, ghost rows: RowMap, E: seq<Predicate>)
    returns (g: Result<seq<Rid>, TableError>)
    requires SourceOk(desc, s, rows) && Prepared(desc, s.table.recordCount, E)
    ensures ColumnsOk(desc, E) && RowsOk(desc, rows) && Sound(desc, rows, E, g)
    ensures Reported(desc, rows, E, IndexFor(s, E), g)
    ensures SureFrom(desc, s, E) ==> Complete(desc, rows, E, g)
  {
    hide *;
    IndexThere(desc, s, rows, E);
    IndexForIs(s, E);
    var index := IndexFor(s, E);
    SourceReady(desc, s, rows, E, index);
    g := GatherValidSingleTableRecordOffsets(desc, s.table, index, E);
    SourceReady(desc, s, rows, E, index);
    GatheredReported(desc, rows, E, index, s.table.recordCount, g);
    GatheredSafe(desc, s, rows, E, index, g);
  }

  lemma IndexForIs(s: Source, E: seq<Predicate>)
    ensures IndexPlan(E) <==> E != [] && (E[0].plan == IndexSearch || E[0].plan == PartialIndexScan)
    ensures IndexPlan(E) && E[0].column in s.indexes ==> IndexFor(s, E) == s.indexes[E[0].column]
  {
  }

  lemma IndexPlanIs(E: seq<Predicate>)
    ensures IndexPlan(E) <==> E != [] && (E[0].plan == IndexSearch || E[0].plan == PartialIndexScan)
  {
  }

  lemma IndexThere(desc: Descriptor, s: Source, rows: RowMap, E: seq<Predicate>)
    requires SourceOk(desc, s, rows) && Prepared(desc, s.table.recordCount, E)
    ensures E != [] && (E[0].plan == IndexSearch || E[0].plan == PartialIndexScan) ==> E[0].column in s.indexes
  {
    hide *;
    if E != [] && (E[0].plan == IndexSearch || E[0].plan == PartialIndexScan) {
      PlanIndexed(desc, s.table.recordCount, E);
      IndexOf(desc, s, rows, E[0].column);
    }
  }

  lemma IndexOf(desc: Descriptor, s: Source, rows: RowMap, c: nat)
    requires SourceOk(desc, s, rows) && c < |desc| && desc[c].indexed
    ensures c in s.indexes && s.indexes[c].Valid()
  {
    hide Agrees, RowsOk;
  }

  lemma PlanIndexed(desc: Descriptor, count: nat, E: seq<Predicate>)
    requires Prepared(desc, count, E) && E != [] && (E[0].plan == IndexSearch || E[0].plan == PartialIndexScan)
    ensures E[0].column < |desc| && desc[E[0].column].indexed
  {
    assert E[0] == Planned(desc, count, E[0].column, E[0].op, E[0].operand);
  }

  lemma SourceReady(desc: Descriptor, s: Source, rows: RowMap, E: seq<Predicate>, index: BPlusIndex.Index?)
    requires SourceOk(desc, s, rows) && Prepared(desc, s.table.recordCount, E)
    requires IndexPlan(E) ==> E[0].column in s.indexes && index == s.indexes[E[0].column]
    ensures Ready(desc, s.table, index, E) && rows == s.table.Contents()
    ensures IndexPlan(E) ==>
              E[0].column < |desc| && index.Valid() && RowsOk(desc, rows) &&
              Agrees(index.Contents(), desc, rows, E[0].column)
  {
    hide Agrees, RowsOk, LengthsOk;
    if IndexPlan(E) {
      PlanIndexed(desc, s.table.recordCount, E);
    }
    hide Prepared;
  }

  lemma GatheredSafe(desc: Descriptor, s: Source, rows: RowMap, E: seq<Predicate>, index: BPlusIndex.Index?,
                     g: Result<seq<Rid>, TableError>)
    requires SourceOk(desc, s, rows) && Prepared(desc, s.table.recordCount, E)
    requires IndexPlan(E) ==> E[0].column in s.indexes && index == s.indexes[E[0].column]
    requires Gathered(desc, rows, E, index, g)
    ensures ColumnsOk(desc, E) && RowsOk(desc, rows) && Sound(desc, rows, E, g)
    ensures SureFrom(desc, s, E) ==> Complete(desc, rows, E, g)
  {
    hide Agrees, RowsOk, Sound, Complete, BetweenBounds, PlanSafe, Sure;
    if IndexPlan(E) && SureFrom(desc, s, E) {
      SafePlans(desc, E, index, E[0].column);
    }
  }
}
