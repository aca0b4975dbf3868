/** What a join of several tables means, and the predicates that its next table has to satisfy beside
    the records chosen so far (src/query/query_engine.cpp). */
module JoinSpec {
  import opened Wrappers
  import opened Rows
  import opened Plans
  import opened TableFiles
  import opened Gather

  type Schema = map<string, Descriptor>
  type Snapshot = map<string, RowMap>
  type Choice = map<string, Rid>      // a record of each of some tables

  datatype Operand = NoValue | Value(v: int) | Column(table: string, column: nat)

  /** A predicate of a query: on a column, against a value or a column of another table. */
  datatype ColumnPredicate = ColumnPredicate(table: string, column: nat, op: Op, rhs: Operand)

  /** A record chosen for a table: the context of the join. */
  datatype Chosen = Chosen(name: string, rid: Rid, row: Row)

  ghost predicate SnapshotOk(schema: Schema, rows: Snapshot) {
    schema.Keys == rows.Keys && forall n :: n in schema ==> RowsOk(schema[n], rows[n])
  }

  /** Columns exist, and exactly comparisons have a right side. */
  ghost predicate WellFormed(schema: Schema, p: ColumnPredicate) {
    && (p.table in schema ==> p.column < |schema[p.table]|)
    && (p.rhs.NoValue? <==> !Comparison(p.op))
    && (p.rhs.Column? && p.rhs.table in schema ==> p.rhs.column < |schema[p.rhs.table]|)
  }

  ghost predicate AllWellFormed(schema: Schema, preds: seq<ColumnPredicate>) {
    forall i :: 0 <= i < |preds| ==> WellFormed(schema, preds[i])
  }

  /** Predicates on tables that are not joined, and comparisons within one table, are ignored. */
  predicate Applies(p: ColumnPredicate, names: set<string>) {
    p.table in names && (p.rhs.Column? ==> p.rhs.table in names && p.rhs.table != p.table)
  }

  ghost predicate Picks(rows: Snapshot, a: Choice) {
    forall n :: n in a ==> n in rows && a[n] in rows[n]
  }

  function CellValue(desc: Descriptor, row: Row, c: nat): Option<int>
    requires c < |desc| && FitsRow(desc, row)
  {
    if IsNull(desc, row, c) then None else Some(row.values[c])
  }

  ghost predicate Meets(desc: Descriptor, row: Row, c: nat, op: Op, operand: Option<int>)
    requires c < |desc| && FitsRow(desc, row)
  {
    Satisfies(desc, row, Predicate(c, op, operand, ConstantEmpty, 0))
  }

  ghost predicate HoldsOf(schema: Schema, rows: Snapshot, p: ColumnPredicate, a: Choice)
    requires SnapshotOk(schema, rows) && WellFormed(schema, p) && Picks(rows, a) && Applies(p, a.Keys)
  {
    var row := rows[p.table][a[p.table]];
    match p.rhs
    case NoValue => Meets(schema[p.table], row, p.column, p.op, None)
    case Value(v) => Meets(schema[p.table], row, p.column, p.op, Some(v))
    case Column(t, c) =>
      var other := rows[t][a[t]];
      !IsNull(schema[t], other, c) && Meets(schema[p.table], row, p.column, p.op, Some(other.values[c]))
  }

  /** A row of the filtered cross product: every predicate that applies to the chosen tables holds. */
  ghost predicate Fits(schema: Schema, rows: Snapshot, preds: seq<ColumnPredicate>, a: Choice)
    requires SnapshotOk(schema, rows) && AllWellFormed(schema, preds)
  {
    Picks(rows, a) && forall i :: 0 <= i < |preds| && Applies(preds[i], a.Keys) ==> HoldsOf(schema, rows, preds[i], a)
  }

  lemma FitsPart(schema: Schema, rows: Snapshot, preds: seq<ColumnPredicate>, a: Choice, m: Choice)
    requires SnapshotOk(schema, rows) && AllWellFormed(schema, preds) && Fits(schema, rows, preds, a)
    requires forall n :: n in m ==> n in a && a[n] == m[n]
    ensures Fits(schema, rows, preds, m)
  {
    forall i | 0 <= i < |preds| && Applies(preds[i], m.Keys) ensures HoldsOf(schema, rows, preds[i], m) {
      assert Applies(preds[i], a.Keys);
    }
  }

  // ---------------------------------------------------------------- contexts

  function ChoiceOf(ctx: seq<Chosen>): Choice {
    if ctx == [] then map[] else ChoiceOf(ctx[..|ctx| - 1])[ctx[|ctx| - 1].name := ctx[|ctx| - 1].rid]
  }

  /** The context holds records of different tables. */
  ghost predicate ContextOk(rows: Snapshot, ctx: seq<Chosen>) {
    && (forall i :: 0 <= i < |ctx| ==>
          ctx[i].name in rows && ctx[i].rid in rows[ctx[i].name] && ctx[i].row == rows[ctx[i].name][ctx[i].rid])
    && (forall i, j :: 0 <= i < j < |ctx| ==> ctx[i].name != ctx[j].name)
  }

  /** The chosen row of a table in the context. */
  function RowIn(ctx: seq<Chosen>, name: string): Option<Row> {
    if ctx == [] then None else if ctx[0].name == name then Some(ctx[0].row) else RowIn(ctx[1..], name)
  }

  lemma {:induction false} RowInIs(ctx: seq<Chosen>, name: string)
    ensures RowIn(ctx, name).None? <==> forall i :: 0 <= i < |ctx| ==> ctx[i].name != name
    ensures RowIn(ctx, name).Some? ==>
              exists i :: 0 <= i < |ctx| && ctx[i].name == name && RowIn(ctx, name).value == ctx[i].row
  {
    if ctx != [] {
      RowInIs(ctx[1..], name);
    }
  }

  lemma {:induction false} ChoiceHas(ctx: seq<Chosen>)
    ensures forall n :: n in ChoiceOf(ctx) <==> exists i :: 0 <= i < |ctx| && ctx[i].name == n
    ensures (forall i, j :: 0 <= i < j < |ctx| ==> ctx[i].name != ctx[j].name) ==>
              forall i :: 0 <= i < |ctx| ==> ctx[i].name in ChoiceOf(ctx) && ChoiceOf(ctx)[ctx[i].name] == ctx[i].rid
  {
    if ctx != [] {
      ChoiceHas(ctx[..|ctx| - 1]);
    }
  }

  lemma ContextRow(rows: Snapshot, ctx: seq<Chosen>, name: string)
    requires ContextOk(rows, ctx)
    ensures RowIn(ctx, name).Some? <==> name in ChoiceOf(ctx)
    ensures name in ChoiceOf(ctx) ==>
              name in rows && ChoiceOf(ctx)[name] in rows[name] &&
              RowIn(ctx, name) == Some(rows[name][ChoiceOf(ctx)[name]])
    ensures Picks(rows, ChoiceOf(ctx))
  {
    RowInIs(ctx, name);
    ChoiceHas(ctx);
  }

  // ---------------------------------------------------------------- contextual predicates

  /** What predicate p asks of the next table, given the context: nothing yet, or a predicate on one of
      its columns; a comparison is turned round when the next table is on its right. */
  function Extract(schema: Schema, count: nat, name: string, ctx: seq<Chosen>, p: ColumnPredicate): seq<Predicate>
    requires name in schema && WellFormed(schema, p) && ContextFits(schema, ctx)
  {
    var desc := schema[name];
    if p.table == name then
      match p.rhs
      case NoValue => [Planned(desc, count, p.column, p.op, None)]
      case Value(v) => [Planned(desc, count, p.column, p.op, Some(v))]
      case Column(t, c) =>
        (match RowIn(ctx, t)
         case None => []
         case Some(row) =>
           ChosenFits(schema, ctx, t);
           [Planned(desc, count, p.column, p.op, CellValue(schema[t], row, c))])
    else if p.rhs.Column? && p.rhs.table == name then
      match RowIn(ctx, p.table)
      case None => []
      case Some(row) =>
        ChosenFits(schema, ctx, p.table);
        [Planned(desc, count, p.rhs.column, Reversed(p.op), CellValue(schema[p.table], row, p.column))]
    else []
  }

  ghost predicate ContextFits(schema: Schema, ctx: seq<Chosen>) {
    forall i :: 0 <= i < |ctx| ==> ctx[i].name in schema && FitsRow(schema[ctx[i].name], ctx[i].row)
  }

  lemma ChosenFits(schema: Schema, ctx: seq<Chosen>, name: string)
    requires ContextFits(schema, ctx)
    ensures RowIn(ctx, name).Some? ==> name in schema && FitsRow(schema[name], RowIn(ctx, name).value)
  {
    RowInIs(ctx, name);
  }

  ghost function Extracted(schema: Schema, count: nat, name: string, ctx: seq<Chosen>,
                           preds: seq<ColumnPredicate>): seq<Predicate>
    requires name in schema && AllWellFormed(schema, preds) && ContextFits(schema, ctx)
  {
    if preds == [] then []
    else Extracted(schema, count, name, ctx, preds[..|preds| - 1])
         + Extract(schema, count, name, ctx, preds[|preds| - 1])
  }

  /** One predicate: it holds of the extended choice, as far as it applies, iff it held before and the new
      record satisfies what was extracted.  So every cross predicate is applied exactly when the second
      of its tables is chosen. */
  lemma ExtractExact(schema: Schema, rows: Snapshot, count: nat, name: string, ctx: seq<Chosen>, p: ColumnPredicate,
                     rid: Rid)
    requires SnapshotOk(schema, rows) && WellFormed(schema, p) && ContextOk(rows, ctx) && ContextFits(schema, ctx)
    requires name in schema && name !in ChoiceOf(ctx) && rid in rows[name]
    ensures Picks(rows, ChoiceOf(ctx)) && Picks(rows, ChoiceOf(ctx)[name := rid])
    ensures FitsRow(schema[name], rows[name][rid])
    ensures ColumnsOk(schema[name], Extract(schema, count, name, ctx, p))
    ensures var m := ChoiceOf(ctx);
            (Applies(p, m[name := rid].Keys) ==> HoldsOf(schema, rows, p, m[name := rid])) <==>
              && (Applies(p, m.Keys) ==> HoldsOf(schema, rows, p, m))
              && SatisfiesAll(schema[name], rows[name][rid], Extract(schema, count, name, ctx, p))
  {
    if p.rhs.Column? {
      ExtractCross(schema, rows, count, name, ctx, p, rid);
    } else {
      ContextRow(rows, ctx, p.table);
      assert FitsRow(schema[name], rows[name][rid]);
      if p.table == name {
        OneSatisfied(schema[name], rows[name][rid], Extract(schema, count, name, ctx, p));
      }
    }
  }

  lemma ExtractCross(schema: Schema, rows: Snapshot, count: nat, name: string, ctx: seq<Chosen>, p: ColumnPredicate,
                     rid: Rid)
    requires p.rhs.Column? && SnapshotOk(schema, rows) && WellFormed(schema, p) && ContextOk(rows, ctx)
    requires ContextFits(schema, ctx)
    requires name in schema && name !in ChoiceOf(ctx) && rid in rows[name]
    ensures Picks(rows, ChoiceOf(ctx)) && Picks(rows, ChoiceOf(ctx)[name := rid])
    ensures FitsRow(schema[name], rows[name][rid])
    ensures ColumnsOk(schema[name], Extract(schema, count, name, ctx, p))
    ensures var m := ChoiceOf(ctx);
            (Applies(p, m[name := rid].Keys) ==> HoldsOf(schema, rows, p, m[name := rid])) <==>
              && (Applies(p, m.Keys) ==> HoldsOf(schema, rows, p, m))
              && SatisfiesAll(schema[name], rows[name][rid], Extract(schema, count, name, ctx, p))
  {
    hide Meets, Satisfies, Planned;
    var m, row, E := ChoiceOf(ctx), rows[name][rid], Extract(schema, count, name, ctx, p);
    ContextRow(rows, ctx, p.table);
    ContextRow(rows, ctx, p.rhs.table);
    assert FitsRow(schema[name], row);
    if p.table == name && p.rhs.table in m {
      var other := rows[p.rhs.table][m[p.rhs.table]];
      PlannedIs(schema[name], count, p.column, p.op, CellValue(schema[p.rhs.table], other, p.rhs.column));
      OneSatisfied(schema[name], row, E);
      MeetsCell(schema[name], row, p.column, p.op, schema[p.rhs.table], other, p.rhs.column);
    } else if p.table != name && p.rhs.table == name && p.table in m {
      var other := rows[p.table][m[p.table]];
      PlannedIs(schema[name], count, p.rhs.column, Reversed(p.op), CellValue(schema[p.table], other, p.column));
      OneSatisfied(schema[name], row, E);
      Turned(schema[p.table], other, p.column, schema[name], row, p.rhs.column, p.op);
      MeetsCell(schema[p.table], other, p.column, p.op, schema[name], row, p.rhs.column);
    } else {
      assert E == [];
    }
  }

  lemma PlannedIs(desc: Descriptor, count: nat, c: nat, op: Op, operand: Option<int>)
    requires c < |desc|
    ensures var p := Planned(desc, count, c, op, operand); p.column == c && p.op == op && p.operand == operand
  {
  }

  // A comparison with a null is false.
  lemma MeetsCell(d: Descriptor, x: Row, c: nat, op: Op, e: Descriptor, y: Row, b: nat)
    requires c < |d| && FitsRow(d, x) && b < |e| && FitsRow(e, y) && Comparison(op)
    ensures Meets(d, x, c, op, CellValue(e, y, b)) <==> !IsNull(e, y, b) && Meets(d, x, c, op, Some(y.values[b]))
  {
  }

  lemma OneSatisfied(desc: Descriptor, row: Row, E: seq<Predicate>)
    requires |E| == 1 && ColumnsOk(desc, E) && FitsRow(desc, row)
    ensures SatisfiesAll(desc, row, E) <==> Meets(desc, row, E[0].column, E[0].op, E[0].operand)
  {
  }

  /** A comparison read from its right side, nulls included. */
  lemma Turned(d: Descriptor, x: Row, c: nat, e: Descriptor, y: Row, b: nat, op: Op)
    requires c < |d| && FitsRow(d, x) && b < |e| && FitsRow(e, y) && Comparison(op)
    ensures Meets(d, x, c, op, CellValue(e, y, b)) <==> Meets(e, y, b, Reversed(op), CellValue(d, x, c))
  {
    ReversedHolds(op, x.values[c], y.values[b]);
  }

  /** All predicates: the extended choice fits iff the context's choice does and the new record
      satisfies all extracted predicates. */
  lemma {:induction false} ExtractedExact(schema: Schema, rows: Snapshot, count: nat, name: string, ctx: seq<Chosen>,
                                          preds: seq<ColumnPredicate>, rid: Rid)
    requires SnapshotOk(schema, rows) && AllWellFormed(schema, preds) && ContextOk(rows, ctx)
    requires ContextFits(schema, ctx)
    requires name in schema && name !in ChoiceOf(ctx) && rid in rows[name]
    ensures var E := Extracted(schema, count, name, ctx, preds);
            && ColumnsOk(schema[name], E) && FitsRow(schema[name], rows[name][rid])
            && (Fits(schema, rows, preds, ChoiceOf(ctx)[name := rid]) <==>
                Fits(schema, rows, preds, ChoiceOf(ctx)) && SatisfiesAll(schema[name], rows[name][rid], E))
  {
    var m := ChoiceOf(ctx);
    ContextRow(rows, ctx, name);
    if preds != [] {
      var rest, p := preds[..|preds| - 1], preds[|preds| - 1];
      ExtractedExact(schema, rows, count, name, ctx, rest, rid);
      ExtractExact(schema, rows, count, name, ctx, p, rid);
      FitsLast(schema, rows, preds, m);
      FitsLast(schema, rows, preds, m[name := rid]);
      SatisfiesBoth(schema[name], rows[name][rid], Extracted(schema, count, name, ctx, rest),
          Extract(schema, count, name, ctx, p));
    }
  }

  lemma FitsLast(schema: Schema, rows: Snapshot, preds: seq<ColumnPredicate>, a: Choice)
    requires SnapshotOk(schema, rows) && AllWellFormed(schema, preds) && Picks(rows, a) && preds != []
    ensures var p := preds[|preds| - 1];
            Fits(schema, rows, preds, a) <==>
              Fits(schema, rows, preds[..|preds| - 1], a) && (Applies(p, a.Keys) ==> HoldsOf(schema, rows, p, a))
  {
    var rest := preds[..|preds| - 1];
    if Fits(schema, rows, rest, a) {
      forall i | 0 <= i < |preds| - 1 && Applies(preds[i], a.Keys) ensures HoldsOf(schema, rows, preds[i], a) {
        assert rest[i] == preds[i];
      }
    }
  }

  lemma SatisfiesBoth(desc: Descriptor, row: Row, D: seq<Predicate>, E: seq<Predicate>)
    requires ColumnsOk(desc, D) && ColumnsOk(desc, E) && FitsRow(desc, row)
    ensures ColumnsOk(desc, D + E)
    ensures (SatisfiesAll(desc, row, D + E) <==> SatisfiesAll(desc, row, D) && SatisfiesAll(desc, row, E))
  {
    if SatisfiesAll(desc, row, D + E) {
      forall i | 0 <= i < |D| ensures Satisfies(desc, row, D[i]) { assert (D + E)[i] == D[i]; }
      forall i | 0 <= i < |E| ensures Satisfies(desc, row, E[i]) { assert (D + E)[|D| + i] == E[i]; }
    }
  }
}
