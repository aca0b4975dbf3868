/** The rows of a filtered cross product, and lists of answers made of them (src/query/query_engine.cpp). */
module Answers {
  import opened Wrappers
  import opened Plans
  import opened TableFiles
  import opened Gather
  import opened JoinSpec
  import opened Join

  /** Selected columns and predicates. */
  datatype Query = Query(sel: seq<(string, nat)>, preds: seq<ColumnPredicate>)

  /** A row handed to the receiver, with the records it comes from. */
  datatype Answer = Answer(choice: Choice, fields: seq<Option<int>>)

  ghost predicate SelOk(schema: Schema, sel: seq<(string, nat)>) {
    forall i :: 0 <= i < |sel| && sel[i].0 in schema ==> sel[i].1 < |schema[sel[i].0]|
  }

  ghost predicate QueryOk(schema: Schema, rows: Snapshot, q: Query) {
    SnapshotOk(schema, rows) && AllWellFormed(schema, q.preds) && SelOk(schema, q.sel)
  }

  /** The selected columns of the chosen records; None for a null. */
  ghost function Project(schema: Schema, rows: Snapshot, sel: seq<(string, nat)>, a: Choice): seq<Option<int>>
    requires SnapshotOk(schema, rows) && SelOk(schema, sel) && Picks(rows, a)
  {
    if sel == [] then []
    else
      var (t, c) := sel[|sel| - 1];
      Project(schema, rows, sel[..|sel| - 1], a) + (if t in a then [CellValue(schema[t], rows[t][a[t]], c)] else [])
  }

  /** The field of an answer for one selected column: nothing exactly when the column can be null and the null bit of
      the chosen record is set, else the value of the chosen record. */
  ghost predicate Shows(schema: Schema, rows: Snapshot, a: Answer, sel: (string, nat), field: Option<int>)
    requires SnapshotOk(schema, rows) && Picks(rows, a.choice)
  {
    var (t, c) := sel;
    && t in a.choice && c < |schema[t]|
    && var row := rows[t][a.choice[t]];
       && |row.nulls| == |row.values| == |schema[t]|
       && (field.None? <==> schema[t][c].nullable && row.nulls[c])
       && (field.Some? ==> field.value == row.values[c])
  }

  /** With all selected tables joined, an answer has one field for each selected column. */
  lemma ProjectShows(schema: Schema, rows: Snapshot, q: Query, a: Answer)
    requires QueryOk(schema, rows, q) && Picks(rows, a.choice) && a.fields == Project(schema, rows, q.sel, a.choice)
    requires forall i :: 0 <= i < |q.sel| ==> q.sel[i].0 in a.choice
    ensures |a.fields| == |q.sel|
    ensures forall i :: 0 <= i < |q.sel| ==> Shows(schema, rows, a, q.sel[i], a.fields[i])
  {
    ProjectFields(schema, rows, q.sel, a.choice, a);
  }

  lemma {:induction false} ProjectFields(schema: Schema, rows: Snapshot, sel: seq<(string, nat)>, m: Choice, a: Answer)
    requires SnapshotOk(schema, rows) && SelOk(schema, sel) && Picks(rows, m) && a.choice == m
    requires forall i :: 0 <= i < |sel| ==> sel[i].0 in m
    ensures var fields := Project(schema, rows, sel, m);
            |fields| == |sel| && forall i :: 0 <= i < |sel| ==> Shows(schema, rows, a, sel[i], fields[i])
  {
    if sel != [] {
      var rest, n := sel[..|sel| - 1], |sel| - 1;
      ProjectFields(schema, rows, rest, m, a);
      assert sel[n] == (sel[n].0, sel[n].1);
      forall i | 0 <= i < n ensures sel[i] == rest[i] { }
    }
  }

  /** The rows of the filtered cross product of the named tables that extend m. */
  ghost function Goals(schema: Schema, rows: Snapshot, q: Query, names: set<string>, m: Choice): iset<Choice>
    requires QueryOk(schema, rows, q)
  {
    iset a: Choice | a.Keys == names && Extends(a, m) && Fits(schema, rows, q.preds, a)
  }

  ghost predicate Extends(a: Choice, m: Choice) {
    forall n :: n in m ==> n in a && a[n] == m[n]
  }

  ghost function GoalsWith(schema: Schema, rows: Snapshot, q: Query, names: set<string>, m: Choice, name: string,
                           R: seq<Rid>): iset<Choice>
    requires QueryOk(schema, rows, q)
  {
    iset a: Choice | a in Goals(schema, rows, q, names, m) && name in a && a[name] in R
  }

  ghost predicate IsChoice(out: seq<Answer>, a: Choice) {
    exists i :: 0 <= i < |out| && out[i].choice == a
  }

  /** The answers come from choices in G, each at most once, and from all of them if `all`. */
  ghost predicate Lists(schema: Schema, rows: Snapshot, q: Query, out: seq<Answer>, G: iset<Choice>, all: bool)
    requires QueryOk(schema, rows, q)
  {
    && (forall i :: 0 <= i < |out| ==>
          && out[i].choice in G && Picks(rows, out[i].choice)
          && out[i].fields == Project(schema, rows, q.sel, out[i].choice))
    && (forall i, j :: 0 <= i < j < |out| ==> out[i].choice != out[j].choice)
    && (all ==> forall a :: a in G ==> IsChoice(out, a))
  }

  lemma ListsNone(schema: Schema, rows: Snapshot, q: Query, names: set<string>, m: Choice, name: string, all: bool)
    requires QueryOk(schema, rows, q)
    ensures Lists(schema, rows, q, [], GoalsWith(schema, rows, q, names, m, name, []), all)
  {
    hide Goals;
  }

  lemma ListsBoth(schema: Schema, rows: Snapshot, q: Query, out: seq<Answer>, sub: seq<Answer>, G: iset<Choice>,
                  H: iset<Choice>, all: bool)
    requires QueryOk(schema, rows, q) && Lists(schema, rows, q, out, G, all) && Lists(schema, rows, q, sub, H, all)
    requires forall a :: a in G ==> a !in H
    ensures Lists(schema, rows, q, out + sub, G + H, all)
  {
    hide Project, QueryOk;
    var both := out + sub;
    forall i, j | 0 <= i < j < |both| ensures both[i].choice != both[j].choice {
      if i < |out| <= j {
        assert out[i].choice in G && sub[j - |out|].choice in H;
      }
    }
    if all {
      forall a | a in G + H ensures IsChoice(both, a) {
        if a in G {
          assert IsChoice(out, a);
          var i :| 0 <= i < |out| && out[i].choice == a;
          assert both[i].choice == a;
        } else {
          assert IsChoice(sub, a);
          var i :| 0 <= i < |sub| && sub[i].choice == a;
          assert both[|out| + i].choice == a;
        }
      }
    }
  }

  lemma GoalsSplit(schema: Schema, rows: Snapshot, q: Query, names: set<string>, m: Choice, name: string, R: seq<Rid>,
                   rid: Rid)
    requires QueryOk(schema, rows, q) && name !in m && rid !in R
    ensures GoalsWith(schema, rows, q, names, m, name, R + [rid]) ==
            GoalsWith(schema, rows, q, names, m, name, R) + Goals(schema, rows, q, names, m[name := rid])
    ensures forall a :: a in GoalsWith(schema, rows, q, names, m, name, R) ==>
              a !in Goals(schema, rows, q, names, m[name := rid])
  {
    hide Fits, QueryOk;
    forall a: Choice
      ensures a in Goals(schema, rows, q, names, m[name := rid]) <==>
                a in Goals(schema, rows, q, names, m) && name in a && a[name] == rid
    {
      if a in Goals(schema, rows, q, names, m[name := rid]) {
        forall n | n in m ensures n in a && a[n] == m[n] { assert n in m[name := rid]; }
        assert name in m[name := rid];
      }
    }
  }

  /** Choosing a record of each table in turn: what a full list of selected records reaches is all. */
  lemma GoalsAll(schema: Schema, rows: Snapshot, q: Query, names: set<string>, ctx: seq<Chosen>, name: string,
                 count: nat,
                 E: seq<Predicate>, R: seq<Rid>)
    requires QueryOk(schema, rows, q) && ContextOk(rows, ctx) && ContextFits(schema, ctx)
    requires name in schema && name in names && name !in ChoiceOf(ctx)
    requires Extraction(schema, count, name, ctx, q.preds, E) && ColumnsOk(schema[name], E)
    requires RowsOk(schema[name], rows[name])
    requires Complete(schema[name], rows[name], E, Ok(R))
    ensures GoalsWith(schema, rows, q, names, ChoiceOf(ctx), name, R) == Goals(schema, rows, q, names, ChoiceOf(ctx))
  {
    var m := ChoiceOf(ctx);
    forall a | a in Goals(schema, rows, q, names, m) ensures name in a && a[name] in R {
      var rid := a[name];
      assert rid in rows[name];
      FitsPart(schema, rows, q.preds, a, m[name := rid]);
      ChosenSelected(schema, rows, q, ctx, name, count, E, rid);
    }
  }

  lemma ChosenSelected(schema: Schema, rows: Snapshot, q: Query, ctx: seq<Chosen>, name: string, count: nat,
                       E: seq<Predicate>, rid: Rid)
    requires QueryOk(schema, rows, q) && ContextOk(rows, ctx) && ContextFits(schema, ctx)
    requires name in schema && name !in ChoiceOf(ctx) && rid in rows[name]
    requires Extraction(schema, count, name, ctx, q.preds, E)
    ensures ColumnsOk(schema[name], E) && RowsOk(schema[name], rows[name])
    ensures Fits(schema, rows, q.preds, ChoiceOf(ctx)[name := rid]) <==>
              Fits(schema, rows, q.preds, ChoiceOf(ctx)) && Selected(schema[name], rows[name], E, rid)
  {
    hide Fits, Extraction, Extracted, SatisfiesAll, ContextOk, ContextFits, AllWellFormed;
    ExtractedExact(schema, rows, count, name, ctx, q.preds, rid);
    ExtractionSatisfied(schema, count, name, ctx, q.preds, E, rows[name][rid]);
  }

  /** A record that the next table can add to the context. */
  ghost predicate Choosable(schema: Schema, rows: Snapshot, q: Query, ctx: seq<Chosen>, name: string, rid: Rid)
    requires QueryOk(schema, rows, q)
  {
    name in rows && rid in rows[name] && Fits(schema, rows, q.preds, ChoiceOf(ctx)[name := rid])
  }

  /** The rows of the tables of a database, with all indexes in step. */
  ghost predicate DatabaseOk(schema: Schema, db: map<string, Source>, rows: Snapshot)
    reads set n | n in db :: db[n].table,
          set n, o | n in db && o in db[n].table.repr :: o,
          set n, i | n in db && i in db[n].indexes.Values :: i,
          set n, i, o | n in db && i in db[n].indexes.Values && o in i.repr :: o
  {
    forall n :: n in schema ==> n in db && n in rows && SourceOk(schema[n], db[n], rows[n])
  }
}
