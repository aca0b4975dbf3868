/** Queries on the files of a consistent database. */
module Composition {
  import opened Wrappers
  import opened Plans
  import opened RecordTable
  import opened Gather
  import opened JoinSpec
  import opened Join
  import opened Answers
  import opened Traces
  import opened Selection
  import opened IntegritySpec
  import opened FileSteps

  /** The table and index files of one table hold what the store says. */
  ghost predicate Holds(s: Store, n: string, source: Source)
    requires n in s.schema && n in s.tables
    reads source.table, source.table.repr, source.indexes.Values, set i, o | i in source.indexes.Values &&
        o in i.repr :: o
  {
    && source.table.Valid() && source.table.Contents() == s.tables[n]
    && (forall c: nat :: IndexName(n, c) in s.indexes ==>
          && c in source.indexes && c < |s.schema[n]| && source.indexes[c].Valid()
          && source.indexes[c].unique == s.schema[n][c].unique
          && source.indexes[c].Contents() == s.indexes[IndexName(n, c)])
  }

  /** The open files of one table, as a query uses them. */
  ghost predicate SourceIn(files: Files, n: string, source: Source) {
    && n in files.tables && source.table == files.tables[n]
    && forall c: nat :: IndexName(n, c) in files.indexes ==>
         c in source.indexes && source.indexes[c] == files.indexes[IndexName(n, c)]
  }

  /** Open files hold their store: what an insertion, a deletion or an update makes of the files is what a query
      finds. */
  lemma OpenFilesHold(files: Files, n: string, source: Source)
    requires files.Valid() && n in files.schema && SourceIn(files, n, source)
    ensures n in files.store.schema && n in files.store.tables && Holds(files.store, n, source)
  {
    files.TableHere(n);
    forall c: nat | IndexName(n, c) in files.store.indexes
      ensures c in source.indexes && c < |files.store.schema[n]| && source.indexes[c].Valid()
      ensures source.indexes[c].unique == files.store.schema[n][c].unique
      ensures source.indexes[c].Contents() == files.store.indexes[IndexName(n, c)]
    {
      files.IndexOpen(IndexName(n, c));
      files.IndexHere(IndexName(n, c));
    }
  }

  /** Whatever insertions, deletions, updates and schema changes led to a consistent database, its files are what the
      query engine needs. */
  lemma HeldIsReady(s: Store, n: string, source: Source)
    requires StoreOk(s) && n in s.schema && n in s.tables && Holds(s, n, source) && LengthsOk(s.schema[n])
    ensures SourceOk(s.schema[n], source, s.tables[n])
  {
    hide *;
    StoreRows(s, n);
    HeldTable(s, n, source);
    forall c: nat | c < |s.schema[n]| && s.schema[n][c].indexed
      ensures c in source.indexes && source.indexes[c].Valid() && source.indexes[c].unique == s.schema[n][c].unique
      ensures Agrees(source.indexes[c].Contents(), s.schema[n], s.tables[n], c)
    {
      HeldIndex(s, n, source, c);
    }
    ReadySource(s, n, source);
  }

  lemma HeldTable(s: Store, n: string, source: Source)
    requires n in s.schema && n in s.tables && Holds(s, n, source)
    ensures source.table.Valid() && s.tables[n] == source.table.Contents()
  {
  }

  lemma ReadySource(s: Store, n: string, source: Source)
    requires n in s.schema && n in s.tables && source.table.Valid() && s.tables[n] == source.table.Contents()
    requires RowsOk(s.schema[n], s.tables[n]) && LengthsOk(s.schema[n])
    requires forall c: nat :: c < |s.schema[n]| && s.schema[n][c].indexed ==>
               && c in source.indexes && source.indexes[c].Valid() && source.indexes[c].unique == s.schema[n][c].unique
               && Agrees(source.indexes[c].Contents(), s.schema[n], s.tables[n], c)
    ensures SourceOk(s.schema[n], source, s.tables[n])
  {
    hide RowsOk, Agrees, LengthsOk;
  }

  lemma HeldIndex(s: Store, n: string, source: Source, c: nat)
    requires StoreOk(s) && n in s.schema && n in s.tables && Holds(s, n, source) && c < |s.schema[n]|
    requires s.schema[n][c].indexed
    ensures RowsOk(s.schema[n], s.tables[n])
    ensures c in source.indexes && source.indexes[c].Valid() && source.indexes[c].unique == s.schema[n][c].unique
    ensures Agrees(source.indexes[c].Contents(), s.schema[n], s.tables[n], c)
  {
    hide StoreOk, RowsOk, Agrees;
    StoreIndex(s, n, c);
  }

  lemma StoreRows(s: Store, n: string)
    requires StoreOk(s) && n in s.schema && n in s.tables
    ensures RowsOk(s.schema[n], s.tables[n])
  {
  }

  lemma StoreIndex(s: Store, n: string, c: nat)
    requires StoreOk(s) && n in s.schema && n in s.tables && c < |s.schema[n]| && s.schema[n][c].indexed
    ensures RowsOk(s.schema[n], s.tables[n])
    ensures IndexName(n, c) in s.indexes && Agrees(s.indexes[IndexName(n, c)], s.schema[n], s.tables[n], c)
  {
    var name := IndexName(n, c);
    assert name in s.indexes;
    hide CountsOk, NoDangling, SchemaOk, Agrees;
  }

  lemma AllReady(s: Store, db: map<string, Source>)
    requires StoreOk(s)
    requires forall n :: n in s.schema ==> n in db && n in s.tables && Holds(s, n, db[n]) && LengthsOk(s.schema[n])
    ensures DatabaseOk(s.schema, db, s.tables) && SnapshotOk(s.schema, s.tables)
  {
    hide SourceOk, LengthsOk, Holds;
    forall n | n in s.schema ensures SourceOk(s.schema[n], db[n], s.tables[n]) {
      HeldIsReady(s, n, db[n]);
    }
  }

  /** A selection on the files of a consistent database goes by one run of the join: its answers are the rows of the
      filtered cross product whose records the run comes by, or its error is where the run fails.  Each field is the
      chosen record's, nulls marked.  All rows are answered, without an error, whenever the predicates can bring about
      only sure index plans. */
  method SelectFrom(db: map<string, Source>, q: Query, src: seq<string>, schema: Schema, ghost s: Store)
    returns (r: Result<seq<Answer>, TableError>, count: nat, ghost T: Trace)
    requires StoreOk(s) && s.schema == schema
    requires forall n :: n in s.schema ==> n in db && n in s.tables && Holds(s, n, db[n]) && LengthsOk(s.schema[n])
    requires AllWellFormed(schema, q.preds) && SelOk(schema, q.sel) && Different(src)
    requires forall i :: 0 <= i < |src| ==> src[i] in schema
    ensures QueryOk(schema, s.tables, q)
    ensures r.Ok? ==>
              && count == |r.value| && Runs(schema, ViewOf(schema, db, s.tables), s.tables, q, NamesOf(src), [], T)
              && ChoicesIn(r.value) == Choices(T, map[])
              && Lists(schema, s.tables, q, r.value,
                       Visited(schema, ViewOf(schema, db, s.tables), s.tables, q, NamesOf(src), T), true)
    ensures r.Err? ==>
              && Breaks(schema, ViewOf(schema, db, s.tables), s.tables, q, NamesOf(src), [], T)
              && r.error == RecordOffsetOutOfRange
    ensures AllReliable(schema, db, NamesOf(src), q.preds) ==>
              r.Ok? && Lists(schema, s.tables, q, r.value, Goals(schema, s.tables, q, NamesOf(src), map[]), true)
    ensures r.Ok? && (forall i :: 0 <= i < |q.sel| ==> q.sel[i].0 in src) ==>
              forall j :: 0 <= j < |r.value| ==>
                && Picks(s.tables, r.value[j].choice) && |r.value[j].fields| == |q.sel|
                && forall i :: 0 <= i < |q.sel| ==>
                     Shows(schema, s.tables, r.value[j], q.sel[i], r.value[j].fields[i])
  {
    hide *;
    AllReady(s, db);
    QueryReady(schema, s.tables, q);
    r, count, T := SelectRecords(schema, db, q, src, s.tables);
  }

  lemma QueryReady(schema: Schema, rows: Snapshot, q: Query)
    requires SnapshotOk(schema, rows) && AllWellFormed(schema, q.preds) && SelOk(schema, q.sel)
    ensures QueryOk(schema, rows, q)
  {
  }
}
