/** Whole deletion and update statements: gathering the records that satisfy the predicates, then deleting or updating
    them one by one (src/query/query_engine.cpp). */
module Statements {
  import opened Wrappers
  import opened Rows
  import opened Plans
  import opened TableFiles
  import opened RecordTable
  import opened Gather
  import opened JoinSpec
  import opened Join
  import opened Reports
  import opened IntegritySpec
  import opened Attach
  import opened FieldUpdates
  import opened Integrity
  import opened UpdateConditions
  import opened FileSteps
  import opened Modification
  import Composition

  /** The record satisfies all predicates that are on its table and no other. */
  ghost predicate Matches(s: Store, t: string, preds: seq<ColumnPredicate>, rid: Rid)
    requires SnapshotOk(s.schema, s.tables) && AllWellFormed(s.schema, preds)
  {
    Fits(s.schema, s.tables, preds, map[t := rid])
  }

  /** The files of a table and its indexes. */
  function SourceOf(files: Files, t: string): Source
    requires t in files.tables && t in files.schema
  {
    Source(files.tables[t],
           map c: nat | c < |files.schema[t]| && IndexName(t, c) in files.indexes :: files.indexes[IndexName(t, c)])
  }

  /** All index plans that the predicates can bring about are sure. */
  ghost predicate SureWhere(files: Files, t: string, preds: seq<ColumnPredicate>)
    requires t in files.tables && t in files.schema
    reads SourceOf(files, t).indexes.Values, set i, o | i in SourceOf(files, t).indexes.Values && o in i.repr :: o
  {
    Reliable(files.schema[t], SourceOf(files, t), t, {t}, preds)
  }

  // ---------------------------------------------------------------- gathering

  /** The predicates on the table alone, planned and sorted by cost. */
  ghost predicate WhereClause(files: Files, t: string, preds: seq<ColumnPredicate>, E: seq<Predicate>)
    requires t in files.tables && t in files.schema && AllWellFormed(files.schema, preds)
    reads files.tables[t]
  {
    ColumnsOk(files.schema[t], E) && ContextFits(files.schema, []) &&
    Extraction(files.schema, files.tables[t].recordCount, t, [], preds, E)
  }

  /** The gathering with these predicates comes by record r. */
  ghost predicate WhereReaches(files: Files, s: Store, t: string, E: seq<Predicate>, r: Rid)
    requires t in files.tables && t in files.schema && t in s.tables && ColumnsOk(files.schema[t], E)
    requires RowsOk(files.schema[t], s.tables[t])
    reads SourceOf(files, t).indexes.Values, set i, o | i in SourceOf(files, t).indexes.Values && o in i.repr :: o
  {
    ReachedBy(files.schema[t], s.tables[t], E, IndexFor(SourceOf(files, t), E), r)
  }

  /** The gathering with these predicates fails: it scans an index to which it has come by a wrong seek. */
  ghost predicate WhereFails(files: Files, t: string, E: seq<Predicate>)
    requires t in files.tables && t in files.schema && ColumnsOk(files.schema[t], E)
    reads SourceOf(files, t).indexes.Values, set i, o | i in SourceOf(files, t).indexes.Values && o in i.repr :: o
  {
    FailsBy(files.schema[t], E, IndexFor(SourceOf(files, t), E))
  }

  /** What is gathered: exactly the matching records that the gathering comes by, in the order of its plan. */
  ghost predicate WhereFinds(files: Files, s: Store, t: string, preds: seq<ColumnPredicate>, E: seq<Predicate>,
                             rids: seq<Rid>)
    requires t in files.tables && t in files.schema && t in s.tables && ColumnsOk(files.schema[t], E)
    requires SnapshotOk(s.schema, s.tables) && AllWellFormed(s.schema, preds) && RowsOk(files.schema[t], s.tables[t])
    reads SourceOf(files, t).indexes.Values, set i, o | i in SourceOf(files, t).indexes.Values && o in i.repr :: o
  {
    && (forall r :: r in rids <==> Matches(s, t, preds, r) && WhereReaches(files, s, t, E, r))
    && InPlanOrder(files.schema[t], s.tables[t], E, rids)
  }

  /** Different records that match. */
  ghost predicate Gathers(s: Store, t: string, preds: seq<ColumnPredicate>, rids: seq<Rid>)
    requires SnapshotOk(s.schema, s.tables) && AllWellFormed(s.schema, preds)
  {
    NoneTwice(rids) && forall r :: r in rids ==> Matches(s, t, preds, r)
  }

  /** All records that match. */
  ghost predicate GathersAll(s: Store, t: string, preds: seq<ColumnPredicate>, rids: seq<Rid>)
    requires SnapshotOk(s.schema, s.tables) && AllWellFormed(s.schema, preds)
  {
    forall r :: Matches(s, t, preds, r) ==> r in rids
  }

  /** Exactly the matching records that the plan reaches are gathered, or its scan fails. */
  method GatherWhere(files: Files, t: string, preds: seq<ColumnPredicate>)
    returns (g: Result<seq<Rid>, TableError>, ghost E: seq<Predicate>)
    requires files.Valid() && StoreOk(files.store) && files.store.schema == files.schema && t in files.schema
    requires t in files.tables && t in files.store.tables
    requires LengthsOk(files.schema[t]) && AllWellFormed(files.schema, preds)
    ensures SnapshotOk(files.store.schema, files.store.tables) && RowsOk(files.schema[t], files.store.tables[t])
    ensures old(WhereClause(files, t, preds, E)) && (g.Err? <==> old(WhereFails(files, t, E)))
    ensures g.Ok? ==> old(WhereFinds(files, files.store, t, preds, E, g.value))
    ensures g.Ok? ==> Gathers(files.store, t, preds, g.value) && RidsIn(files.store.tables[t], g.value)
    ensures old(SureWhere(files, t, preds)) ==> g.Ok? && GathersAll(files.store, t, preds, g.value)
  {
    hide *;
    AllocatedSource(files, t);
    var s := SourceOf(files, t);
    SureWhereIs(files, t, preds);
    ghost var rows := files.store.tables[t];
    NoContext(files.schema);
    var D := ExtractContextualPredicates(files.schema, s.table.recordCount, t, [], preds);
    E := D;
    ExtractionPrepared(files.schema, s.table.recordCount, t, [], preds, D);
    SourceReadyHere(files, t);
    g := GatherFrom(files.schema[t], s, rows, D);
    SourceReadyHere(files, t);
    WhereIs(files, t, preds, D, g);
  }

  // Indexes are older than what is allocated later, so that reading keeps what is known of them.
  lemma AllocatedSource(files: Files, t: string)
    requires t in files.tables && t in files.schema
    ensures forall i :: i in SourceOf(files, t).indexes.Values ==> allocated(i)
  {
  }

  lemma NoContext(schema: Schema)
    ensures ContextFits(schema, []) && ChoiceOf([]) == map[]
  {
  }

  lemma SourceReadyHere(files: Files, t: string)
    requires files.Valid() && StoreOk(files.store) && t in files.schema && t in files.tables
    requires LengthsOk(files.schema[t])
    ensures files.store.schema == files.schema && t in files.store.tables && SourceOf(files, t).table == files.tables[t]
    ensures SourceOk(files.schema[t], SourceOf(files, t), files.store.tables[t])
  {
    hide StoreOk, LengthsOk, SourceOk;
    var s := SourceOf(files, t);
    forall c: nat | IndexName(t, c) in files.indexes
      ensures c in s.indexes && s.indexes[c] == files.indexes[IndexName(t, c)]
    {
      files.IndexHere(IndexName(t, c));
    }
    assert Composition.SourceIn(files, t, s);
    hide *;
    SchemaHere(files);
    Composition.OpenFilesHold(files, t, s);
    Composition.HeldIsReady(files.store, t, s);
  }

  lemma SelectedMatches(s: Store, t: string, count: nat, preds: seq<ColumnPredicate>, E: seq<Predicate>, r: Rid)
    requires SnapshotOk(s.schema, s.tables) && AllWellFormed(s.schema, preds) && t in s.schema
    requires ContextFits(s.schema, []) && Extraction(s.schema, count, t, [], preds, E)
    requires t in s.tables && ColumnsOk(s.schema[t], E) && RowsOk(s.schema[t], s.tables[t])
    ensures Selected(s.schema[t], s.tables[t], E, r) <==> Matches(s, t, preds, r)
  {
    hide Extraction, Extracted, SatisfiesAll, RowsOk, SnapshotOk, AllWellFormed, HoldsOf, ColumnsOk, Applies;
    assert ChoiceOf([])[t := r] == map[t := r];
    if r in s.tables[t] {
      ExtractedExact(s.schema, s.tables, count, t, [], preds, r);
      ExtractionSatisfied(s.schema, count, t, [], preds, E, s.tables[t][r]);
      NothingFits(s.schema, s.tables, preds);
    }
  }

  // With no table chosen, no predicate applies.
  lemma NothingFits(schema: Schema, rows: Snapshot, preds: seq<ColumnPredicate>)
    requires SnapshotOk(schema, rows) && AllWellFormed(schema, preds)
    ensures Fits(schema, rows, preds, map[])
  {
  }

  lemma WhereIs(files: Files, t: string, preds: seq<ColumnPredicate>, E: seq<Predicate>,
                g: Result<seq<Rid>, TableError>)
    requires files.Valid() && StoreOk(files.store) && files.store.schema == files.schema && t in files.schema
    requires t in files.tables
    requires t in files.store.tables && AllWellFormed(files.schema, preds) && ContextFits(files.schema, [])
    requires SourceOk(files.schema[t], SourceOf(files, t), files.store.tables[t])
    requires Extraction(files.schema, files.tables[t].recordCount, t, [], preds, E)
    requires ColumnsOk(files.schema[t], E) && RowsOk(files.schema[t], files.store.tables[t])
    requires Sound(files.schema[t], files.store.tables[t], E, g)
    requires SureFrom(files.schema[t], SourceOf(files, t), E) ==> Complete(files.schema[t], files.store.tables[t], E, g)
    requires Reported(files.schema[t], files.store.tables[t], E, IndexFor(SourceOf(files, t), E), g)
    ensures SnapshotOk(files.store.schema, files.store.tables)
    ensures WhereClause(files, t, preds, E) && (g.Err? <==> WhereFails(files, t, E))
    ensures g.Ok? ==> WhereFinds(files, files.store, t, preds, E, g.value)
    ensures g.Ok? ==> Gathers(files.store, t, preds, g.value) && RidsIn(files.store.tables[t], g.value)
    ensures SureWhere(files, t, preds) ==> g.Ok? && GathersAll(files.store, t, preds, g.value)
  {
    hide *;
    ghost var s := files.store;
    OkAnywhere(s, "");
    Parts(s, "", None);
    forall r ensures Selected(s.schema[t], s.tables[t], E, r) <==> Matches(s, t, preds, r) {
      SelectedMatches(s, t, files.tables[t].recordCount, preds, E, r);
    }
    SoundWhere(s, t, preds, E, g);
    ReportedWhere(files, t, preds, E, g);
    if SureWhere(files, t, preds) {
      ReliableFrom(files, t, preds, E);
    }
  }

  lemma ReportedWhere(files: Files, t: string, preds: seq<ColumnPredicate>, E: seq<Predicate>,
                      g: Result<seq<Rid>, TableError>)
    requires files.store.schema == files.schema && t in files.schema && t in files.tables && t in files.store.tables
    requires SnapshotOk(files.schema, files.store.tables) && AllWellFormed(files.schema, preds)
    requires ContextFits(files.schema, []) && Extraction(files.schema, files.tables[t].recordCount, t, [], preds, E)
    requires ColumnsOk(files.schema[t], E) && RowsOk(files.schema[t], files.store.tables[t])
    requires forall r :: Selected(files.schema[t], files.store.tables[t], E, r) <==> Matches(files.store, t, preds, r)
    requires Reported(files.schema[t], files.store.tables[t], E, IndexFor(SourceOf(files, t), E), g)
    ensures WhereClause(files, t, preds, E) && (g.Err? <==> WhereFails(files, t, E))
    ensures g.Ok? ==> WhereFinds(files, files.store, t, preds, E, g.value)
  {
    hide SourceOf, IndexFor, FailsBy, ReachedBy, Matches, Selected, InPlanOrder, Extraction, SnapshotOk, RowsOk;
  }

  lemma SoundWhere(s: Store, t: string, preds: seq<ColumnPredicate>, E: seq<Predicate>, g: Result<seq<Rid>, TableError>)
    requires SnapshotOk(s.schema, s.tables) && AllWellFormed(s.schema, preds) && t in s.schema
    requires t in s.tables && ColumnsOk(s.schema[t], E) && RowsOk(s.schema[t], s.tables[t])
    requires forall r :: Selected(s.schema[t], s.tables[t], E, r) <==> Matches(s, t, preds, r)
    requires Sound(s.schema[t], s.tables[t], E, g)
    ensures g.Ok? ==> Gathers(s, t, preds, g.value) && RidsIn(s.tables[t], g.value)
    ensures Complete(s.schema[t], s.tables[t], E, g) ==> g.Ok? && GathersAll(s, t, preds, g.value)
  {
    hide Matches, SnapshotOk, AllWellFormed, ColumnsOk, RowsOk, SatisfiesAll;
    if g.Ok? {
      forall i | 0 <= i < |g.value| ensures g.value[i] in s.tables[t] {
        assert Selected(s.schema[t], s.tables[t], E, g.value[i]);
      }
    }
  }

  lemma ReliableFrom(files: Files, t: string, preds: seq<ColumnPredicate>, E: seq<Predicate>)
    requires t in files.schema && t in files.tables && t in files.store.tables
    requires AllWellFormed(files.schema, preds) && ContextFits(files.schema, []) && SureWhere(files, t, preds)
    requires SourceOk(files.schema[t], SourceOf(files, t), files.store.tables[t])
    requires Extraction(files.schema, files.tables[t].recordCount, t, [], preds, E) && ColumnsOk(files.schema[t], E)
    ensures SureFrom(files.schema[t], SourceOf(files, t), E)
  {
    hide *;
    SureWhereIs(files, t, preds);
    AloneInContext(t);
    SureFromIs(files.schema[t], SourceOf(files, t), E);
    if IndexPlan(E) {
      ReliableSure(files.schema, SourceOf(files, t), files.store.tables[t], t, {t}, [], preds, E);
    }
  }

  lemma SureWhereIs(files: Files, t: string, preds: seq<ColumnPredicate>)
    requires t in files.schema && t in files.tables
    ensures SourceOf(files, t).table == files.tables[t]
    ensures SureWhere(files, t, preds) <==> Reliable(files.schema[t], SourceOf(files, t), t, {t}, preds)
  {
  }

  lemma AloneInContext(t: string)
    ensures InContext([], {t}, t)
  {
  }

  lemma SureFromIs(desc: Descriptor, s: Source, E: seq<Predicate>)
    ensures SureFrom(desc, s, E) <==>
              ColumnsOk(desc, E) &&
              (IndexPlan(E) ==>
                E[0].column in s.indexes && s.indexes[E[0].column].Valid() && Sure(desc, E, s.indexes[E[0].column]))
  {
  }

  // ---------------------------------------------------------------- deletion

  /** The record may not be deleted: other records refer to it. */
  ghost predicate Referenced(s: Store, t: string, rid: Rid) {
    t in s.schema && t in s.tables && rid in s.tables[t] && ReferenceCounted(s.schema[t]) && s.tables[t][rid].refs != 0
  }

  /** The store `s` without some records of a table; reference counts elsewhere follow from the invariant. */
  ghost predicate RowsDeleted(s: Store, s': Store, t: string, rids: seq<Rid>) {
    && s'.schema == s.schema && s'.foreignRefs == s.foreignRefs && s'.tables.Keys == s.tables.Keys && t in s.tables
    && s'.tables[t] == s.tables[t] - (set r | r in rids)
    && forall n :: n in s.tables && n != t ==> SameRows(s.tables[n], s'.tables[n])
  }

  /** A deletion goes through the records from the last to the first, and stops at one that is referenced: those behind
      it are gone. */
  ghost predicate DeletionStops(s: Store, s': Store, t: string, rids: seq<Rid>) {
    exists i :: 0 <= i < |rids| && Referenced(s, t, rids[i]) && RowsDeleted(s, s', t, rids[i + 1..])
                && forall j :: i < j < |rids| ==> !Referenced(s, t, rids[j])
  }

  ghost predicate NoneReferenced(s: Store, t: string, rids: seq<Rid>) {
    forall i :: 0 <= i < |rids| ==> !Referenced(s, t, rids[i])
  }

  lemma NoneDeleted(s: Store, t: string, rids: seq<Rid>)
    requires t in s.tables
    ensures rids[|rids|..] == [] && RowsDeleted(s, s, t, []) && NoneReferenced(s, t, [])
  {
    assert s.tables[t] == s.tables[t] - (set r | r in []);
  }

  // What the records still to be deleted are like.
  lemma DeletedHere(s: Store, mid: Store, t: string, rids: seq<Rid>, i: nat)
    requires t in s.tables && NoneTwice(rids) && RidsIn(s.tables[t], rids) && i < |rids|
    requires RowsDeleted(s, mid, t, rids[i + 1..])
    ensures t in mid.tables && t in s.tables && rids[i] in s.tables[t] && rids[i] in mid.tables[t]
    ensures mid.schema == s.schema && mid.tables[t][rids[i]] == s.tables[t][rids[i]]
    ensures rids[i..] == [rids[i]] + rids[i + 1..] && rids[i] !in rids[i + 1..]
    ensures t in s.schema ==>
              (Referenced(s, t, rids[i]) <==> ReferenceCounted(s.schema[t]) && mid.tables[t][rids[i]].refs != 0)
  {
    hide SameRows;
    var rest := rids[i + 1..];
    forall j | 0 <= j < |rest| ensures rest[j] != rids[i] {
      assert rest[j] == rids[i + 1 + j];
    }
  }

  lemma DeletedNext(s: Store, mid: Store, s': Store, t: string, rids: seq<Rid>, i: nat)
    requires t in s.tables && NoneTwice(rids) && RidsIn(s.tables[t], rids) && i < |rids|
    requires RowsDeleted(s, mid, t, rids[i + 1..])
    requires t in mid.tables && rids[i] in mid.tables[t] && StoreOk(s')
    requires var x := Record(t, rids[i], mid.tables[t][rids[i]]); RecordOk(s'.schema, x) && Attached(s', mid, x)
    ensures RowsDeleted(s, s', t, rids[i..])
  {
    hide *;
    var x := Record(t, rids[i], mid.tables[t][rids[i]]);
    AttachedRows(s', mid, x);
    DeletedHere(s, mid, t, rids, i);
    DeletedMore(s, mid, s', t, rids, i);
  }

  lemma AttachedRows(base: Store, full: Store, x: Record)
    requires StoreOk(base) && RecordOk(base.schema, x) && Attached(base, full, x)
    ensures full.schema == base.schema && full.foreignRefs == base.foreignRefs && full.tables.Keys == base.tables.Keys
    ensures x.table in base.tables && x.table in full.tables && base.tables[x.table] == full.tables[x.table] - {x.rid}
    ensures forall n :: n in base.tables && n != x.table ==> SameRows(base.tables[n], full.tables[n])
  {
    hide *;
    OkAnywhere(base, "");
    Parts(base, "", None);
    AttachedWith(base, full, x);
    AttachedSchema(base, full, x);
    WithRows(base.tables, full.tables, x);
  }

  lemma WithRows(base: Snapshot, full: Snapshot, x: Record)
    requires With(base, full, x)
    ensures full.Keys == base.Keys && x.table in base && x.table in full && base[x.table] == full[x.table] - {x.rid}
    ensures forall n :: n in base && n != x.table ==> SameRows(base[n], full[n])
  {
    hide SameRows;
    assert base[x.table] == base[x.table][x.rid := x.row] - {x.rid};
  }

  lemma DeletedMore(s: Store, mid: Store, s': Store, t: string, rids: seq<Rid>, i: nat)
    requires t in s.tables && t in mid.tables && t in s'.tables && i < |rids| && RowsDeleted(s, mid, t, rids[i + 1..])
    requires s'.schema == mid.schema && s'.foreignRefs == mid.foreignRefs && s'.tables.Keys == mid.tables.Keys
    requires s'.tables[t] == mid.tables[t] - {rids[i]} && rids[i..] == [rids[i]] + rids[i + 1..]
    requires forall n :: n in s'.tables && n != t ==> SameRows(s'.tables[n], mid.tables[n])
    ensures RowsDeleted(s, s', t, rids[i..])
  {
    var rest, all := rids[i + 1..], rids[i..];
    var gone, more := set r | r in rest, set r | r in all;
    assert more == gone + {rids[i]};
    assert s.tables[t] - gone - {rids[i]} == s.tables[t] - more;
  }

  lemma AttachedSchema(base: Store, full: Store, x: Record)
    requires RecordOk(base.schema, x) && Attached(base, full, x)
    ensures full.schema == base.schema && full.foreignRefs == base.foreignRefs
  {
  }

  lemma StopsHere(s: Store, s': Store, t: string, rids: seq<Rid>, i: nat)
    requires i < |rids| && Referenced(s, t, rids[i]) && RowsDeleted(s, s', t, rids[i + 1..])
    requires NoneReferenced(s, t, rids[i + 1..])
    ensures DeletionStops(s, s', t, rids) && !NoneReferenced(s, t, rids)
  {
    hide Referenced, RowsDeleted;
    forall j | i < j < |rids| ensures !Referenced(s, t, rids[j]) {
      assert rids[j] == rids[i + 1..][j - i - 1];
    }
  }

  lemma OneUnreferenced(s: Store, t: string, rids: seq<Rid>, i: nat)
    requires i < |rids| && !Referenced(s, t, rids[i]) && NoneReferenced(s, t, rids[i + 1..])
    ensures NoneReferenced(s, t, rids[i..])
  {
    hide Referenced;
    assert rids[i..] == [rids[i]] + rids[i + 1..];
  }

  /** Deletes records from the last to the first.  It succeeds exactly when none of them was referenced to begin with:
      deleting some does not change how often the others are referenced. */
  method DeleteAll(files: Files, t: string, rids: seq<Rid>) returns (o: Outcome<Error>)
    requires files.Valid() && StoreOk(files.store) && t in files.schema && t in files.store.tables
    requires NoneTwice(rids) && RidsIn(files.store.tables[t], rids)
    modifies files, files.repr
    ensures files.Valid() && StoreOk(files.store) && files.repr == old(files.repr)
    ensures o == if NoneReferenced(old(files.store), t, rids) then Done else Failed(DeletingReferencedRecord)
    ensures o.Done? ==> RowsDeleted(old(files.store), files.store, t, rids)
    ensures !o.Done? ==> DeletionStops(old(files.store), files.store, t, rids)
  {
    hide *;
    ghost var full := files.store;
    SchemaHere(files);
    NoneDeleted(full, t, rids);
    for i := |rids| downto 0
      invariant files.Valid() && StoreOk(files.store) && files.repr == old(files.repr)
      invariant RowsDeleted(full, files.store, t, rids[i..]) && NoneReferenced(full, t, rids[i..])
    {
      ghost var mid := files.store;
      DeletedHere(full, mid, t, rids, i);
      o := DeleteRecord(files, t, rids[i]);
      if !o.Done? {
        StopsHere(full, files.store, t, rids, i);
        return;
      }
      DeletedNext(full, mid, files.store, t, rids, i);
      OneUnreferenced(full, t, rids, i);
    }
    assert rids[0..] == rids;
    o := Done;
  }

  /** A deletion statement.  Exactly the matching records that the plan reaches are gathered, unless its scan fails;
      they are all matching ones if the predicates bring about sure plans only.  It succeeds exactly when none of the
      gathered ones is referenced, and then exactly these are gone; the database stays consistent in any case. */
  method DeleteRecords(files: Files, t: string, preds: seq<ColumnPredicate>)
    returns (o: Outcome<Error>, rids: seq<Rid>, ghost E: seq<Predicate>)
    requires files.Valid() && StoreOk(files.store) && files.store.schema == files.schema && t in files.schema
    requires t in files.tables && t in files.store.tables
    requires LengthsOk(files.schema[t]) && AllWellFormed(files.schema, preds)
    modifies files, files.repr
    ensures files.Valid() && StoreOk(files.store) && files.repr == old(files.repr)
    ensures SnapshotOk(old(files.store).schema, old(files.store).tables) && Gathers(old(files.store), t, preds, rids)
    ensures RowsOk(files.schema[t], old(files.store).tables[t]) && old(WhereClause(files, t, preds, E))
    ensures o == Failed(ScanFailed) <==> old(WhereFails(files, t, E))
    ensures o != Failed(ScanFailed) ==> old(WhereFinds(files, files.store, t, preds, E, rids))
    ensures old(SureWhere(files, t, preds)) ==> o != Failed(ScanFailed) && GathersAll(old(files.store), t, preds, rids)
    ensures o == Failed(ScanFailed) ==> files.store == old(files.store) && rids == []
    ensures o != Failed(ScanFailed) ==>
              o == if NoneReferenced(old(files.store), t, rids) then Done else Failed(DeletingReferencedRecord)
    ensures o.Done? ==> RowsDeleted(old(files.store), files.store, t, rids)
    ensures o != Failed(ScanFailed) && !o.Done? ==> DeletionStops(old(files.store), files.store, t, rids)
  {
    hide *;
    var g;
    g, E := GatherWhere(files, t, preds);
    NothingGathered(files.store, t, preds);
    if g.Err? {
      o, rids := Failed(ScanFailed), [];
      return;
    }
    rids := g.value;
    GathersOnce(files.store, t, preds, rids);
    o := DeleteAll(files, t, rids);
  }

  lemma NothingGathered(s: Store, t: string, preds: seq<ColumnPredicate>)
    requires SnapshotOk(s.schema, s.tables) && AllWellFormed(s.schema, preds)
    ensures Gathers(s, t, preds, [])
  {
  }

  lemma GathersOnce(s: Store, t: string, preds: seq<ColumnPredicate>, rids: seq<Rid>)
    requires SnapshotOk(s.schema, s.tables) && AllWellFormed(s.schema, preds) && Gathers(s, t, preds, rids)
    ensures NoneTwice(rids)
  {
  }

  // ---------------------------------------------------------------- update

  /** An update statement.  It is refused, changing nothing, when it is for the primary key, names a column twice or
      has a null for a column without nulls.  Otherwise exactly the matching records that the plan reaches are
      gathered, unless its scan fails; they are all matching ones if the predicates bring about sure plans only.  It
      succeeds exactly when each field can be entered in the database as it was and no unique column would change to
      the same value in two of them; then exactly these records have exactly these columns updated.  If not, it stops
      at a field that cannot be entered. */
  method UpdateRecords(files: Files, t: string, cols: seq<nat>, cells: seq<Option<int>>, preds: seq<ColumnPredicate>)
    returns (o: Outcome<Error>, given: Row, rids: seq<Rid>, ghost E: seq<Predicate>)
    requires files.Valid() && StoreOk(files.store) && files.store.schema == files.schema && t in files.schema
    requires t in files.tables && t in files.store.tables && |cols| == |cells|
    requires forall i :: 0 <= i < |cols| ==> cols[i] < |files.schema[t]|
    requires LengthsOk(files.schema[t]) && AllWellFormed(files.schema, preds)
    modifies files, files.repr
    ensures files.Valid() && fresh(files.repr - old(files.repr))
    ensures SnapshotOk(old(files.store).schema, old(files.store).tables) && Gathers(old(files.store), t, preds, rids)
    ensures RowsOk(files.schema[t], old(files.store).tables[t])
    ensures !Updatable(files.schema[t], cols, cells) || o == Failed(ScanFailed) ==>
              !o.Done? && files.store == old(files.store) && rids == []
    ensures o in {Failed(InvalidPrimaryKeyUpdate), Failed(ConflictRecordFieldUpdate)} <==>
              exists i: nat :: FirstRefused(files.schema[t], cols, i)
    ensures forall i: nat :: FirstRefused(files.schema[t], cols, i) ==>
              (o == Failed(InvalidPrimaryKeyUpdate) <==> files.schema[t][cols[i]].primary)
    ensures o in {Failed(TooManyColumnsToInsert), Failed(InvalidNullField)} ==>
              forall i: nat :: !FirstRefused(files.schema[t], cols, i)
    ensures o == Failed(InvalidNullField) <==>
              NullRefused(files.schema[t], cols, cells) && forall i: nat :: !FirstRefused(files.schema[t], cols, i)
    ensures o != Failed(TooManyColumnsToInsert)
    ensures Updatable(files.schema[t], cols, cells) ==>
              old(WhereClause(files, t, preds, E)) && (o == Failed(ScanFailed) <==> old(WhereFails(files, t, E)))
    ensures Updatable(files.schema[t], cols, cells) && o != Failed(ScanFailed) ==>
              old(WhereFinds(files, files.store, t, preds, E, rids))
    ensures Updatable(files.schema[t], cols, cells) && old(SureWhere(files, t, preds)) ==>
              o != Failed(ScanFailed) && GathersAll(old(files.store), t, preds, rids)
    ensures Updatable(files.schema[t], cols, cells) && o != Failed(ScanFailed) ==>
              && AssembledAs(files.schema[t], cols, cells, given) && FitsRow(files.schema[t], given)
              && ColumnsIn(files.schema[t], cols) && RidsIn(old(files.store).tables[t], rids)
              && (o.Done? <==> UpdateWelcome(old(files.store), t, rids, cols, given))
    ensures StoreOk(files.store) <==> o.Done? || !Updatable(files.schema[t], cols, cells) || o == Failed(ScanFailed)
    ensures o.Done? ==> AllRewritten(old(files.store), files.store, t, rids, cols, given)
    ensures !StoreOk(files.store) ==>
              && o in {Failed(ConflictIndexEntry), Failed(ForeignKeyNotFound)}
              && UpdateStops(old(files.store), files.store, t, rids, cols, given, o == Failed(ConflictIndexEntry))
  {
    hide *;
    AllocatedSource(files, t);
    given, rids, E := Row([], [], 0), [], [];
    Snapshots(files.store, t);
    NothingGathered(files.store, t, preds);
    UpdatableIs(files.schema[t], cols, cells);
    Refusals(files.schema[t], cols, cells);
    o := CheckColumns(files.schema[t], cols);
    if !o.Done? {
      return;
    }
    given, o := AssembleRecord(files.schema[t], cols, cells);
    if !o.Done? {
      return;
    }
    AssembledFits(files.schema[t], cols, cells, given);
    var g;
    g, E := GatherWhere(files, t, preds);
    if g.Err? {
      o, rids := Failed(ScanFailed), [];
      return;
    }
    rids := g.value;
    GathersOnce(files.store, t, preds, rids);
    o := UpdateAll(files, t, cols, given, rids);
  }

  /** Whether an update is refused: the first column refused is the only one, and without it only a null can be. */
  lemma Refusals(desc: Descriptor, cols: seq<nat>, cells: seq<Option<int>>)
    requires |cols| == |cells| && forall i :: 0 <= i < |cols| ==> cols[i] < |desc|
    ensures forall i: nat, j: nat :: FirstRefused(desc, cols, i) && FirstRefused(desc, cols, j) ==> i == j
    ensures (forall i: nat :: !FirstRefused(desc, cols, i)) <==>
              DifferentColumns(cols) && forall i :: 0 <= i < |cols| ==> !desc[cols[i]].primary
    ensures DifferentColumns(cols) ==> |cols| <= |desc|
    ensures Updatable(desc, cols, cells) <==>
              (forall i: nat :: !FirstRefused(desc, cols, i)) && !NullRefused(desc, cols, cells)
  {
    hide NullRefused;
    var k := RefusedOrNone(desc, cols);
    if DifferentColumns(cols) {
      ColumnsFit(desc, cols);
      NullRefusedIs(desc, cols, cells);
    }
  }

  lemma RefusedOrNone(desc: Descriptor, cols: seq<nat>) returns (k: nat)
    requires forall i :: 0 <= i < |cols| ==> cols[i] < |desc|
    ensures k <= |cols| && (k < |cols| ==> FirstRefused(desc, cols, k))
    ensures k == |cols| ==> DifferentColumns(cols) && forall i :: 0 <= i < |cols| ==> !desc[cols[i]].primary
  {
    k := 0;
    while k < |cols|
      invariant k <= |cols| && DifferentColumns(cols[..k]) && forall j :: 0 <= j < k ==> !desc[cols[j]].primary
    {
      if desc[cols[k]].primary || cols[k] in cols[..k] {
        return;
      }
      assert cols[..k + 1] == cols[..k] + [cols[k]];
      k := k + 1;
    }
    assert cols[..|cols|] == cols;
  }

  // Different columns are no more than there are.
  lemma ColumnsFit(desc: Descriptor, cols: seq<nat>)
    requires DifferentColumns(cols) && forall i :: 0 <= i < |cols| ==> cols[i] < |desc|
    ensures |cols| <= |desc|
  {
    var S := set c | c in cols;
    assert forall c :: c in S ==> c < |desc|;
    PickedFrom(cols, S);
    MembersBelow(|desc|, S);
  }

  lemma {:induction false} PickedFrom(cols: seq<nat>, S: set<nat>)
    requires DifferentColumns(cols) && forall c :: c in cols ==> c in S
    ensures |cols| <= |S|
  {
    if cols != [] {
      var rest, c := cols[..|cols| - 1], cols[|cols| - 1];
      PickedFrom(rest, S - {c});
    }
  }

  lemma {:induction false} MembersBelow(n: nat, S: set<nat>)
    requires forall c :: c in S ==> c < n
    ensures |S| <= n
  {
    if n > 0 {
      MembersBelow(n - 1, S - {n - 1});
    }
  }

  lemma NullRefusedIs(desc: Descriptor, cols: seq<nat>, cells: seq<Option<int>>)
    requires |cols| == |cells| <= |desc| && forall i :: 0 <= i < |cols| ==> cols[i] < |desc|
    ensures Acceptable(desc, cols, cells) <==> !NullRefused(desc, cols, cells)
  {
  }

  lemma Snapshots(s: Store, t: string)
    requires StoreOk(s) && t in s.schema && t in s.tables
    ensures SnapshotOk(s.schema, s.tables) && RowsOk(s.schema[t], s.tables[t])
  {
  }
}
