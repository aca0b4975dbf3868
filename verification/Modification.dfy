/** Inserting, deleting and updating records in the files of a database, with their index entries and reference counts
    (src/query/query_engine.cpp). */
module Modification {
  import opened Wrappers
  import opened Sizes
  import opened Rows
  import opened TableFiles
  import opened Gather
  import opened JoinSpec
  import opened IntegritySpec
  import opened Attach
  import opened FieldUpdates
  import opened Integrity
  import opened UpdateConditions
  import opened FileSteps

  // ---------------------------------------------------------------- steps with a partly attached record

  /** The store `s` is `base` with the entries of x in the columns I, the uses of z in the columns F, and `own` at their
      place in the table: x and z are one record, or differ while a field is updated. */
  ghost predicate Partly(base: Store, s: Store, x: Record, z: Record, own: Option<Row>, I: set<nat>, F: set<nat>)
    requires RecordOk(base.schema, x) && RecordOk(base.schema, z)
  {
    && s.schema == base.schema && s.foreignRefs == base.foreignRefs
    && EntriesAre(base.schema, base.indexes, s.indexes, x, I)
    && CountsAre(base.schema, base.tables, s.tables, z, own, F)
  }

  lemma PartlyIs(base: Store, s: Store, x: Record, z: Record, own: Option<Row>, I: set<nat>, F: set<nat>)
    requires RecordOk(base.schema, x) && RecordOk(base.schema, z)
    ensures Partly(base, s, x, z, own, I, F) <==>
              && s.schema == base.schema && s.foreignRefs == base.foreignRefs
              && EntriesAre(base.schema, base.indexes, s.indexes, x, I)
              && CountsAre(base.schema, base.tables, s.tables, z, own, F)
    ensures x.table in base.schema && z.table in base.schema
    ensures |x.row.nulls| == |x.row.values| == |base.schema[x.table]|
    ensures |z.row.nulls| == |z.row.values| == |base.schema[z.table]|
  {
  }

  lemma EntryIn(base: Store, s: Store, x: Record, I: set<nat>, c: nat)
    requires RecordOk(base.schema, x) && c < |base.schema[x.table]| && IndexName(x.table, c) in base.indexes
    ensures EntriesAre(base.schema, base.indexes, s.indexes, x, I) ==> IndexName(x.table, c) in s.indexes
    ensures c !in I && EntriesAre(base.schema, base.indexes, s.indexes, x, I) ==>
              s.indexes[IndexName(x.table, c)] == base.indexes[IndexName(x.table, c)]
  {
  }

  /** The index entry of column c of x. */
  method AddEntry(files: Files, x: Record, c: nat, ghost base: Store, ghost z: Record, ghost own: Option<Row>,
                  ghost I: set<nat>,
                  ghost F: set<nat>) returns (ok: bool)
    requires RecordOk(base.schema, x) && RecordOk(base.schema, z) && files.Valid()
    requires Partly(base, files.store, x, z, own, I, F)
    requires c !in I && c < |base.schema[x.table]| && IndexName(x.table, c) in base.indexes
    modifies files, files.repr
    ensures fresh(files.repr - old(files.repr))
    ensures ok <==> EntryKey(base.schema, x, c) !in base.indexes[IndexName(x.table, c)]
    ensures files.Valid() && Partly(base, files.store, x, z, own, if ok then I + {c} else I, F)
  {
    hide *;
    SchemaHere(files);
    PartlyIs(base, files.store, x, z, own, I, F);
    EntryIn(base, files.store, x, I, c);
    files.IndexOpen(IndexName(x.table, c));
    ok := files.InsertIndexEntry(IndexName(x.table, c), EntryKey(files.schema, x, c), x.rid);
    if ok { EntryAdded(base.schema, base.indexes, old(files.store).indexes, x, I, c); }
    PartlyIs(base, files.store, x, z, own, if ok then I + {c} else I, F);
  }

  method RemoveEntry(files: Files, x: Record, c: nat, ghost base: Store, ghost z: Record, ghost own: Option<Row>,
                     ghost I: set<nat>,
                     ghost F: set<nat>)
    requires RecordOk(base.schema, x) && RecordOk(base.schema, z) && files.Valid()
    requires Partly(base, files.store, x, z, own, I, F)
    requires c in I && c < |base.schema[x.table]| && IndexName(x.table, c) in base.indexes
    modifies files, files.repr
    ensures files.repr == old(files.repr) && files.Valid() && Partly(base, files.store, x, z, own, I - {c}, F)
  {
    hide *;
    SchemaHere(files);
    PartlyIs(base, files.store, x, z, own, I, F);
    EntryIn(base, files.store, x, I, c);
    EntryRemoved(base.schema, base.indexes, files.store.indexes, x, I, c);
    files.IndexOpen(IndexName(x.table, c));
    var ok := files.DeleteIndexEntry(IndexName(x.table, c), EntryKey(files.schema, x, c));
    PartlyIs(base, files.store, x, z, own, I - {c}, F);
  }

  lemma TargetFound(base: Store, n: string, but: Option<int>, s: Store, x: Record, y: Record, I: set<nat>, c: nat)
    requires OkBut(base, n, but) && RecordOk(base.schema, x) && RecordOk(base.schema, y) && y.table == x.table
    requires c < |base.schema[y.table]| && Foreign(base.schema[y.table], y.row, c)
    requires EntriesAre(base.schema, base.indexes, s.indexes, x, I)
    ensures base.schema[y.table][c].foreign.Some? && |y.row.values| == |base.schema[y.table]|
    ensures var name, v := TargetIndex(base.schema, y, c), y.row.values[c];
            && name in s.indexes && name.table in base.schema && name.column < |base.schema[name.table]|
            && base.schema[name.table][name.column].unique
            && (v in s.indexes[name] <==> Targeted(base.schema, base.tables, y, c))
            && (v in s.indexes[name] ==> TargetIs(base, y, c, RidOf(s.indexes[name][v])))
  {
    TargetLookup(base, n, but, y, c);
    var name := TargetIndex(base.schema, y, c);
    assert FieldsOk(base.schema[name.table]);
    assert s.indexes[name] == base.indexes[name];
    hide IndexesOk, CountsOk, NoDangling, EntriesAre, IsTarget, HasKey;
  }

  /** Looks up what the foreign key in column c of y refers to. */
  method FindTarget(files: Files, y: Record, c: nat, ghost base: Store, ghost x: Record, ghost z: Record,
                    ghost own: Option<Row>,
                    ghost I: set<nat>, ghost F: set<nat>, ghost n: string,
                        ghost but: Option<int>) returns (r: Option<Rid>)
    requires RecordOk(base.schema, x) && RecordOk(base.schema, z) && files.Valid()
    requires Partly(base, files.store, x, z, own, I, F) && OkBut(base, n, but)
    requires RecordOk(base.schema, y) && y.table == x.table && c < |base.schema[y.table]|
    requires Foreign(base.schema[y.table], y.row, c)
    ensures base.schema[y.table][c].foreign.Some?
    ensures r.Some? <==> Targeted(base.schema, base.tables, y, c)
    ensures r.Some? ==> TargetIs(base, y, c, r.value)
  {
    hide *;
    SchemaHere(files);
    PartlyIs(base, files.store, x, z, own, I, F);
    TargetFound(base, n, but, files.store, x, y, I, c);
    files.IndexOpen(TargetIndex(base.schema, y, c));
    r := files.Lookup(TargetIndex(files.schema, y, c), y.row.values[c]);
  }

  lemma TargetReal(base: Store, x: Record, c: nat, r: Rid)
    requires RecordOk(base.schema, x) && SchemaOk(base.schema) && SnapshotOk(base.schema, base.tables)
    requires TargetIs(base, x, c, r)
    ensures c < |base.schema[x.table]| && base.schema[x.table][c].foreign.Some? && r.page != 0
  {
    var n := base.schema[x.table][c].foreign.value.table;
    assert RowsOk(base.schema[n], base.tables[n]);
  }

  method AddUse(files: Files, z: Record, c: nat, r: Rid, ghost base: Store, ghost x: Record, ghost own: Option<Row>,
                ghost I: set<nat>,
                ghost F: set<nat>)
    requires RecordOk(base.schema, x) && RecordOk(base.schema, z) && SchemaOk(base.schema)
    requires SnapshotOk(base.schema, base.tables)
    requires files.Valid() && Partly(base, files.store, x, z, own, I, F) && c !in F && TargetIs(base, z, c, r)
    modifies files, files.repr
    ensures files.repr == old(files.repr) && files.Valid() && Partly(base, files.store, x, z, own, I, F + {c})
  {
    hide *;
    SchemaHere(files);
    PartlyIs(base, files.store, x, z, own, I, F);
    TargetReal(base, z, c, r);
    UseAdded(base, files.store.tables, z, own, F, c, r);
    var t := files.schema[z.table][c].foreign.value.table;
    files.TableOpen(t);
    var ok := files.AddReference(t, files.schema[t], r);
    PartlyIs(base, files.store, x, z, own, I, F + {c});
  }

  method DropUse(files: Files, z: Record, c: nat, r: Rid, ghost base: Store, ghost x: Record, ghost own: Option<Row>,
                 ghost I: set<nat>,
                 ghost F: set<nat>)
    requires RecordOk(base.schema, x) && RecordOk(base.schema, z) && SchemaOk(base.schema)
    requires SnapshotOk(base.schema, base.tables)
    requires files.Valid() && Partly(base, files.store, x, z, own, I, F) && c in F && TargetIs(base, z, c, r)
    modifies files, files.repr
    ensures files.repr == old(files.repr) && files.Valid() && Partly(base, files.store, x, z, own, I, F - {c})
  {
    hide *;
    SchemaHere(files);
    PartlyIs(base, files.store, x, z, own, I, F);
    TargetReal(base, z, c, r);
    UseDropped(base, files.store.tables, z, own, F, c, r);
    var t := files.schema[z.table][c].foreign.value.table;
    files.TableOpen(t);
    var ok := files.DropReference(t, files.schema[t], r);
    PartlyIs(base, files.store, x, z, own, I, F - {c});
  }

  lemma OwnThere(base: Store, s: Store, z: Record, own: Option<Row>, F: set<nat>)
    requires RecordOk(base.schema, z) && CountsAre(base.schema, base.tables, s.tables, z, own, F)
    ensures z.table in s.tables && z.rid.page != 0 && (own.Some? ==> z.rid in s.tables[z.table])
  {
  }

  /** Rewrites the row of the record. */
  method SetRow(files: Files, z: Record, row: Row, ghost base: Store, ghost x: Record, ghost own: Option<Row>,
                ghost I: set<nat>, ghost F: set<nat>)
    requires RecordOk(base.schema, x) && RecordOk(base.schema, z) && files.Valid()
    requires Partly(base, files.store, x, z, own, I, F) && own.Some?
    modifies files, files.repr
    ensures files.repr == old(files.repr) && files.Valid() && Partly(base, files.store, x, z, Some(row), I, F)
  {
    hide *;
    PartlyIs(base, files.store, x, z, own, I, F);
    OwnThere(base, files.store, z, own, F);
    files.TableOpen(z.table);
    OwnChanged(base.schema, base.tables, files.store.tables, z, own, Some(row), F);
    var ok := files.UpdateRow(z.table, z.rid, was => row);
    PartlyIs(base, files.store, x, z, Some(row), I, F);
  }

  /** Takes the row of the record away. */
  method TakeRow(files: Files, z: Record, ghost base: Store, ghost x: Record, ghost own: Option<Row>,
                 ghost I: set<nat>, ghost F: set<nat>)
    requires RecordOk(base.schema, x) && RecordOk(base.schema, z) && files.Valid()
    requires Partly(base, files.store, x, z, own, I, F) && own.Some?
    modifies files, files.repr
    ensures files.repr == old(files.repr) && files.Valid() && Partly(base, files.store, x, z, None, I, F)
  {
    hide *;
    PartlyIs(base, files.store, x, z, own, I, F);
    OwnThere(base, files.store, z, own, F);
    files.TableOpen(z.table);
    OwnChanged(base.schema, base.tables, files.store.tables, z, own, None, F);
    files.DeleteRow(z.table, z.rid);
    PartlyIs(base, files.store, x, z, None, I, F);
  }

  lemma PartlyFirst(base: Store, s: Store, x: Record)
    requires RecordOk(base.schema, x) && SnapshotOk(base.schema, base.tables) && x.rid !in base.tables[x.table]
    requires s == base.(tables := base.tables[x.table := base.tables[x.table][x.rid := x.row]])
    ensures Partly(base, s, x, x, Some(x.row), {}, {})
  {
    NoEntries(base.schema, base.indexes, x);
    NoCounts(base.schema, base.tables, x);
    OwnChanged(base.schema, base.tables, base.tables, x, None, Some(x.row), {});
  }

  lemma PartlyNothing(base: Store, s: Store, x: Record)
    requires RecordOk(base.schema, x) && SnapshotOk(base.schema, base.tables) && Partly(base, s, x, x, None, {}, {})
    ensures s == base
  {
    NoEntries(base.schema, base.indexes, x);
    NoCounts(base.schema, base.tables, x);
  }

  lemma PartlyAll(base: Store, s: Store, x: Record)
    requires RecordOk(base.schema, x)
    ensures Partly(base, s, x, x, Some(x.row), Indexed(base.schema, x), Using(base.schema, x)) <==> Attached(base, s, x)
  {
  }

  // ---------------------------------------------------------------- insertion

  /** Undoes what an insertion has done so far.  None of its steps can fail. */
  method Rollback(files: Files, x: Record, indexed: seq<nat>, cols: seq<nat>, rids: seq<Rid>, ghost base: Store,
                  ghost I: set<nat>,
                  ghost F: set<nat>)
    requires StoreOk(base) && RecordOk(base.schema, x) && files.Valid()
    requires Partly(base, files.store, x, x, Some(x.row), I, F) && I <= Indexed(base.schema, x)
    requires Lists(indexed, I) && Lists(cols, F) && TargetsAre(base, x, cols, rids)
    modifies files, files.repr
    ensures files.Valid() && files.repr == old(files.repr) && files.store == base
  {
    hide *;
    OkAnywhere(base, "");
    Parts(base, "", None);
    TakeRow(files, x, base, x, Some(x.row), I, F);  // recover insertion into the table
    assert indexed[0..] == indexed && cols[0..] == cols;
    ghost var J, G := I, F;
    for i := 0 to |indexed|  // recover insertion into indexes
      invariant files.repr == old(files.repr) && files.Valid() && Partly(base, files.store, x, x, None, J, F)
      invariant Lists(indexed[i..], J) && J <= Indexed(base.schema, x)
    {
      ListsLess(indexed, J, i);
      IndexThere(base, x, indexed[i]);
      RemoveEntry(files, x, indexed[i], base, x, None, J, F);
      J := J - {indexed[i]};
    }
    assert indexed[|indexed|..] == [];
    ListsEmpty(J);
    for i := 0 to |cols|  // recover foreign key reference counts
      invariant files.repr == old(files.repr) && files.Valid() && Partly(base, files.store, x, x, None, {}, G)
      invariant Lists(cols[i..], G)
    {
      ListsLess(cols, G, i);
      TargetAt(base, x, cols, rids, i);
      DropUse(files, x, cols[i], rids[i], base, x, None, {}, G);
      G := G - {cols[i]};
    }
    assert cols[|cols|..] == [];
    ListsEmpty(G);
    PartlyNothing(base, files.store, x);
  }

  /** One column of an insertion: its index entry, then its use of a foreign key. */
  method AttachColumn(files: Files, x: Record, i: nat, ghost base: Store, ghost I: set<nat>, ghost F: set<nat>)
    returns (o: Outcome<Error>, entered: bool, target: Option<Rid>)
    requires StoreOk(base) && RecordOk(base.schema, x) && i < |base.schema[x.table]|
    requires I == Indexed(base.schema, x) && F == Using(base.schema, x)
    requires files.Valid() && Partly(base, files.store, x, x, Some(x.row), Below(I, i), Below(F, i))
    modifies files, files.repr
    ensures fresh(files.repr - old(files.repr))
    ensures entered ==> i in I && FreshIn(base, x, i)
    ensures target.Some? ==> i in F && TargetIs(base, x, i, target.value) && TargetedIn(base, x, i)
    ensures files.Valid()
    ensures Partly(base, files.store, x, x, Some(x.row), if entered then Below(I, i) + {i} else Below(I, i),
                   if target.Some? then Below(F, i) + {i} else Below(F, i))
    ensures o.Done? ==> (entered <==> i in I) && (target.Some? <==> i in F)
    ensures o.Done? <==> FieldWelcome(base, x, i)
    ensures o == Failed(ConflictIndexEntry) <==> i in I && !FreshIn(base, x, i)
    ensures o == Failed(ForeignKeyNotFound) <==>
              !(i in I && !FreshIn(base, x, i)) && i in F && !TargetedIn(base, x, i)
    ensures o in {Done, Failed(ConflictIndexEntry), Failed(ForeignKeyNotFound)}
  {
    hide *;
    SchemaHere(files);
    OkAnywhere(base, "");
    Parts(base, "", None);
    PartlyIs(base, files.store, x, x, Some(x.row), Below(I, i), Below(F, i));
    ColumnIs(base.schema, x, i);
    FreshInIs(base, x, i);
    FieldWelcomeIs(base, x, i);
    Bounds(I, i);
    Bounds(F, i);
    entered, target := false, None;
    var desc := files.schema[x.table];
    var isNull := desc[i].nullable && x.row.nulls[i];
    if desc[i].indexed && !isNull {  // if indexed and not null, insert into the index as well
      IndexThere(base, x, i);
      entered := AddEntry(files, x, i, base, x, Some(x.row), Below(I, i), Below(F, i));
      if !entered {
        return Failed(ConflictIndexEntry), false, None;
      }
    }
    ghost var J := if entered then Below(I, i) + {i} else Below(I, i);
    if desc[i].foreign.Some? && !isNull {  // update foreign key reference count if not null
      target := FindTarget(files, x, i, base, x, x, Some(x.row), J, Below(F, i), "", None);
      if target.None? {
        return Failed(ForeignKeyNotFound), entered, None;
      }
      AddUse(files, x, i, target.value, base, x, Some(x.row), J, Below(F, i));
    }
    o := Done;
  }

  /** The next column of an insertion, saved for a rollback; a failure undoes everything. */
  method AttachNext(files: Files, x: Record, i: nat, indexed: seq<nat>, cols: seq<nat>, rids: seq<Rid>,
                    ghost base: Store,
                    ghost I: set<nat>, ghost F: set<nat>)
    returns (o: Outcome<Error>, indexed': seq<nat>, cols': seq<nat>, rids': seq<Rid>)
    requires StoreOk(base) && RecordOk(base.schema, x) && i < |base.schema[x.table]|
    requires I == Indexed(base.schema, x) && F == Using(base.schema, x)
    requires files.Valid() && Partly(base, files.store, x, x, Some(x.row), Below(I, i), Below(F, i))
    requires Saved(base, x, indexed, cols, rids, Below(I, i), Below(F, i))
    modifies files, files.repr
    ensures fresh(files.repr - old(files.repr))
    ensures o.Done? ==>
              && files.Valid() && Partly(base, files.store, x, x, Some(x.row), Below(I, i + 1), Below(F, i + 1))
              && Saved(base, x, indexed', cols', rids', Below(I, i + 1), Below(F, i + 1))
    ensures !o.Done? ==>
              files.Valid() && files.store == base && !(Fresh(base, x) && AllTargeted(base.schema, base.tables, x))
    ensures o.Done? <==> FieldWelcome(base, x, i)
    ensures o == Failed(ConflictIndexEntry) <==> i in I && !FreshIn(base, x, i)
    ensures o == Failed(ForeignKeyNotFound) <==>
              !(i in I && !FreshIn(base, x, i)) && i in F && !TargetedIn(base, x, i)
    ensures o in {Done, Failed(ConflictIndexEntry), Failed(ForeignKeyNotFound)}
  {
    hide *;
    Bounds(I, i);
    Bounds(F, i);
    var entered, target;
    o, entered, target := AttachColumn(files, x, i, base, I, F);
    SavedMore(base, x, i, indexed, cols, rids, entered, target);
    indexed' := if entered then indexed + [i] else indexed;  // save column index for rollbacks
    cols' := if target.Some? then cols + [i] else cols;
    rids' := if target.Some? then rids + [target.value] else rids;
    FieldWelcomeIs(base, x, i);
    if !o.Done? {
      ghost var J := if entered then Below(I, i) + {i} else Below(I, i);
      ghost var G := if target.Some? then Below(F, i) + {i} else Below(F, i);
      NotAll(base, x, i);
      SavedLists(base, x, indexed', cols', rids', J, G);
      Rollback(files, x, indexed', cols', rids', base, J, G);
    }
  }

  /** What entering all fields of x comes to: it fails at the first column that is rejected, for a conflict exactly when
      the key of x is in the index there, and for the foreign key exactly when it is not and there is no target. */
  ghost predicate EntryOutcome(base: Store, x: Record, o: Outcome<Error>)
    requires RecordOk(base.schema, x)
  {
    && (o.Done? <==> forall i: nat :: !FirstRejected(base, x, i))
    && forall i: nat :: FirstRejected(base, x, i) ==>
         && (o == Failed(ConflictIndexEntry) <==> i in Indexed(base.schema, x) && !FreshIn(base, x, i))
         && (o == Failed(ForeignKeyNotFound) <==>
               && !(i in Indexed(base.schema, x) && !FreshIn(base, x, i))
               && i in Using(base.schema, x) && !TargetedIn(base, x, i))
  }

  /** All columns of an insertion. */
  method AttachColumns(files: Files, x: Record, ghost base: Store) returns (o: Outcome<Error>)
    requires StoreOk(base) && RecordOk(base.schema, x) && files.Valid()
    requires Partly(base, files.store, x, x, Some(x.row), {}, {})
    modifies files, files.repr
    ensures files.Valid() && fresh(files.repr - old(files.repr))
    ensures o.Done? <==> Fresh(base, x) && AllTargeted(base.schema, base.tables, x)
    ensures o.Done? ==> Partly(base, files.store, x, x, Some(x.row), Indexed(base.schema, x), Using(base.schema, x))
    ensures !o.Done? ==> files.store == base
    ensures EntryOutcome(base, x, o) && o in {Done, Failed(ConflictIndexEntry), Failed(ForeignKeyNotFound)}
  {
    hide *;
    SchemaHere(files);
    PartlyIs(base, files.store, x, x, Some(x.row), {}, {});
    ghost var I, F := Indexed(base.schema, x), Using(base.schema, x);
    var indexed: seq<nat>, cols: seq<nat>, rids: seq<Rid> := [], [], [];
    SavedNone(base, x);
    Bounds(I, 0);
    Bounds(F, 0);
    var n := |files.schema[x.table]|;
    for i := 0 to n
      invariant files.Valid() && fresh(files.repr - old(files.repr))
      invariant Partly(base, files.store, x, x, Some(x.row), Below(I, i), Below(F, i))
      invariant Saved(base, x, indexed, cols, rids, Below(I, i), Below(F, i))
      invariant forall j: nat :: j < i ==> FieldWelcome(base, x, j)
    {
      o, indexed, cols, rids := AttachNext(files, x, i, indexed, cols, rids, base, I, F);
      if !o.Done? {
        RejectedHere(base, x, i, o);
        return;
      }
    }
    o := Done;
    NoneRejected(base, x);
    SavedAll(base, x, indexed, cols, rids);
  }

  lemma RejectedHere(base: Store, x: Record, i: nat, o: Outcome<Error>)
    requires RecordOk(base.schema, x) && i < |base.schema[x.table]| && !FieldWelcome(base, x, i) && !o.Done?
    requires forall j: nat :: j < i ==> FieldWelcome(base, x, j)
    requires o == Failed(ConflictIndexEntry) <==> i in Indexed(base.schema, x) && !FreshIn(base, x, i)
    requires o == Failed(ForeignKeyNotFound) <==>
               && !(i in Indexed(base.schema, x) && !FreshIn(base, x, i))
               && i in Using(base.schema, x) && !TargetedIn(base, x, i)
    ensures EntryOutcome(base, x, o)
  {
    hide FieldWelcome, FreshIn, TargetedIn, Indexed, Using;
    assert FirstRejected(base, x, i);
    forall k: nat | FirstRejected(base, x, k) ensures k == i {
    }
  }

  lemma NoneRejected(base: Store, x: Record)
    requires RecordOk(base.schema, x) && forall j: nat :: j < |base.schema[x.table]| ==> FieldWelcome(base, x, j)
    ensures EntryOutcome(base, x, Done)
  {
    hide FieldWelcome, FreshIn, TargetedIn;
  }

  lemma RidOk(schema: Schema, x: Record)
    requires 1 <= x.rid.page < TWO31 - 1 && 0 <= x.rid.slot < MAX_SLOTS
    requires x.table in schema && FitsRow(schema[x.table], x.row)
    ensures RecordOk(schema, x)
  {
  }

  lemma SchemaHere(files: Files)
    requires files.Valid()
    ensures files.store.schema == files.schema
  {
  }

  /** Inserts a row into its table, the indexes of its columns that are not null, and the reference counts of the
      records that it refers to, or fails and leaves everything as it was. */
  method InsertEverywhere(files: Files, t: string, row: Row) returns (o: Outcome<Error>, rid: Rid)
    requires files.Valid() && StoreOk(files.store) && t in files.schema && FitsRow(files.schema[t], row)
    requires t in files.tables && files.tables[t].pageCount < TWO31 - 1
    modifies files, files.repr
    ensures files.Valid() && fresh(files.repr - old(files.repr))
    ensures old(files.store).schema == files.schema && t in old(files.store).tables
    ensures rid !in old(files.store).tables[t]
    ensures RecordOk(old(files.store).schema, Record(t, rid, row))
    ensures o.Done? <==>
              Fresh(old(files.store), Record(t, rid, row)) &&
              AllTargeted(old(files.store).schema, old(files.store).tables, Record(t, rid, row))
    ensures EntryOutcome(old(files.store), Record(t, rid, row), o)
    ensures o in {Done, Failed(ConflictIndexEntry), Failed(ForeignKeyNotFound)}
    ensures o.Done? ==> Attached(old(files.store), files.store, Record(t, rid, row))
    ensures !o.Done? ==> files.store == old(files.store)
  {
    ghost var base := files.store;
    hide *;
    OkAnywhere(base, "");
    Parts(base, "", None);
    SchemaHere(files);
    rid := files.InsertRow(t, row);  // first insert the record into the table
    var x := Record(t, rid, row);
    RidOk(base.schema, x);
    PartlyFirst(base, files.store, x);
    o := AttachColumns(files, x, base);
    PartlyAll(base, files.store, x);
  }

  /** Inserts a record with the given first cells.  It succeeds exactly when the cells suit the table, no unique
      column has the value already and every foreign key exists; a failure at any column leaves all records, index
      entries and reference counts as they were. */
  method InsertRecord(files: Files, t: string, cells: seq<Option<int>>) returns (o: Outcome<Error>, rid: Rid, row: Row)
    requires files.Valid() && StoreOk(files.store) && t in files.schema
    requires t in files.tables && files.tables[t].pageCount < TWO31 - 1
    modifies files, files.repr
    ensures files.Valid() && StoreOk(files.store) && fresh(files.repr - old(files.repr))
    ensures old(files.store).schema == files.schema
    ensures Acceptable(files.schema[t], FirstColumns(|cells|), cells) ==>
              && AssembledAs(files.schema[t], FirstColumns(|cells|), cells, row)
              && t in old(files.store).tables && rid !in old(files.store).tables[t]
              && RecordOk(old(files.store).schema, Record(t, rid, row))
    ensures o.Done? <==>
              && Acceptable(files.schema[t], FirstColumns(|cells|), cells)
              && Fresh(old(files.store), Record(t, rid, row))
              && AllTargeted(old(files.store).schema, old(files.store).tables, Record(t, rid, row))
    ensures o == Failed(TooManyColumnsToInsert) <==> |cells| > |files.schema[t]|
    ensures o == Failed(InvalidNullField) <==>
              && |cells| <= |files.schema[t]|
              && exists i :: 0 <= i < |cells| && cells[i].None? && !files.schema[t][i].nullable
    ensures Acceptable(files.schema[t], FirstColumns(|cells|), cells) ==>
              EntryOutcome(old(files.store), Record(t, rid, row), o)
    ensures o.Done? ==> Attached(old(files.store), files.store, Record(t, rid, row))
    ensures !o.Done? ==> files.store == old(files.store)
  {
    hide *;
    rid := NO_RID;
    SchemaHere(files);
    ColumnsFirst(|cells|);
    NullsFirst(files.schema[t], cells);
    row, o := AssembleRecord(files.schema[t], FirstColumns(|cells|), cells);
    if !o.Done? {
      return;
    }
    AssembledFits(files.schema[t], FirstColumns(|cells|), cells, row);
    o, rid := InsertAssembled(files, t, row);
  }

  method InsertAssembled(files: Files, t: string, row: Row) returns (o: Outcome<Error>, rid: Rid)
    requires files.Valid() && StoreOk(files.store) && t in files.schema && FitsRow(files.schema[t], row)
    requires t in files.tables && files.tables[t].pageCount < TWO31 - 1 && row.refs == 0
    modifies files, files.repr
    ensures files.Valid() && StoreOk(files.store) && fresh(files.repr - old(files.repr))
    ensures old(files.store).schema == files.schema && t in old(files.store).tables
    ensures rid !in old(files.store).tables[t]
    ensures RecordOk(old(files.store).schema, Record(t, rid, row))
    ensures o.Done? <==>
              Fresh(old(files.store), Record(t, rid, row)) &&
              AllTargeted(old(files.store).schema, old(files.store).tables, Record(t, rid, row))
    ensures EntryOutcome(old(files.store), Record(t, rid, row), o)
    ensures o in {Done, Failed(ConflictIndexEntry), Failed(ForeignKeyNotFound)}
    ensures o.Done? ==> Attached(old(files.store), files.store, Record(t, rid, row))
    ensures !o.Done? ==> files.store == old(files.store)
  {
    hide *;
    ghost var base := files.store;
    o, rid := InsertEverywhere(files, t, row);
    InsertEnds(base, files.store, Record(t, rid, row));
  }

  lemma NullsFirst(desc: Descriptor, cells: seq<Option<int>>)
    ensures NullRefused(desc, FirstColumns(|cells|), cells) <==>
              exists i :: 0 <= i < |cells| && cells[i].None? && i < |desc| && !desc[i].nullable
    ensures Acceptable(desc, FirstColumns(|cells|), cells) <==>
              |cells| <= |desc| && !NullRefused(desc, FirstColumns(|cells|), cells)
  {
  }

  lemma InsertEnds(base: Store, s: Store, x: Record)
    requires StoreOk(base) && RecordOk(base.schema, x) && x.row.refs == 0
    ensures Fresh(base, x) && AllTargeted(base.schema, base.tables, x) && Attached(base, s, x) ==> StoreOk(s)
  {
    hide *;
    if Fresh(base, x) && AllTargeted(base.schema, base.tables, x) && Attached(base, s, x) {
      FreshWelcome(base, x);
      AttachOk(base, s, x);
    }
  }

  lemma AssembledFits(desc: Descriptor, cols: seq<nat>, cells: seq<Option<int>>, row: Row)
    requires AssembledAs(desc, cols, cells, row)
    ensures FitsRow(desc, row) && row.refs == 0
  {
  }

  lemma ColumnsFirst(n: nat)
    ensures |FirstColumns(n)| == n && DifferentColumns(FirstColumns(n))
    ensures forall i :: 0 <= i < n ==> FirstColumns(n)[i] == i
  {
  }

  // ---------------------------------------------------------------- deletion

  /** One column of a deletion. */
  method DetachColumn(files: Files, x: Record, i: nat, ghost base: Store, ghost I: set<nat>, ghost F: set<nat>)
    requires RecordOk(base.schema, x) && OkBut(base, x.table, KeyFor(base.schema, x))
    requires AllTargeted(base.schema, base.tables, x)
    requires i < |base.schema[x.table]| && I == Indexed(base.schema, x) && F == Using(base.schema, x)
    requires files.Valid() && Partly(base, files.store, x, x, Some(x.row), Since(I, i), Since(F, i))
    modifies files, files.repr
    ensures files.Valid() && files.repr == old(files.repr)
    ensures Partly(base, files.store, x, x, Some(x.row), Since(I, i + 1), Since(F, i + 1))
  {
    hide *;
    SchemaHere(files);
    Parts(base, x.table, KeyFor(base.schema, x));
    PartlyIs(base, files.store, x, x, Some(x.row), Since(I, i), Since(F, i));
    ColumnIs(base.schema, x, i);
    Bounds(I, i);
    Bounds(F, i);
    var desc := files.schema[x.table];
    if desc[i].nullable && x.row.nulls[i] {  // skip if null
      return;
    }
    if desc[i].indexed {  // remove from index
      IndexThere(base, x, i);
      RemoveEntry(files, x, i, base, x, Some(x.row), Since(I, i), Since(F, i));
    }
    if desc[i].foreign.Some? {  // drop foreign record reference count
      var r := FindTarget(files, x, i, base, x, x, Some(x.row), Since(I, i + 1), Since(F, i), x.table,
          KeyFor(base.schema, x));
      TargetedAll(base, x, i);
      DropUse(files, x, i, r.value, base, x, Some(x.row), Since(I, i + 1), Since(F, i));
    }
  }

  /** Takes a record away; refused exactly when it is referenced.  Once past that check no step can fail: exactly the
      record, its index entries and its uses of foreign keys are gone. */
  method DeleteRecord(files: Files, t: string, rid: Rid) returns (o: Outcome<Error>)
    requires files.Valid() && StoreOk(files.store) && t in files.schema && t in files.store.tables
    requires rid in files.store.tables[t]
    modifies files, files.repr
    ensures files.Valid() && StoreOk(files.store) && files.repr == old(files.repr)
    ensures o == if ReferenceCounted(files.schema[t]) && old(files.store).tables[t][rid].refs != 0
        then Failed(DeletingReferencedRecord) else Done
    ensures !o.Done? ==> files.store == old(files.store)
    ensures o.Done? ==>
              var x := Record(t, rid, old(files.store).tables[t][rid]);
              RecordOk(files.store.schema, x) && Attached(files.store, old(files.store), x)
  {
    hide *;
    SchemaHere(files);
    var row := RowOf(files, t, rid);
    LivesIs(files.store, Record(t, rid, row));
    o := DeleteLive(files, Record(t, rid, row));
  }

  method DeleteLive(files: Files, x: Record) returns (o: Outcome<Error>)
    requires files.Valid() && StoreOk(files.store) && Lives(files.store, x) && RecordOk(files.schema, x)
    requires files.store.schema == files.schema
    modifies files, files.repr
    ensures files.Valid() && StoreOk(files.store) && files.repr == old(files.repr)
    ensures o == if ReferenceCounted(files.schema[x.table]) && x.row.refs != 0 then Failed(DeletingReferencedRecord)
        else Done
    ensures !o.Done? ==> files.store == old(files.store)
    ensures o.Done? ==> RecordOk(files.store.schema, x) && Attached(files.store, old(files.store), x)
  {
    hide *;
    RecordFits(files.schema, x);
    if ReferenceCounted(files.schema[x.table]) && x.row.refs != 0 {  // check primary key constraint
      return Failed(DeletingReferencedRecord);
    }
    ghost var base := Detached(files.store, x);
    DeleteStarts(files.store, x);
    TakeAway(files, x, base);
    o := Done;
  }

  lemma DeleteStarts(full: Store, x: Record)
    requires StoreOk(full) && Lives(full, x) && RecordOk(full.schema, x)
    requires (ReferenceCounted(full.schema[x.table]) ==> x.row.refs == 0)
    ensures var base := Detached(full, x);
            && base.schema == full.schema && RecordOk(base.schema, x) && OkBut(base, x.table, KeyFor(base.schema, x))
            && Welcome(base, x)
            && Attached(base, full, x) && StoreOk(base)
  {
    hide *;
    DetachOk(full, x);
    DetachedSchema(full, x);
    Unreferenced(Detached(full, x), x);
  }

  /** A row of the table. */
  method RowOf(files: Files, t: string, rid: Rid) returns (row: Row)
    requires files.Valid() && StoreOk(files.store) && t in files.store.tables && rid in files.store.tables[t]
    ensures row == files.store.tables[t][rid]
  {
    hide *;
    files.TableOpen(t);
    RidReal(files.store, t, rid);
    var r := files.GetRow(t, rid);
    row := r.value;
  }

  lemma RidReal(s: Store, t: string, rid: Rid)
    requires StoreOk(s) && t in s.tables && rid in s.tables[t]
    ensures t in s.schema && rid.page != 0
  {
    assert RowsOk(s.schema[t], s.tables[t]);
  }

  /** Undoes what attaching x did to the store `base`. */
  method TakeAway(files: Files, x: Record, ghost base: Store)
    requires RecordOk(base.schema, x) && OkBut(base, x.table, KeyFor(base.schema, x)) && Welcome(base, x)
    requires files.Valid() && Attached(base, files.store, x)
    modifies files, files.repr
    ensures files.Valid() && files.repr == old(files.repr) && files.store == base
  {
    hide *;
    SchemaHere(files);
    Parts(base, x.table, KeyFor(base.schema, x));
    WelcomeTargets(base, x);
    ghost var I, F := Indexed(base.schema, x), Using(base.schema, x);
    PartlyAll(base, files.store, x);
    PartlyIs(base, files.store, x, x, Some(x.row), I, F);
    Bounds(I, 0);
    Bounds(F, 0);
    var n := |files.schema[x.table]|;
    for i := 0 to n
      invariant files.Valid() && files.repr == old(files.repr)
      invariant Partly(base, files.store, x, x, Some(x.row), Since(I, i), Since(F, i))
    {
      DetachColumn(files, x, i, base, I, F);
    }
    AllColumns(base, x);
    Bounds(I, n);
    Bounds(F, n);
    TakeRow(files, x, base, x, Some(x.row), {}, {});  // remove it from the table
    PartlyNothing(base, files.store, x);
  }

  // ---------------------------------------------------------------- update

  lemma EntriesPass(base: Store, s: Store, x: Record, y: Record, z: Record, c: nat, own: Option<Row>, I: set<nat>,
                    F: set<nat>)
    requires RecordOk(base.schema, x) && RecordOk(base.schema, y) && RecordOk(base.schema, z)
    requires Partly(base, s, x, z, own, I, F)
    requires ColumnChanged(base.schema, x, y, c) && c !in I
    ensures Partly(base, s, y, z, own, I, F)
  {
    hide CountsAre;
    EntriesOfBoth(base.schema, base.indexes, s.indexes, x, y, I);
  }

  lemma UsesPass(base: Store, s: Store, x: Record, y: Record, z: Record, c: nat, own: Option<Row>, I: set<nat>,
                 F: set<nat>)
    requires RecordOk(base.schema, x) && RecordOk(base.schema, y) && RecordOk(base.schema, z)
    requires Partly(base, s, z, x, own, I, F)
    requires ColumnChanged(base.schema, x, y, c) && c !in F
    ensures Partly(base, s, z, y, own, I, F)
  {
    hide EntriesAre;
    CountsOfBoth(base.schema, base.tables, s.tables, x, y, own, F);
  }

  /** The index entry of an updated column. */
  method UpdateEntry(files: Files, x: Record, y: Record, c: nat, ghost base: Store, ghost own: Option<Row>,
                     ghost F: set<nat>)
    returns (ok: bool)
    requires RecordOk(base.schema, x) && RecordOk(base.schema, y) && SnapshotOk(base.schema, base.tables)
    requires IndexesOk(base)
    requires c < |base.schema[x.table]| && base.schema[x.table][c].indexed && ColumnChanged(base.schema, x, y, c)
    requires files.Valid() && Partly(base, files.store, x, x, own, Indexed(base.schema, x), F)
    modifies files, files.repr
    ensures files.Valid() && fresh(files.repr - old(files.repr))
    ensures ok <==> (c in Indexed(base.schema, y) ==> FreshIn(base, y, c))
    ensures Partly(base, files.store, y, x, own, if ok then Indexed(base.schema, y)
        else Indexed(base.schema, y) - {c}, F)
  {
    hide *;
    SchemaHere(files);
    PartlyIs(base, files.store, x, x, own, Indexed(base.schema, x), F);
    ColumnIs(base.schema, x, c);
    SetsChanged(base.schema, x, y, c);
    ColumnIs(base.schema, y, c);
    FreshInIs(base, y, c);
    ghost var I := Indexed(base.schema, x);
    var nullable := files.schema[x.table][c].nullable;
    if !(nullable && x.row.nulls[c]) {
      IndexThere(base, x, c);
      RemoveEntry(files, x, c, base, x, own, I, F);
    }
    EntriesPass(base, files.store, x, y, x, c, own, I - {c}, F);
    ok := true;
    if !(nullable && y.row.nulls[c]) {
      IndexThere(base, y, c);
      ok := AddEntry(files, y, c, base, x, own, I - {c}, F);
    }
  }

  /** The foreign key of an updated column. */
  method UpdateUse(files: Files, x: Record, y: Record, c: nat, ghost base: Store, ghost own: Option<Row>,
                   ghost I: set<nat>)
    returns (ok: bool)
    requires RecordOk(base.schema, x) && RecordOk(base.schema, y) && OkBut(base, x.table, KeyFor(base.schema, x))
    requires AllTargeted(base.schema, base.tables, x)
    requires c < |base.schema[x.table]| && base.schema[x.table][c].foreign.Some? && ColumnChanged(base.schema, x, y, c)
    requires files.Valid() && Partly(base, files.store, y, x, own, I, Using(base.schema, x))
    modifies files, files.repr
    ensures files.Valid() && files.repr == old(files.repr)
    ensures ok <==> (c in Using(base.schema, y) ==> TargetedIn(base, y, c))
    ensures Partly(base, files.store, y, y, own, I, if ok then Using(base.schema, y) else Using(base.schema, y) - {c})
  {
    hide *;
    SchemaHere(files);
    Parts(base, x.table, KeyFor(base.schema, x));
    ghost var F := Using(base.schema, x);
    PartlyIs(base, files.store, y, x, own, I, F);
    ColumnIs(base.schema, x, c);
    SetsChanged(base.schema, x, y, c);
    ColumnIs(base.schema, y, c);
    FreshInIs(base, y, c);
    var nullable := files.schema[x.table][c].nullable;
    if !(nullable && x.row.nulls[c]) {
      var r := FindTarget(files, x, c, base, y, x, own, I, F, x.table, KeyFor(base.schema, x));
      TargetedAll(base, x, c);
      DropUse(files, x, c, r.value, base, y, own, I, F);
    }
    UsesPass(base, files.store, x, y, y, c, own, I, F - {c});
    ok := true;
    if !(nullable && y.row.nulls[c]) {
      var r := FindTarget(files, y, c, base, y, y, own, I, F - {c}, x.table, KeyFor(base.schema, x));
      if r.None? {
        return false;
      }
      AddUse(files, y, c, r.value, base, y, own, I, F - {c});
    }
  }

  /** What is done when the index entry or the use of an updated column cannot be entered. */
  ghost predicate Halted(base: Store, s: Store, x: Record, y: Record, c: nat, own: Option<Row>)
    requires RecordOk(base.schema, x) && RecordOk(base.schema, y)
  {
    if c in Indexed(base.schema, y) && !FreshIn(base, y, c)
    then Partly(base, s, y, x, own, Indexed(base.schema, y) - {c}, Using(base.schema, x))
    else Partly(base, s, y, y, own, Indexed(base.schema, y), Using(base.schema, y) - {c})
  }

  lemma HaltedIs(base: Store, s: Store, x: Record, y: Record, c: nat, own: Option<Row>)
    requires RecordOk(base.schema, x) && RecordOk(base.schema, y)
    ensures c in Indexed(base.schema, y) && !FreshIn(base, y, c) ==>
              (Halted(base, s, x, y, c, own) <==>
                  Partly(base, s, y, x, own, Indexed(base.schema, y) - {c}, Using(base.schema, x)))
    ensures !(c in Indexed(base.schema, y) && !FreshIn(base, y, c)) ==>
              (Halted(base, s, x, y, c, own) <==>
                  Partly(base, s, y, y, own, Indexed(base.schema, y), Using(base.schema, y) - {c}))
  {
  }

  lemma HaltedInterrupts(full: Store, s: Store, x: Record, y: Record, c: nat)
    requires RecordOk(full.schema, x) && RecordOk(full.schema, y) && Detached(full, x).schema == full.schema
    requires Halted(Detached(full, x), s, x, y, c, Some(x.row.(nulls := y.row.nulls)))
    ensures Interrupted(full, s, x, y, c)
  {
  }

  /** Sets the null bit and moves the index entry and the use. */
  method UpdateAround(files: Files, x: Record, y: Record, c: nat, ghost base: Store) returns (o: Outcome<Error>)
    requires RecordOk(base.schema, x) && RecordOk(base.schema, y) && OkBut(base, x.table, KeyFor(base.schema, x))
    requires AllTargeted(base.schema, base.tables, x) && c < |base.schema[x.table]|
    requires ColumnChanged(base.schema, x, y, c)
    requires files.Valid()
    requires Partly(base, files.store, x, x, Some(x.row), Indexed(base.schema, x), Using(base.schema, x))
    modifies files, files.repr
    ensures files.Valid() && fresh(files.repr - old(files.repr))
    ensures o in {Done, Failed(ConflictIndexEntry), Failed(ForeignKeyNotFound)}
    ensures o.Done? <==> FieldWelcome(base, y, c)
    ensures o == Failed(ConflictIndexEntry) <==> c in Indexed(base.schema, y) && !FreshIn(base, y, c)
    ensures o.Done? ==>
              Partly(base, files.store, y, y, Some(x.row.(nulls := y.row.nulls)), Indexed(base.schema, y),
                  Using(base.schema, y))
    ensures !o.Done? ==> Halted(base, files.store, x, y, c, Some(x.row.(nulls := y.row.nulls)))
  {
    hide *;
    SchemaHere(files);
    Parts(base, x.table, KeyFor(base.schema, x));
    ghost var own := Some(x.row.(nulls := y.row.nulls));
    PartlyIs(base, files.store, x, x, Some(x.row), Indexed(base.schema, x), Using(base.schema, x));
    ColumnIs(base.schema, x, c);
    SetsChanged(base.schema, x, y, c);
    ColumnIs(base.schema, y, c);
    SetRow(files, x, x.row.(nulls := y.row.nulls), base, x, Some(x.row), Indexed(base.schema, x),
        Using(base.schema, x));
    var desc := files.schema[x.table];
    var oldNull, newNull := desc[c].nullable && x.row.nulls[c], desc[c].nullable && y.row.nulls[c];
    FieldWelcomeIs(base, y, c);
    if (!oldNull || !newNull) && desc[c].indexed {
      var ok := UpdateEntry(files, x, y, c, base, own, Using(base.schema, x));
      if !ok {
        HaltedIs(base, files.store, x, y, c, own);
        return Failed(ConflictIndexEntry);
      }
    } else {
      EntriesPass(base, files.store, x, y, x, c, own, Indexed(base.schema, x), Using(base.schema, x));
    }
    if (!oldNull || !newNull) && desc[c].foreign.Some? {
      var ok := UpdateUse(files, x, y, c, base, own, Indexed(base.schema, y));
      if !ok {
        HaltedIs(base, files.store, x, y, c, own);
        return Failed(ForeignKeyNotFound);
      }
    } else {
      UsesPass(base, files.store, x, y, y, c, own, Indexed(base.schema, y), Using(base.schema, x));
    }
    o := Done;
  }

  /** Replaces one field of a record, which is not its primary key, together with its index entry and its use of a
      foreign key.  A field with equal bytes stays as it is, its null bit included.  It succeeds exactly when no other
      record has the value, in a unique column, and the foreign key exists; a failure always leaves an inconsistent
      database: there is no rollback. */
  method UpdateColumn(files: Files, t: string, rid: Rid, c: nat, given: Row) returns (o: Outcome<Error>)
    requires files.Valid() && StoreOk(files.store) && t in files.schema && t in files.store.tables
    requires rid in files.store.tables[t]
    requires c < |files.schema[t]| && FitsRow(files.schema[t], given) && !files.schema[t][c].primary
    modifies files, files.repr
    ensures files.Valid() && fresh(files.repr - old(files.repr)) && old(files.store).schema == files.schema
    ensures o in {Done, Failed(ConflictIndexEntry), Failed(ForeignKeyNotFound)}
    ensures o.Done? <==> Enterable(old(files.store), t, rid, c, given)
    ensures o.Done? <==> Replaceable(old(files.store), t, rid, c, given)
    ensures o == Failed(ConflictIndexEntry) <==> Clashes(old(files.store), t, rid, c, given)
    ensures o.Done? <==> StoreOk(files.store)
    ensures o.Done? ==> Replaced(old(files.store), files.store, t, rid, c, given)
    ensures !o.Done? ==> UpdateHalted(old(files.store), files.store, t, rid, c, given)
  {
    hide *;
    SchemaHere(files);
    var row := RowOf(files, t, rid);
    LivesIs(files.store, Record(t, rid, row));
    ReplaceableIff(files.store, t, rid, c, given);
    o := UpdateField(files, Record(t, rid, row), c, given);
  }

  method UpdateField(files: Files, x: Record, c: nat, given: Row) returns (o: Outcome<Error>)
    requires files.Valid() && StoreOk(files.store) && Lives(files.store, x) && RecordOk(files.schema, x)
    requires files.store.schema == files.schema
    requires c < |files.schema[x.table]| && FitsRow(files.schema[x.table], given) && !files.schema[x.table][c].primary
    modifies files, files.repr
    ensures files.Valid() && fresh(files.repr - old(files.repr))
    ensures o in {Done, Failed(ConflictIndexEntry), Failed(ForeignKeyNotFound)}
    ensures o.Done? <==> Replaceable(old(files.store), x.table, x.rid, c, given)
    ensures o == Failed(ConflictIndexEntry) <==> Clashes(old(files.store), x.table, x.rid, c, given)
    ensures o.Done? <==> StoreOk(files.store)
    ensures o.Done? ==> Replaced(old(files.store), files.store, x.table, x.rid, c, given)
    ensures !o.Done? ==> UpdateHalted(old(files.store), files.store, x.table, x.rid, c, given)
  {
    ghost var full := files.store;
    hide *;
    RecordFits(full.schema, x);
    var y := Record(x.table, x.rid, UpdatedCell(files.schema[x.table], x.row, c, given));
    ReplaceableIs(full, x, y, c, given);
    if x.row.values[c] == given.values[c] {
      NotReplaced(full, x, c, given);
      LivesHere(full, x);
      ChangesIs(full.tables[x.table], x.rid, c, given);
      ClashesIs(full, x.table, x.rid, c, given);
      return Done;
    }
    ghost var base := Detached(full, x);
    UpdateStarts(full, x, y, c, given);
    ClashIff(full, x, y, c, given);
    o := ReplaceField(files, x, y, c, base);
    UpdateEnds(full, files.store, x, y, c, given);
  }

  lemma UpdateStarts(full: Store, x: Record, y: Record, c: nat, given: Row)
    requires StoreOk(full) && Lives(full, x) && RecordOk(full.schema, x) && c < |full.schema[x.table]|
    requires FitsRow(full.schema[x.table], given)
    requires !full.schema[x.table][c].primary && x.row.values[c] != given.values[c]
    requires y == Record(x.table, x.rid, UpdatedCell(full.schema[x.table], x.row, c, given))
    ensures var base := Detached(full, x);
            && base.schema == full.schema && RecordOk(base.schema, y) && OkBut(base, x.table, KeyFor(base.schema, x))
            && AllTargeted(base.schema, base.tables, x) && ColumnChanged(base.schema, x, y, c)
            && Attached(base, full, x) && Welcome(base, x)
  {
    hide *;
    DetachOk(full, x);
    DetachedSchema(full, x);
    UpdatedFits(Detached(full, x).schema, x, y, c, given);
    WelcomeTargets(Detached(full, x), x);
  }

  lemma UpdateEnds(full: Store, s: Store, x: Record, y: Record, c: nat, given: Row)
    requires StoreOk(full) && Lives(full, x) && RecordOk(full.schema, x) && c < |full.schema[x.table]|
    requires FitsRow(full.schema[x.table], given)
    requires !full.schema[x.table][c].primary && x.row.values[c] != given.values[c]
    requires y == Record(x.table, x.rid, UpdatedCell(full.schema[x.table], x.row, c, given))
    requires RecordOk(Detached(full, x).schema, y)
    ensures var base := Detached(full, x);
            && (FieldWelcome(base, y, c) && Attached(base, s, y) ==>
                  StoreOk(s) && Replaced(full, s, x.table, x.rid, c, given))
            && (RecordOk(base.schema, x) && !FieldWelcome(base, y, c) &&
                 Halted(base, s, x, y, c, Some(x.row.(nulls := y.row.nulls))) ==>
                  !StoreOk(s) && UpdateHalted(full, s, x.table, x.rid, c, given))
  {
    hide *;
    ghost var base := Detached(full, x);
    UpdateStarts(full, x, y, c, given);
    Parts(base, x.table, KeyFor(base.schema, x));
    if FieldWelcome(base, y, c) && Attached(base, s, y) {
      UpdatedWelcome(base, x, y, c);
      AttachOk(base, s, y);
      ReplacedIs(base, full, s, x, y, c, given);
    }
    if !FieldWelcome(base, y, c) && Halted(base, s, x, y, c, Some(x.row.(nulls := y.row.nulls))) {
      HaltedInterrupts(full, s, x, y, c);
      InterruptedBreaks(full, s, x, y, c);
      UpdateHaltedIs(full, s, x, y, c, given);
    }
  }

  /** Replaces the field, or halts. */
  method ReplaceField(files: Files, x: Record, y: Record, c: nat, ghost base: Store) returns (o: Outcome<Error>)
    requires RecordOk(base.schema, x) && RecordOk(base.schema, y) && OkBut(base, x.table, KeyFor(base.schema, x))
    requires AllTargeted(base.schema, base.tables, x) && c < |base.schema[x.table]|
    requires ColumnChanged(base.schema, x, y, c)
    requires files.Valid() && Attached(base, files.store, x)
    modifies files, files.repr
    ensures files.Valid() && fresh(files.repr - old(files.repr))
    ensures o in {Done, Failed(ConflictIndexEntry), Failed(ForeignKeyNotFound)}
    ensures o.Done? <==> FieldWelcome(base, y, c)
    ensures o == Failed(ConflictIndexEntry) <==> c in Indexed(base.schema, y) && !FreshIn(base, y, c)
    ensures o.Done? ==> Attached(base, files.store, y)
    ensures !o.Done? ==> Halted(base, files.store, x, y, c, Some(x.row.(nulls := y.row.nulls)))
  {
    hide *;
    PartlyAll(base, files.store, x);
    o := UpdateAround(files, x, y, c, base);
    if o.Done? {
      SetRow(files, y, y.row, base, y, Some(x.row.(nulls := y.row.nulls)), Indexed(base.schema, y),
          Using(base.schema, y));
    }
    PartlyAll(base, files.store, y);
  }

  /** Updates columns of a record one after the other, up to the first that cannot be updated.  It succeeds exactly when
      each of them can be updated in the record as it was. */
  method UpdateRecord(files: Files, t: string, rid: Rid, cols: seq<nat>, given: Row) returns (o: Outcome<Error>)
    requires files.Valid() && StoreOk(files.store) && t in files.schema && t in files.store.tables
    requires rid in files.store.tables[t]
    requires FitsRow(files.schema[t], given)
    requires forall i :: 0 <= i < |cols| ==> cols[i] < |files.schema[t]| && !files.schema[t][cols[i]].primary
    modifies files, files.repr
    ensures files.Valid() && fresh(files.repr - old(files.repr)) && old(files.store).schema == files.schema
    ensures o in {Done, Failed(ConflictIndexEntry), Failed(ForeignKeyNotFound)}
    ensures ColumnsIn(files.schema[t], cols) && (o.Done? <==> AllEnterable(old(files.store), t, rid, cols, given))
    ensures o.Done? <==> StoreOk(files.store)
    ensures o.Done? ==> Rewritten(old(files.store), files.store, t, rid, cols, given)
    ensures !o.Done? ==>
              RecordStops(old(files.store), files.store, t, rid, cols, given, o == Failed(ConflictIndexEntry))
  {
    hide *;
    ghost var full := files.store;
    SchemaHere(files);
    RewrittenNone(full, t, rid, given);
    NoneEnterable(full, t, rid, cols, given);
    for i := 0 to |cols|
      invariant files.Valid() && fresh(files.repr - old(files.repr)) && StoreOk(files.store)
      invariant Rewritten(full, files.store, t, rid, cols[..i], given)
      invariant ColumnsIn(files.schema[t], cols[..i]) && AllEnterable(full, t, rid, cols[..i], given)
    {
      ghost var mid := files.store;
      SchemaHere(files);
      RewrittenThere(full, mid, t, rid, cols[..i], given);
      EnterableNext(full, mid, t, rid, cols, i, given);
      o := UpdateColumn(files, t, rid, cols[i], given);
      if !o.Done? {
        RecordStopsAt(full, mid, files.store, t, rid, cols, i, given, o == Failed(ConflictIndexEntry));
        return;
      }
      RewrittenNext(full, mid, files.store, t, rid, cols, i, given);
    }
    assert cols[..|cols|] == cols;
    o := Done;
  }

  lemma NoneEnterable(s: Store, t: string, rid: Rid, cols: seq<nat>, given: Row)
    requires t in s.schema && t in s.tables && rid in s.tables[t] && FitsRow(s.schema[t], given)
    requires forall i :: 0 <= i < |cols| ==> cols[i] < |s.schema[t]|
    ensures ColumnsIn(s.schema[t], cols) && ColumnsIn(s.schema[t], []) && cols[..0] == []
    ensures AllEnterable(s, t, rid, [], given)
  {
  }

  lemma RecordStopsAt(s: Store, mid: Store, s': Store, t: string, rid: Rid, cols: seq<nat>, i: nat, given: Row,
                      conflict: bool)
    requires i < |cols| && Rewritten(s, mid, t, rid, cols[..i], given) && StoreOk(mid)
    requires t in mid.schema && t in mid.tables && rid in mid.tables[t] && cols[i] < |mid.schema[t]|
    requires FitsRow(mid.schema[t], given)
    requires !Replaceable(mid, t, rid, cols[i], given) && UpdateHalted(mid, s', t, rid, cols[i], given)
    requires conflict <==> Clashes(mid, t, rid, cols[i], given)
    ensures RecordStops(s, s', t, rid, cols, given, conflict)
  {
    hide Rewritten, StoreOk, Replaceable, UpdateHalted, Clashes;
    assert StopsAt(mid, s', t, rid, cols[i], given, conflict);
  }

  /** The first column that cannot be updated, for being the primary key or named before. */
  ghost predicate FirstRefused(desc: Descriptor, cols: seq<nat>, i: nat)
    requires forall j :: 0 <= j < |cols| ==> cols[j] < |desc|
  {
    && i < |cols| && (desc[cols[i]].primary || cols[i] in cols[..i])
    && DifferentColumns(cols[..i]) && forall j :: 0 <= j < i ==> !desc[cols[j]].primary
  }

  /** Primary keys cannot be updated, and no column twice. */
  method CheckColumns(desc: Descriptor, cols: seq<nat>) returns (o: Outcome<Error>)
    requires forall i :: 0 <= i < |cols| ==> cols[i] < |desc|
    ensures o.Done? <==> DifferentColumns(cols) && forall i :: 0 <= i < |cols| ==> !desc[cols[i]].primary
    ensures !o.Done? ==>
              exists i: nat :: FirstRefused(desc, cols, i) &&
                (o == Failed(InvalidPrimaryKeyUpdate) <==> desc[cols[i]].primary) &&
                (o == Failed(ConflictRecordFieldUpdate) <==> !desc[cols[i]].primary)
  {
    for i := 0 to |cols|
      invariant DifferentColumns(cols[..i])
      invariant forall j :: 0 <= j < i ==> !desc[cols[j]].primary
    {
      if desc[cols[i]].primary {
        assert FirstRefused(desc, cols, i);
        return Failed(InvalidPrimaryKeyUpdate);
      }
      if cols[i] in cols[..i] {
        assert FirstRefused(desc, cols, i);
        return Failed(ConflictRecordFieldUpdate);
      }
      assert cols[..i + 1] == cols[..i] + [cols[i]];
    }
    assert cols[..|cols|] == cols;
    o := Done;
  }

  lemma UpdatableIs(desc: Descriptor, cols: seq<nat>, cells: seq<Option<int>>)
    ensures Updatable(desc, cols, cells) <==>
              DifferentColumns(cols) && Acceptable(desc, cols, cells) && forall i :: 0 <= i < |cols| ==>
                  cols[i] < |desc| && !desc[cols[i]].primary
  {
  }

  method UpdateAll(files: Files, t: string, cols: seq<nat>, given: Row, rids: seq<Rid>) returns (o: Outcome<Error>)
    requires files.Valid() && StoreOk(files.store) && t in files.schema && t in files.store.tables
    requires FitsRow(files.schema[t], given)
    requires forall i :: 0 <= i < |cols| ==> cols[i] < |files.schema[t]| && !files.schema[t][cols[i]].primary
    requires NoneTwice(rids) && RidsIn(files.store.tables[t], rids)
    modifies files, files.repr
    ensures files.Valid() && fresh(files.repr - old(files.repr)) && old(files.store).schema == files.schema
    ensures o in {Done, Failed(ConflictIndexEntry), Failed(ForeignKeyNotFound)}
    ensures ColumnsIn(files.schema[t], cols) && (o.Done? <==> UpdateWelcome(old(files.store), t, rids, cols, given))
    ensures o.Done? <==> StoreOk(files.store)
    ensures o.Done? ==> AllRewritten(old(files.store), files.store, t, rids, cols, given)
    ensures !o.Done? ==>
              UpdateStops(old(files.store), files.store, t, rids, cols, given, o == Failed(ConflictIndexEntry))
  {
    hide *;
    ghost var full := files.store;
    SchemaHere(files);
    AllRewrittenNone(full, t, cols, given);
    NoneWelcome(full, t, rids, cols, given);
    for i := 0 to |rids|
      invariant files.Valid() && fresh(files.repr - old(files.repr)) && StoreOk(files.store)
      invariant AllRewritten(full, files.store, t, rids[..i], cols, given)
      invariant RidsIn(full.tables[t], rids[..i]) && UpdateWelcome(full, t, rids[..i], cols, given)
    {
      ghost var mid := files.store;
      SchemaHere(files);
      AllRewrittenThere(full, mid, t, rids[..i], cols, given);
      WelcomeNext(full, mid, t, rids, i, cols, given);
      o := UpdateRecord(files, t, rids[i], cols, given);
      if !o.Done? {
        UpdateStopsAt(full, mid, files.store, t, rids, i, cols, given, o == Failed(ConflictIndexEntry));
        return;
      }
      AllRewrittenNext(full, mid, files.store, t, rids, i, cols, given);
    }
    assert rids[..|rids|] == rids;
    o := Done;
  }

  lemma NoneWelcome(s: Store, t: string, rids: seq<Rid>, cols: seq<nat>, given: Row)
    requires t in s.schema && t in s.tables && FitsRow(s.schema[t], given)
    requires forall i :: 0 <= i < |cols| ==> cols[i] < |s.schema[t]|
    ensures ColumnsIn(s.schema[t], cols) && RidsIn(s.tables[t], []) && rids[..0] == []
    ensures UpdateWelcome(s, t, [], cols, given)
  {
  }

  lemma UpdateStopsAt(s: Store, mid: Store, s': Store, t: string, rids: seq<Rid>, i: nat, cols: seq<nat>, given: Row,
                      conflict: bool)
    requires i < |rids| && AllRewritten(s, mid, t, rids[..i], cols, given)
    requires RecordStops(mid, s', t, rids[i], cols, given, conflict)
    ensures UpdateStops(s, s', t, rids, cols, given, conflict)
  {
    hide AllRewritten, RecordStops;
  }
}
