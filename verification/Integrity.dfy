/** What the modifications of a database have in common, and creating and dropping tables and indexes
    (src/system/system_manager.cpp). */
module Integrity {
  import opened Wrappers
  import opened Rows
  import opened TableFiles
  import opened Gather
  import opened JoinSpec
  import opened IntegritySpec
  import opened Attach
  import opened FieldUpdates
  import opened SchemaChange
  import opened Layout
  import BPlusTree

  datatype Error =
    | TooManyColumnsToInsert | InvalidNullField | ConflictIndexEntry | ForeignKeyNotFound | DeletingReferencedRecord
    | InvalidPrimaryKeyUpdate | ConflictRecordFieldUpdate | NoSuchTable | TableExists | TableReferenced
    | NoSuchColumn | NotPrimary | EntryOversized | RecordOversized | AlreadyIndexed | ScanFailed

  /** The cells given for some columns: a value, or None for a null. */
  ghost predicate Acceptable(desc: Descriptor, cols: seq<nat>, cells: seq<Option<int>>) {
    && |cols| == |cells| <= |desc|
    && forall i :: 0 <= i < |cols| ==> cols[i] < |desc| && (cells[i].None? ==> desc[cols[i]].nullable)
  }

  /** The record with these cells, nulls and zeros elsewhere. */
  ghost predicate AssembledAs(desc: Descriptor, cols: seq<nat>, cells: seq<Option<int>>, row: Row) {
    && |cols| == |cells| && FitsRow(desc, row) && row.refs == 0
    && (forall i :: 0 <= i < |cols| ==>
          cols[i] < |desc| && row.nulls[cols[i]] == cells[i].None? &&
          row.values[cols[i]] == if cells[i].None? then 0 else cells[i].value)
    && (forall c: nat :: c < |desc| && c !in cols ==> row.nulls[c] && row.values[c] == 0)
  }

  /** A null is given for a column without nulls. */
  ghost predicate NullRefused(desc: Descriptor, cols: seq<nat>, cells: seq<Option<int>>)
    requires |cols| == |cells|
  {
    exists i :: 0 <= i < |cols| && cells[i].None? && cols[i] < |desc| && !desc[cols[i]].nullable
  }

  predicate DifferentColumns(cols: seq<nat>) {
    forall i, j :: 0 <= i < j < |cols| ==> cols[i] != cols[j]
  }

  method AssembleRecord(desc: Descriptor, cols: seq<nat>, cells: seq<Option<int>>) returns (row: Row, o: Outcome<Error>)
    requires |cols| == |cells| && DifferentColumns(cols)
    requires |cols| <= |desc| ==> forall i :: 0 <= i < |cols| ==> cols[i] < |desc|
    ensures o.Done? <==> Acceptable(desc, cols, cells)
    ensures o.Done? ==> AssembledAs(desc, cols, cells, row)
    ensures o == Failed(TooManyColumnsToInsert) <==> |cols| > |desc|
    ensures o == Failed(InvalidNullField) <==> |cols| <= |desc| && NullRefused(desc, cols, cells)
  {
    row := Row(seq(|desc|, i => true), seq(|desc|, i => 0), 0);
    if |desc| < |cols| {
      return row, Failed(TooManyColumnsToInsert);
    }
    for i := 0 to |cols|
      invariant AssembledAs(desc, cols[..i], cells[..i], row) && Acceptable(desc, cols[..i], cells[..i])
    {
      if cells[i].None? {
        if !desc[cols[i]].nullable {
          return row, Failed(InvalidNullField);
        }
      } else {
        row := row.(values := row.values[cols[i] := cells[i].value], nulls := row.nulls[cols[i] := false]);
      }
      assert cols[..i + 1] == cols[..i] + [cols[i]];
    }
    assert cols[..|cols|] == cols && cells[..|cells|] == cells;
    o := Done;
  }

  ghost function Below(S: set<nat>, i: nat): set<nat> { set c | c in S && c < i }
  ghost function Since(S: set<nat>, i: nat): set<nat> { set c | c in S && c >= i }

  lemma Bounds(S: set<nat>, i: nat)
    ensures Below(S, 0) == {} && Since(S, 0) == S && Below(S, i) <= S
    ensures i !in Below(S, i) && (i in Since(S, i) <==> i in S)
    ensures Below(S, i + 1) == if i in S then Below(S, i) + {i} else Below(S, i)
    ensures Since(S, i + 1) == if i in S then Since(S, i) - {i} else Since(S, i)
    ensures (forall c :: c in S ==> c < i) ==> Below(S, i) == S && Since(S, i) == {}
  {
  }

  ghost predicate Lists(cols: seq<nat>, S: set<nat>) {
    DifferentColumns(cols) && forall c :: c in cols <==> c in S
  }

  lemma ListsMore(cols: seq<nat>, S: set<nat>, c: nat)
    requires Lists(cols, S) && c !in S
    ensures Lists(cols + [c], S + {c})
  {
  }

  lemma ListsEmpty(S: set<nat>)
    requires Lists([], S)
    ensures S == {}
  {
    assert forall c :: c in S ==> c in [];
  }

  lemma ListsLess(cols: seq<nat>, S: set<nat>, i: nat)
    requires i < |cols| && Lists(cols[i..], S)
    ensures cols[i] in S && Lists(cols[i + 1..], S - {cols[i]})
  {
    var rest := cols[i..];
    assert rest[0] == cols[i] && rest[1..] == cols[i + 1..];
    forall j | 0 <= j < |rest| - 1 ensures rest[1..][j] != cols[i] {
      assert rest[0] != rest[j + 1];
    }
    assert forall c :: c in rest <==> c == cols[i] || c in rest[1..];
  }

  /** Saved record offsets of the foreign keys in some columns. */
  ghost predicate TargetsAre(base: Store, x: Record, cols: seq<nat>, rids: seq<Rid>)
    requires RecordOk(base.schema, x)
  {
    |cols| == |rids| && forall j :: 0 <= j < |cols| ==> TargetIs(base, x, cols[j], rids[j])
  }

  ghost predicate TargetIs(base: Store, x: Record, c: nat, r: Rid)
    requires RecordOk(base.schema, x)
  {
    c < |base.schema[x.table]| && Foreign(base.schema[x.table], x.row, c) && IsTarget(base.schema, base.tables, x, c, r)
  }

  /** What creating one column comes to: its reference is refused for a table or column that is missing or no primary
      key, in this order, and then its index for keys that do not fit. */
  ghost predicate ColumnOutcome(schema: Schema, t: string, field: Field, o: Outcome<Error>) {
    var f := field.foreign;
    && (o == Failed(NoSuchTable) <==> f.Some? && f.value.table !in schema)
    && (o == Failed(NoSuchColumn) <==>
          f.Some? && f.value.table in schema && f.value.column >= |schema[f.value.table]|)
    && (o == Failed(NotPrimary) <==>
          && f.Some? && f.value.table in schema && f.value.column < |schema[f.value.table]|
          && !schema[f.value.table][f.value.column].primary)
    && (o == Failed(EntryOversized) <==> RefersOk(schema, t, field) && !IndexFits(field))
    && o in {Done, Failed(NoSuchTable), Failed(NoSuchColumn), Failed(NotPrimary), Failed(EntryOversized)}
  }

  /** The first column that cannot be created. */
  ghost predicate FirstBad(schema: Schema, t: string, declared: Descriptor, c: nat) {
    && c < |declared| && !(RefersOk(schema, t, declared[c]) && IndexFits(declared[c]))
    && forall b :: 0 <= b < c ==> RefersOk(schema, t, declared[b]) && IndexFits(declared[b])
  }

  lemma BadHere(schema: Schema, t: string, declared: Descriptor, i: nat, o: Outcome<Error>)
    requires i < |declared| && !(RefersOk(schema, t, declared[i]) && IndexFits(declared[i])) && !o.Done?
    requires forall b :: 0 <= b < i ==> RefersOk(schema, t, declared[b]) && IndexFits(declared[b])
    requires ColumnOutcome(schema, t, declared[i], o)
    ensures forall c: nat :: FirstBad(schema, t, declared, c) ==> ColumnOutcome(schema, t, declared[c], o)
    ensures o != Failed(TableExists) && o != Failed(RecordOversized)
    ensures !(forall c :: 0 <= c < |declared| ==> RefersOk(schema, t, declared[c]) && IndexFits(declared[c]))
  {
    hide RefersOk, IndexFits;
  }

  lemma NoneBad(schema: Schema, t: string, declared: Descriptor)
    requires forall b :: 0 <= b < |declared| ==> RefersOk(schema, t, declared[b]) && IndexFits(declared[b])
    ensures forall c: nat :: !FirstBad(schema, t, declared, c)
  {
    hide RefersOk, IndexFits;
  }

  /** The database: its tables as maps of records, and its indexes as maps of entries, which is what modules
      RecordTable and BPlusIndex make of the files. */
  class Database {
    var schema: Schema
    var tables: Snapshot
    var indexes: Indexes
    var foreignRefs: map<string, nat>

    ghost function State(): Store
      reads this
    {
      Store(schema, tables, indexes, foreignRefs)
    }

    ghost predicate Valid()
      reads this
    {
      StoreOk(State())
    }

    constructor ()
      ensures Valid() && schema == map[]
    {
      schema, tables, indexes, foreignRefs := map[], map[], map[], map[];
    }

    // ------------------------------------------------------------ tables and indexes

    method InsertIndexEntry(name: IndexName, key: int, rid: Rid) returns (ok: bool)
      requires name in indexes
      modifies this`indexes
      ensures ok <==> key !in old(indexes)[name]
      ensures indexes == if ok then old(indexes)[name := old(indexes)[name][key := SlotOf(rid)]] else old(indexes)
    {
      ok := key !in indexes[name];
      if ok {
        indexes := indexes[name := indexes[name][key := SlotOf(rid)]];
      }
    }

    /** Takes one from the count of a record; fails when records of the table are not counted, there is no such
        record, or its count is zero. */
    method DropReference(t: string, rid: Rid) returns (ok: bool)
      requires t in tables && t in schema
      modifies this`tables
      ensures ok <==> ReferenceCounted(schema[t]) && rid in old(tables)[t] && old(tables)[t][rid].refs != 0
      ensures ok ==>
                tables ==
                old(tables)[t := old(tables)[t][rid := old(tables)[t][rid].(refs := old(tables)[t][rid].refs - 1)]]
      ensures !ok ==> tables == old(tables)
    {
      ok := ReferenceCounted(schema[t]) && rid in tables[t] && tables[t][rid].refs != 0;
      if ok {
        var row := tables[t][rid];
        tables := tables[t := tables[t][rid := row.(refs := row.refs - 1)]];
      }
    }

    lemma StateIs()
      ensures State().schema == schema && State().tables == tables && State().indexes == indexes
      ensures State().foreignRefs == foreignRefs
      ensures Valid() <==> StoreOk(State())
    {
    }

    lemma ValidIs()
      ensures Valid() <==> StoreOk(State())
    {
    }

    // ------------------------------------------------------------ tables

    /** Counts a foreign key column that refers to a table no longer; fails when none is counted. */
    method DropForeignReference(n: string) returns (ok: bool)
      requires n in foreignRefs
      modifies this`foreignRefs
      ensures ok <==> old(foreignRefs)[n] != 0
      ensures foreignRefs == if ok then old(foreignRefs)[n := old(foreignRefs)[n] - 1] else old(foreignRefs)
    {
      ok := foreignRefs[n] != 0;
      if ok {
        foreignRefs := foreignRefs[n := foreignRefs[n] - 1];
      }
    }

    /** While table t is created: the references in `refs` are counted, and there are empty indexes on the
        columns C. */
    ghost predicate Creating(base: Store, t: string, refs: seq<string>, C: set<nat>)
      reads this
    {
      && schema == base.schema && tables == base.tables
      && ReferencesAre(base.foreignRefs, foreignRefs, refs) && EmptyIndexes(base.indexes, indexes, t, C)
    }

    /** The checks of a foreign key column: it must refer to a primary key. */
    method CheckForeign(t: string, field: Field) returns (o: Outcome<Error>)
      requires field.foreign.Some? && field.foreign.value.table != t
      ensures o.Done? <==> RefersOk(schema, t, field)
      ensures var fk := field.foreign.value;
              && (o == Failed(NoSuchTable) <==> fk.table !in schema)
              && (o == Failed(NoSuchColumn) <==> fk.table in schema && fk.column >= |schema[fk.table]|)
              && o in {Done, Failed(NoSuchTable), Failed(NoSuchColumn), Failed(NotPrimary)}
    {
      var fk := field.foreign.value;
      if fk.table !in schema {
        return Failed(NoSuchTable);
      }
      if fk.column >= |schema[fk.table]| {
        return Failed(NoSuchColumn);
      }
      o := if schema[fk.table][fk.column].primary then Done else Failed(NotPrimary);
    }

    /** One column of a new table: its reference, then its index if it is unique. */
    method CreateColumn(t: string, c: nat, field: Field, refs: seq<string>, ghost base: Store, ghost C: set<nat>)
      returns (o: Outcome<Error>, counted: bool, created: bool)
      requires SchemaOk(base.schema) && base.foreignRefs.Keys == base.schema.Keys && t !in base.schema
      requires Creating(base, t, refs, C)
      requires field.foreign.Some? ==> field.foreign.value.table != t
      modifies this
      ensures o.Done? <==> RefersOk(base.schema, t, field) && IndexFits(field)
      ensures ColumnOutcome(base.schema, t, field, o)
      ensures o.Done? ==> (counted <==> field.foreign.Some?) && (created <==> field.unique)
      ensures counted ==> field.foreign.Some?
      ensures Creating(base, t, if counted then refs + [field.foreign.value.table] else refs, if created then C + {c}
          else C)
    {
      hide ReferencesAre, EmptyIndexes, SchemaOk;
      counted, created := false, false;
      ReferencesThere(base.foreignRefs, foreignRefs, refs);
      EmptyIndexesMore(base.indexes, indexes, t, C, c);
      if field.foreign.Some? {
        o := CheckForeign(t, field);
        if !o.Done? {
          return;
        }
        var n := field.foreign.value.table;
        ReferencesMore(base.foreignRefs, foreignRefs, refs, n);
        foreignRefs := foreignRefs[n := foreignRefs[n] + 1];
        counted := true;
      }
      if field.unique {
        if NodeCapacity(KeyLength(field.length, true)) == 0 {
          return Failed(EntryOversized), counted, false;
        }
        indexes := indexes[IndexName(t, c) := map[]];
        created := true;
      }
      o := Done;
    }

    /** Undoes a creation that failed. */
    method UndoCreation(t: string, refs: seq<string>, cols: seq<nat>, ghost base: Store, ghost C: set<nat>)
      requires Creating(base, t, refs, C) && Lists(cols, C) && forall name :: name in base.indexes ==> name.table != t
      modifies this
      ensures State() == base
    {
      hide ReferencesAre, EmptyIndexes, Lists;
      assert refs[0..] == refs && cols[0..] == cols;
      for i := 0 to |refs|
        invariant Creating(base, t, refs[i..], C)
      {
        ReferencesLess(base.foreignRefs, foreignRefs, refs, i);
        var ok := DropForeignReference(refs[i]);
        assert ok;
      }
      assert refs[|refs|..] == [] && cols[|cols|..] == [];
      ghost var D := C;
      for i := 0 to |cols|
        invariant Creating(base, t, [], D) && Lists(cols[i..], D)
      {
        ListsLess(cols, D, i);
        EmptyIndexesLess(base.indexes, indexes, t, D, cols[i]);
        indexes := indexes - {IndexName(t, cols[i])};
        D := D - {cols[i]};
      }
      ListsEmpty(D);
      ReferencesNone(base.foreignRefs, foreignRefs);
      EmptyIndexesNone(base.indexes, indexes, t);
    }

    /** Creates an empty table with the indexes of its unique columns.  It succeeds exactly when the name is free, every
        foreign key column refers to a primary key, and keys and records fit their pages; a failure at any column leaves
        everything as it was. */
    method CreateTable(t: string, declared: Descriptor) returns (o: Outcome<Error>)
      requires Valid() && Declared(t, declared) && RecordLength(declared) > 0
      modifies this
      ensures Valid()
      ensures o.Done? <==>
                && t !in old(schema)
                && (forall c :: 0 <= c < |declared| ==> RefersOk(old(schema), t, declared[c]) && IndexFits(declared[c]))
                && SlotsPerPage(RecordLength(declared)) != 0
      ensures o == Failed(TableExists) <==> t in old(schema)
      ensures t !in old(schema) ==>
                forall c: nat :: FirstBad(old(schema), t, declared, c) ==> ColumnOutcome(old(schema), t, declared[c], o)
      ensures o == Failed(RecordOversized) <==>
                && t !in old(schema)
                && (forall c :: 0 <= c < |declared| ==> RefersOk(old(schema), t, declared[c]) && IndexFits(declared[c]))
                && SlotsPerPage(RecordLength(declared)) == 0
      ensures !o.Done? ==> State() == old(State())
      ensures o.Done? ==> EmptyTable(old(State()), State(), t, Marked(declared))
    {
      hide *;
      ghost var base := State();
      StateIs();
      if t in schema {
        return Failed(TableExists);
      }
      CreationStarts(base, t, declared);
      var refs: seq<string>, cols: seq<nat> := [], [];
      for i := 0 to |declared|
        invariant SoFar(base, t, declared, i, refs, cols)
      {
        SoFarIs(base, t, declared, i, refs, cols);
        o, refs, cols := CreateNext(t, declared, i, refs, cols, base);
        if !o.Done? {
          BadHere(base.schema, t, declared, i, o);
          ValidIs();
          return;
        }
      }
      SoFarIs(base, t, declared, |declared|, refs, cols);
      NoneBad(base.schema, t, declared);
      var offsets, length := LayOutRecord(declared);
      if SlotsPerPage(length) == 0 {
        UndoCreation(t, refs, cols, base, UniqueBelow(declared, |declared|));
        ValidIs();
        return Failed(RecordOversized);
      }
      AddTable(t, declared, base, refs);
      o := Done;
    }

    /** The first i columns of a new table are created. */
    ghost predicate SoFar(base: Store, t: string, declared: Descriptor, i: nat, refs: seq<string>, cols: seq<nat>)
      reads this
    {
      && Creating(base, t, refs, UniqueBelow(declared, i)) && Lists(cols, UniqueBelow(declared, i))
      && RefersList(declared, i, refs)
      && forall c :: 0 <= c < i && c < |declared| ==> RefersOk(base.schema, t, declared[c]) && IndexFits(declared[c])
    }

    lemma SoFarIs(base: Store, t: string, declared: Descriptor, i: nat, refs: seq<string>, cols: seq<nat>)
      requires SoFar(base, t, declared, i, refs, cols)
      ensures Creating(base, t, refs, UniqueBelow(declared, i)) && Lists(cols, UniqueBelow(declared, i))
      ensures RefersList(declared, i, refs)
      ensures forall c :: 0 <= c < i && c < |declared| ==>
                RefersOk(base.schema, t, declared[c]) && IndexFits(declared[c])
    {
    }

    /** The next column; a failure undoes everything. */
    method CreateNext(t: string, declared: Descriptor, i: nat, refs: seq<string>, cols: seq<nat>, ghost base: Store)
      returns (o: Outcome<Error>, refs': seq<string>, cols': seq<nat>)
      requires SchemaOk(base.schema) && base.foreignRefs.Keys == base.schema.Keys && t !in base.schema
      requires Declared(t, declared)
      requires i < |declared| && SoFar(base, t, declared, i, refs, cols)
      requires forall name :: name in base.indexes ==> name.table != t
      modifies this
      ensures o.Done? ==> SoFar(base, t, declared, i + 1, refs', cols')
      ensures !o.Done? ==> State() == base && !(RefersOk(base.schema, t, declared[i]) && IndexFits(declared[i]))
      ensures ColumnOutcome(base.schema, t, declared[i], o)
    {
      hide Creating, Lists, RefersOk, IndexFits, RefersList, SchemaOk, UniqueBelow, ColumnOutcome;
      var counted, created;
      o, counted, created := CreateColumn(t, i, declared[i], refs, base, UniqueBelow(declared, i));
      UniqueNext(declared, i);
      RefersListNext(declared, i, refs);
      ListsMore(cols, UniqueBelow(declared, i), i);
      refs' := if counted then refs + [declared[i].foreign.value.table] else refs;
      cols' := if created then cols + [i] else cols;
      if !o.Done? {
        UndoCreation(t, refs', cols', base, if created then UniqueBelow(declared, i) + {i}
            else UniqueBelow(declared, i));
      }
    }

    method AddTable(t: string, declared: Descriptor, ghost base: Store, ghost refs: seq<string>)
      requires StoreOk(base) && t !in base.schema && Declared(t, declared)
      requires Creating(base, t, refs, UniqueBelow(declared, |declared|))
      requires RefersList(declared, |declared|, refs)
      requires forall c :: 0 <= c < |declared| ==> RefersOk(base.schema, t, declared[c])
      modifies this
      ensures Valid() && EmptyTable(base, State(), t, Marked(declared))
    {
      hide StoreOk, Declared, EmptyIndexes, RefersList, RefersOk, ReferencesAre;
      ghost var cur := foreignRefs;
      schema, tables, foreignRefs := schema[t := Marked(declared)], tables[t := map[]], foreignRefs[t := 0];
      Created(base, State(), t, declared, refs);
    }

    lemma CreationStarts(base: Store, t: string, declared: Descriptor)
      requires StoreOk(base) && base == State() && t !in base.schema
      ensures SchemaOk(base.schema) && base.foreignRefs.Keys == base.schema.Keys && Creating(base, t, [], {})
      ensures forall name :: name in base.indexes ==> name.table != t
      ensures SoFar(base, t, declared, 0, [], [])
    {
      RefersListNone(declared);
      hide RefersList, SchemaOk, CountsOk, NoDangling;
      ReferencesNone(base.foreignRefs, foreignRefs);
      EmptyIndexesNone(base.indexes, indexes, t);
    }

    /** Adds an index to a column and fills it from the table, nulls included: the database is consistent afterwards iff
        the column has none.  `rids` are the records of the table in the order of their offsets. */
    method CreateIndex(t: string, c: nat, rids: seq<Rid>) returns (o: Outcome<Error>)
      requires Valid() && t in schema && t in tables && c < |schema[t]|
      requires NoneTwice(rids) && forall r :: r in rids <==> r in tables[t]
      modifies this
      ensures o.Done? <==>
                !old(schema)[t][c].indexed &&
                NodeCapacity(KeyLength(old(schema)[t][c].length, old(schema)[t][c].unique)) != 0
      ensures o == Failed(AlreadyIndexed) <==> old(schema)[t][c].indexed
      ensures o in {Done, Failed(AlreadyIndexed), Failed(EntryOversized)}
      ensures !o.Done? ==> State() == old(State())
      ensures o.Done? ==>
                && tables == old(tables) && IndexName(t, c) in indexes
                && State() == WithIndex(old(State()), t, c, indexes[IndexName(t, c)])
      ensures o.Done? ==> RowsOk(old(schema)[t], tables[t]) && (Valid() <==> NoNulls(old(schema)[t], tables[t], c))
    {
      hide *;
      ghost var s := State();
      StateIs();
      if schema[t][c].indexed {
        ValidIs();
        return Failed(AlreadyIndexed);
      }
      if NodeCapacity(KeyLength(schema[t][c].length, schema[t][c].unique)) == 0 {
        ValidIs();
        return Failed(EntryOversized);
      }
      RowsThere(s, t, c);
      var name := IndexName(t, c);
      indexes := indexes[name := map[]];
      schema := schema[t := schema[t][c := schema[t][c].(indexed := true)]];
      FillIndex(name, c, rids, s.schema[t]);
      WithIndexHere(s, t, c, indexes[name]);
      AddIndexIff(s, t, c, indexes[name]);
      ValidIs();
      o := Done;
    }

    lemma WithIndexHere(s: Store, t: string, c: nat, C: map<int, BPlusTree.Slot>)
      requires t in s.schema && c < |s.schema[t]| && IndexName(t, c) in indexes && tables == s.tables
      requires foreignRefs == s.foreignRefs
      requires schema == s.schema[t := s.schema[t][c := s.schema[t][c].(indexed := true)]]
      requires indexes == s.indexes[IndexName(t, c) := map[]][IndexName(t, c) := C]
      ensures State() == WithIndex(s, t, c, C)
    {
      assert s.indexes[IndexName(t, c) := map[]][IndexName(t, c) := C] == s.indexes[IndexName(t, c) := C];
    }

    method FillIndex(name: IndexName, c: nat, rids: seq<Rid>, ghost desc: Descriptor)
      requires name in indexes && indexes[name] == map[] && name.table in tables
      requires c < |desc| && RowsOk(desc, tables[name.table])
      requires NoneTwice(rids) && forall r :: r in rids <==> r in tables[name.table]
      modifies this`indexes
      ensures name in indexes && indexes == old(indexes)[name := indexes[name]]
      ensures FilledFrom(indexes[name], tables[name.table], tables[name.table].Keys, c)
    {
      hide RowsOk;
      var rows := tables[name.table];
      ghost var done: set<Rid> := {};
      FilledNone(rows, desc, c);
      for i := 0 to |rids|
        invariant name in indexes && indexes == old(indexes)[name := indexes[name]] && done <= rows.Keys
        invariant FilledFrom(indexes[name], rows, done, c) && forall r :: r in done <==> r in rids[..i]
      {
        assert rids[..i + 1] == rids[..i] + [rids[i]] && rids[i] !in rids[..i] && rids[i] in rids;
        FilledMore(indexes[name], desc, rows, done, c, rids[i]);
        ghost var before := indexes;
        var ok := InsertIndexEntry(name, KeyOf(rows[rids[i]].values[c], rids[i], false), rids[i]);
        assert ok;
        assert before[name := indexes[name]] == old(indexes)[name := indexes[name]];
        done := done + {rids[i]};
      }
      assert rids[..|rids|] == rids && done == rows.Keys;
    }

    /** Drops the uses that record x of a table being dropped makes of other tables; x itself stays. `rest` is what the
        table would hold had it been emptied so far. */
    method DropUses(x: Record, ghost base: Store, ghost rest: RowMap)
      requires RecordOk(base.schema, x) && OkBut(base, x.table, KeyFor(base.schema, x))
      requires AllTargeted(base.schema, base.tables, x)
      requires schema == base.schema && x.table in tables
      requires forall name :: name in base.indexes && name.table != x.table ==>
                 name in indexes && indexes[name] == base.indexes[name]
      requires CountsAre(base.schema, base.tables, tables[x.table := rest], x, Some(x.row), Using(base.schema, x))
      modifies this`tables
      ensures x.table in tables && tables[x.table] == old(tables)[x.table]
      ensures CountsAre(base.schema, base.tables, tables[x.table := rest], x, Some(x.row), {})
    {
      hide *;
      Parts(base, x.table, KeyFor(base.schema, x));
      ghost var F := Using(base.schema, x);
      Bounds(F, 0);
      RecordFits(base.schema, x);
      var desc := schema[x.table];
      for i := 0 to |desc|
        invariant x.table in tables && tables[x.table] == old(tables)[x.table]
        invariant CountsAre(base.schema, base.tables, tables[x.table := rest], x, Some(x.row), Since(F, i))
      {
        Bounds(F, i);
        ColumnIs(base.schema, x, i);
        if desc[i].foreign.Some? && !(desc[i].nullable && x.row.nulls[i]) {
          TargetedAll(base, x, i);
          TargetLookup(base, x.table, KeyFor(base.schema, x), x, i);
          TargetNamed(base.schema, x, i);
          var n := desc[i].foreign.value.table;
          var r := RidOf(indexes[IndexName(n, desc[i].foreign.value.column)][x.row.values[i]]);
          TargetIsThis(base, x, i, r);
          UseDropped(base, tables[x.table := rest], x, Some(x.row), Since(F, i), i, r);
          Elsewhere(tables, x.table, rest, n);
          ghost var before := tables;
          var ok := DropReference(n, r);
          assert ok;
          Overwritten(before, x.table, rest, n, tables[n]);
        }
      }
      AllColumns(base, x);
      Bounds(F, |desc|);
    }

    /** Drops the uses of all records of a table. */
    method DropAllUses(t: string, rids: seq<Rid>, ghost full: Store) returns (ghost g: Store)
      requires full == State() && StoreOk(full) && t in schema && t in tables && ForeignColumns(schema, t) == {}
      requires NoneTwice(rids) && forall r :: r in rids <==> r in tables[t]
      modifies this`tables
      ensures Emptying(full, g, tables, t, {})
    {
      hide *;
      StateIs();
      EmptyingFirst(full, t);
      g := full;
      ghost var left := full.tables[t].Keys;
      if exists c :: 0 <= c < |schema[t]| && schema[t][c].foreign.Some? {
        for i := 0 to |rids|
          invariant Emptying(full, g, tables, t, left) && forall r :: r in left <==> r in rids[i..]
          invariant t in tables && tables[t] == full.tables[t]
        {
          NextRid(rids, i);
          var x := Record(t, rids[i], tables[t][rids[i]]);
          EmptyingRecord(full, g, tables, t, left, rids[i]);
          DetachedRest(g, x);
          DetachOk(g, x);
          AttachedCounts(Detached(g, x), g, x);
          WelcomeTargets(Detached(g, x), x);
          EmptyingSchema(full, g, tables, t, left);
          ghost var before := tables;
          DropUses(x, Detached(g, x), g.tables[t]);
          EmptyingNext(full, g, before, tables, t, left, rids[i]);
          g := Detached(g, x);
          left := left - {rids[i]};
        }
        assert left == {};
      } else {
        g := EmptyingAtOnce(full, g, tables, t, left);
      }
    }

    /** Deletes the indexes of a table and takes back its references to other tables. */
    method DropColumns(t: string, ghost rest: map<string, nat>)
      requires t in schema && ReferencesAre(rest, foreignRefs, ReferredBy(schema[t], |schema[t]|))
      requires forall name: IndexName :: name.table == t ==>
                 (name in indexes <==> name.column < |schema[t]| && schema[t][name.column].indexed)
      modifies this`indexes, this`foreignRefs
      ensures foreignRefs == rest
      ensures forall name :: name in indexes <==> name in old(indexes) && name.table != t
      ensures forall name :: name in indexes ==> indexes[name] == old(indexes)[name]
    {
      hide ReferencesAre;
      var desc := schema[t];
      ghost var refs := ReferredBy(desc, |desc|);
      ghost var k := 0;
      assert refs[0..] == refs;
      for i := 0 to |desc|
        invariant 0 <= k <= |refs| && ReferredBy(desc, i) == refs[..k] && ReferencesAre(rest, foreignRefs, refs[k..])
        invariant forall name :: name in indexes <==> name in old(indexes) && !(name.table == t && name.column < i)
        invariant forall name :: name in indexes ==> indexes[name] == old(indexes)[name]
      {
        if desc[i].indexed {
          indexes := indexes - {IndexName(t, i)};
        }
        ReferredByPrefix(desc, i + 1, |desc|);
        if desc[i].foreign.Some? {
          assert refs[k] == ReferredBy(desc, i + 1)[k] == desc[i].foreign.value.table;
          ReferencesLess(rest, foreignRefs, refs, k);
          var ok := DropForeignReference(desc[i].foreign.value.table);
          assert ok;
          k := k + 1;
        }
      }
      assert refs[k..] == [];
      ReferencesNone(rest, foreignRefs);
    }

    /** Drops a table; refused exactly when it is missing or a foreign key column of another table refers to it.  No
        later step can fail: exactly the table, its indexes and its uses of other records are gone.  `rids` are its
        records in the order of their offsets. */
    method DropTable(t: string, rids: seq<Rid>) returns (o: Outcome<Error>)
      requires Valid() && (t in tables ==> NoneTwice(rids) && forall r :: r in rids <==> r in tables[t])
      modifies this
      ensures Valid()
      ensures o == if t !in old(schema) then Failed(NoSuchTable)
                   else if ForeignColumns(old(schema), t) != {} then Failed(TableReferenced) else Done
      ensures !o.Done? ==> State() == old(State())
      ensures o.Done? ==> Dropped(old(State()), State(), t)
    {
      hide *;
      ghost var full := State();
      StateIs();
      if t !in schema {
        return Failed(NoSuchTable);
      }
      ReferencesCounted(full, t);
      if foreignRefs[t] != 0 {
        return Failed(TableReferenced);
      }
      ghost var g := DropAllUses(t, rids, full);
      ghost var rest := map n | n in foreignRefs :: |ForeignColumns(schema - {t}, n)|;
      DropStarts(full, t, rest);
      DropColumns(t, rest);
      ghost var mid := tables;
      schema, tables, foreignRefs := schema - {t}, tables - {t}, foreignRefs - {t};
      StateIs();
      DropEnds(full, g, mid, State(), t, rest);
      o := Done;
    }
  }

  lemma TargetCounted(base: Store, x: Record, c: nat)
    requires RecordOk(base.schema, x) && SchemaOk(base.schema) && c < |base.schema[x.table]|
    requires Foreign(base.schema[x.table], x.row, c)
    ensures base.schema[x.table][c].foreign.Some?
    ensures var n := base.schema[x.table][c].foreign.value.table; n in base.schema && ReferenceCounted(base.schema[n])
  {
    assert ForeignOk(base.schema, x.table, c);
  }

  lemma TargetFacts(base: Store, x: Record, c: nat, r: Rid)
    requires RecordOk(base.schema, x) && SchemaOk(base.schema) && TargetIs(base, x, c, r)
    ensures c < |base.schema[x.table]| && base.schema[x.table][c].foreign.Some?
    ensures Foreign(base.schema[x.table], x.row, c)
    ensures var n := base.schema[x.table][c].foreign.value.table;
            && n in base.schema && ReferenceCounted(base.schema[n])
            && n in base.tables && n != x.table && r in base.tables[n] && Hits(base.schema, x, c, n, base.tables[n][r])
            && forall q :: q in base.tables[n] && Hits(base.schema, x, c, n, base.tables[n][q]) ==> q == r
  {
    TargetCounted(base, x, c);
  }

  lemma UseAdded(base: Store, cur: Snapshot, x: Record, own: Option<Row>, F: set<nat>, c: nat, r: Rid)
    requires RecordOk(base.schema, x) && SchemaOk(base.schema) && CountsAre(base.schema, base.tables, cur, x, own, F)
    requires c !in F && TargetIs(base, x, c, r)
    ensures c < |base.schema[x.table]| && base.schema[x.table][c].foreign.Some?
    ensures var n := base.schema[x.table][c].foreign.value.table;
            && n in base.schema && ReferenceCounted(base.schema[n]) && n in cur && r in cur[n]
            && CountsAre(base.schema, base.tables, cur[n := cur[n][r := cur[n][r].(refs := cur[n][r].refs + 1)]], x,
                 own, F + {c})
  {
    hide *;
    TargetFacts(base, x, c, r);
    CountAdded(base.schema, base.tables, cur, x, own, F, c, r);
  }

  lemma UseDropped(base: Store, cur: Snapshot, x: Record, own: Option<Row>, F: set<nat>, c: nat, r: Rid)
    requires RecordOk(base.schema, x) && SchemaOk(base.schema) && CountsAre(base.schema, base.tables, cur, x, own, F)
    requires c in F && TargetIs(base, x, c, r)
    ensures c < |base.schema[x.table]| && base.schema[x.table][c].foreign.Some?
    ensures var n := base.schema[x.table][c].foreign.value.table;
            && n in base.schema && ReferenceCounted(base.schema[n]) && n in cur && r in cur[n] && cur[n][r].refs > 0
            && CountsAre(base.schema, base.tables, cur[n := cur[n][r := cur[n][r].(refs := cur[n][r].refs - 1)]], x,
                 own, F - {c})
  {
    hide *;
    TargetFacts(base, x, c, r);
    CountDropped(base.schema, base.tables, cur, x, own, F, c, r);
  }

  /** What an insertion has saved for a rollback after the columns I and F, and what it has checked. */
  ghost predicate Saved(base: Store, x: Record, indexed: seq<nat>, cols: seq<nat>, rids: seq<Rid>, I: set<nat>,
                        F: set<nat>)
    requires RecordOk(base.schema, x)
  {
    && Lists(indexed, I) && Lists(cols, F) && TargetsAre(base, x, cols, rids)
    && I <= Indexed(base.schema, x) && F <= Using(base.schema, x)
    && (forall c :: c in I ==> FreshIn(base, x, c))
    && (forall c :: c in F ==> TargetedIn(base, x, c))
  }

  lemma SavedNone(base: Store, x: Record)
    requires RecordOk(base.schema, x)
    ensures Saved(base, x, [], [], [], Below(Indexed(base.schema, x), 0), Below(Using(base.schema, x), 0))
  {
    Bounds(Indexed(base.schema, x), 0);
    Bounds(Using(base.schema, x), 0);
  }

  lemma SavedMore(base: Store, x: Record, i: nat, indexed: seq<nat>, cols: seq<nat>, rids: seq<Rid>, entered: bool,
                  target: Option<Rid>)
    requires RecordOk(base.schema, x)
    requires Saved(base, x, indexed, cols, rids, Below(Indexed(base.schema, x), i), Below(Using(base.schema, x), i))
    requires entered ==> i in Indexed(base.schema, x) && FreshIn(base, x, i)
    requires target.Some? ==> i in Using(base.schema, x) && TargetIs(base, x, i, target.value) && TargetedIn(base, x, i)
    ensures var I, F := Indexed(base.schema, x), Using(base.schema, x);
            Saved(base, x, if entered then indexed + [i] else indexed, if target.Some? then cols + [i] else cols,
                  if target.Some? then rids + [target.value] else rids,
                  if entered then Below(I, i) + {i} else Below(I, i), if target.Some? then Below(F, i) + {i}
                      else Below(F, i))
  {
    hide Lists, TargetsAre, TargetIs, FreshIn, TargetedIn, Indexed, Using;
    var I, F := Indexed(base.schema, x), Using(base.schema, x);
    if entered { ListsMore(indexed, Below(I, i), i); }
    if target.Some? {
      ListsMore(cols, Below(F, i), i);
      TargetsMore(base, x, cols, rids, i, target.value);
    }
  }

  lemma SavedLists(base: Store, x: Record, indexed: seq<nat>, cols: seq<nat>, rids: seq<Rid>, I: set<nat>, F: set<nat>)
    requires RecordOk(base.schema, x) && Saved(base, x, indexed, cols, rids, I, F)
    ensures Lists(indexed, I) && Lists(cols, F) && TargetsAre(base, x, cols, rids) && I <= Indexed(base.schema, x)
  {
  }

  lemma SavedAll(base: Store, x: Record, indexed: seq<nat>, cols: seq<nat>, rids: seq<Rid>)
    requires RecordOk(base.schema, x)
    requires var n := |base.schema[x.table]|;
             Saved(base, x, indexed, cols, rids, Below(Indexed(base.schema, x), n), Below(Using(base.schema, x), n))
    ensures Fresh(base, x) && AllTargeted(base.schema, base.tables, x)
    ensures var n := |base.schema[x.table]|;
            Below(Indexed(base.schema, x), n) == Indexed(base.schema, x) &&
            Below(Using(base.schema, x), n) == Using(base.schema, x)
  {
    var n := |base.schema[x.table]|;
    Bounds(Indexed(base.schema, x), n);
    Bounds(Using(base.schema, x), n);
    hide FreshIn, TargetedIn;
    AllColumns(base, x);
  }

  lemma IndexThere(base: Store, x: Record, c: nat)
    requires SnapshotOk(base.schema, base.tables) && IndexesOk(base) && RecordOk(base.schema, x)
    requires c in Indexed(base.schema, x)
    ensures c < |base.schema[x.table]| && IndexName(x.table, c) in base.indexes
  {
  }

  lemma TargetAt(base: Store, x: Record, cols: seq<nat>, rids: seq<Rid>, i: nat)
    requires RecordOk(base.schema, x) && TargetsAre(base, x, cols, rids) && i < |cols|
    ensures i < |rids| && TargetIs(base, x, cols[i], rids[i])
  {
  }

  lemma TargetsMore(base: Store, x: Record, cols: seq<nat>, rids: seq<Rid>, c: nat, r: Rid)
    requires RecordOk(base.schema, x) && TargetsAre(base, x, cols, rids) && TargetIs(base, x, c, r)
    ensures TargetsAre(base, x, cols + [c], rids + [r])
  {
  }

  lemma NotAll(base: Store, x: Record, c: nat)
    requires RecordOk(base.schema, x)
    requires (c in Indexed(base.schema, x) && !FreshIn(base, x, c)) ||
        (c in Using(base.schema, x) && !TargetedIn(base, x, c))
    ensures !(Fresh(base, x) && AllTargeted(base.schema, base.tables, x))
  {
  }

  lemma AllColumns(base: Store, x: Record)
    requires RecordOk(base.schema, x)
    ensures (forall c :: c in Indexed(base.schema, x) ==> c < |base.schema[x.table]|)
    ensures forall c :: c in Using(base.schema, x) ==> c < |base.schema[x.table]|
    ensures (forall c :: c in Indexed(base.schema, x) ==> FreshIn(base, x, c)) ==> Fresh(base, x)
    ensures (forall c :: c in Using(base.schema, x) ==> TargetedIn(base, x, c)) ==>
              AllTargeted(base.schema, base.tables, x)
  {
  }

  function FirstColumns(n: nat): (cols: seq<nat>)
    ensures |cols| == n && DifferentColumns(cols) && forall i :: 0 <= i < n ==> cols[i] == i
  {
    seq(n, i => i)
  }

  lemma FreshWelcome(base: Store, x: Record)
    requires StoreOk(base) && RecordOk(base.schema, x) && x.row.refs == 0 && Fresh(base, x)
    requires AllTargeted(base.schema, base.tables, x)
    ensures OkBut(base, x.table, KeyFor(base.schema, x)) && Welcome(base, x)
  {
    hide Fresh, AllTargeted, SchemaOk, IndexesOk, CountsOk, KeyFor;
    forall k: nat | KeyColumn(base.schema[x.table], k)
      ensures x.row.refs == |Uses(base.schema, base.tables, x.table, x.row.values[k])|
    {
      FreshUnused(base, x, k);
    }
    WelcomeIs(base, x);
  }

  lemma LivesIs(full: Store, x: Record)
    requires StoreOk(full) && x.table in full.schema && x.table in full.tables && x.rid in full.tables[x.table]
    requires x.row == full.tables[x.table][x.rid]
    ensures Lives(full, x) && RecordOk(full.schema, x)
  {
    hide SchemaOk, IndexesOk, CountsOk, NoDangling;
    SnapshotRows(full.schema, full.tables, x.table);
  }

  lemma DetachedSchema(full: Store, x: Record)
    requires RecordOk(full.schema, x)
    ensures Detached(full, x).schema == full.schema
  {
  }

  lemma WelcomeTargets(base: Store, x: Record)
    requires RecordOk(base.schema, x) && Welcome(base, x)
    ensures AllTargeted(base.schema, base.tables, x)
  {
  }

  lemma TargetedAll(base: Store, x: Record, c: nat)
    requires RecordOk(base.schema, x) && AllTargeted(base.schema, base.tables, x) && c in Using(base.schema, x)
    ensures c < |base.schema[x.table]| && base.schema[x.table][c].foreign.Some?
    ensures Targeted(base.schema, base.tables, x, c)
  {
  }

  lemma Unreferenced(base: Store, x: Record)
    requires RecordOk(base.schema, x) && OkBut(base, x.table, KeyFor(base.schema, x)) && Welcome(base, x)
    requires ReferenceCounted(base.schema[x.table]) ==> x.row.refs == 0
    ensures StoreOk(base)
  {
    hide OkBut;
    Unused(base, x);
  }

  ghost predicate Updatable(desc: Descriptor, cols: seq<nat>, cells: seq<Option<int>>) {
    && DifferentColumns(cols) && Acceptable(desc, cols, cells)
    && forall i :: 0 <= i < |cols| ==> !desc[cols[i]].primary
  }

  predicate IndexFits(field: Field) {
    field.unique ==> NodeCapacity(KeyLength(field.length, true)) != 0
  }

  lemma RowsThere(s: Store, t: string, c: nat)
    requires StoreOk(s) && t in s.schema && t in s.tables && c < |s.schema[t]|
    ensures RowsOk(s.schema[t], s.tables[t]) && forall r :: r in s.tables[t] ==> FitsRow(s.schema[t], s.tables[t][r])
  {
    SnapshotRows(s.schema, s.tables, t);
  }

  lemma NextRid(rids: seq<Rid>, i: nat)
    requires NoneTwice(rids) && i < |rids|
    ensures rids[i] in rids[i..] && forall r :: r in rids[i + 1..] <==> r in rids[i..] && r != rids[i]
  {
    assert rids[i..] == [rids[i]] + rids[i + 1..];
  }

  lemma EmptyingSchema(full: Store, g: Store, cur: Snapshot, t: string, left: set<Rid>)
    requires Emptying(full, g, cur, t, left)
    ensures g.schema == full.schema && t in g.tables && g.indexes.Keys == full.indexes.Keys
    ensures forall name :: name in g.indexes && name.table != t ==> g.indexes[name] == full.indexes[name]
  {
  }

  lemma TargetNamed(schema: Schema, x: Record, c: nat)
    requires RecordOk(schema, x) && c < |schema[x.table]| && schema[x.table][c].foreign.Some?
    ensures TargetIndex(schema, x, c) ==
        IndexName(schema[x.table][c].foreign.value.table, schema[x.table][c].foreign.value.column)
  {
  }

  lemma TargetIsThis(base: Store, x: Record, c: nat, r: Rid)
    requires RecordOk(base.schema, x) && c < |base.schema[x.table]| && Foreign(base.schema[x.table], x.row, c)
    requires base.schema[x.table][c].foreign.Some? && IsTarget(base.schema, base.tables, x, c, r)
    ensures TargetIs(base, x, c, r)
  {
  }

  lemma Elsewhere(tables: Snapshot, t: string, rest: RowMap, n: string)
    ensures n != t ==> (n in tables <==> n in tables[t := rest]) && (n in tables ==> tables[t := rest][n] == tables[n])
  {
  }

  lemma Overwritten(tables: Snapshot, t: string, rest: RowMap, n: string, rows: RowMap)
    requires n != t
    ensures tables[n := rows][t := rest] == tables[t := rest][n := rows]
  {
  }

  lemma ReferencesCounted(full: Store, t: string)
    requires StoreOk(full) && t in full.schema
    ensures t in full.tables && t in full.foreignRefs
    ensures (full.foreignRefs[t] != 0 <==> ForeignColumns(full.schema, t) != {})
  {
    hide SchemaOk, IndexesOk, CountsOk, NoDangling, ForeignColumns;
  }
}
