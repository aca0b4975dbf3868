/** What keeps the tables of a database, their indexes and the reference counts of their records in
    step (src/query/query_engine.cpp), and the effect of adding or taking away one record. */
module IntegritySpec {
  import opened Wrappers
  import opened Rows
  import opened TableFiles
  import opened Gather
  import opened JoinSpec
  import KeyOrder
  import BPlusTree

  datatype IndexName = IndexName(table: string, column: nat)

  type Indexes = map<IndexName, map<int, BPlusTree.Slot>>

  /** The tables with their records, the contents of the indexes by table and column, and how many
      foreign key columns refer to each table. */
  datatype Store = Store(schema: Schema, tables: Snapshot, indexes: Indexes, foreignRefs: map<string, nat>)

  /** A non-null field of a foreign key column. */
  datatype Use = Use(table: string, rid: Rid, column: nat)

  function SlotOf(r: Rid): BPlusTree.Slot { BPlusTree.Slot(r.page, r.slot) }

  ghost predicate FieldsOk(desc: Descriptor) {
    && (forall c :: 0 <= c < |desc| ==>
          && (desc[c].primary ==> desc[c].unique && !desc[c].nullable)
          && (desc[c].unique ==> desc[c].indexed))
    && (forall c, d :: 0 <= c < |desc| && 0 <= d < |desc| && desc[c].primary && desc[d].primary ==> c == d)
  }

  /** A field of table t refers to the primary key of another table, if to any. */
  ghost predicate RefersOk(schema: Schema, t: string, field: Field) {
    field.foreign.Some? ==>
      var fk := field.foreign.value;
      fk.table in schema && fk.table != t && fk.column < |schema[fk.table]| && schema[fk.table][fk.column].primary
  }

  ghost predicate ForeignOk(schema: Schema, t: string, c: nat)
    requires t in schema && c < |schema[t]|
  {
    RefersOk(schema, t, schema[t][c])
  }

  /** Foreign keys refer to primary keys of other tables. */
  ghost predicate SchemaOk(schema: Schema) {
    forall t :: t in schema ==> FieldsOk(schema[t]) && forall c :: 0 <= c < |schema[t]| ==> ForeignOk(schema, t, c)
  }

  /** Field c of a row is a foreign key to the record of table n with key v. */
  ghost predicate Points(desc: Descriptor, row: Row, c: nat, n: string, v: int)
    requires c < |desc|
  {
    desc[c].foreign.Some? && desc[c].foreign.value.table == n && FitsRow(desc, row) && !IsNull(desc, row, c) &&
    row.values[c] == v
  }

  /** All uses of key v of table n. */
  ghost function Uses(schema: Schema, tables: Snapshot, n: string, v: int): set<Use> {
    set t, r, c | t in schema && t in tables && r in tables[t] && 0 <= c < |schema[t]| &&
        Points(schema[t], tables[t][r], c, n, v)
      :: Use(t, r, c)
  }

  ghost predicate HasKey(rows: RowMap, c: nat, v: int) {
    exists r :: r in rows && c < |rows[r].values| && rows[r].values[c] == v
  }

  /** Every index holds exactly the (value, offset) pairs of live records that are not null in its column. */
  ghost predicate IndexesOk(s: Store)
    requires SnapshotOk(s.schema, s.tables)
  {
    && (forall name :: name in s.indexes <==>
         name.table in s.schema && name.column < |s.schema[name.table]| && s.schema[name.table][name.column].indexed)
    && (forall name :: name in s.indexes ==>
          Agrees(s.indexes[name], s.schema[name.table], s.tables[name.table], name.column))
  }

  ghost predicate Counted(schema: Schema, tables: Snapshot, t: string, c: nat, r: Rid)
    requires t in tables && r in tables[t] && c < |tables[t][r].values|
  {
    tables[t][r].refs == |Uses(schema, tables, t, tables[t][r].values[c])|
  }

  /** The reference count of each record with a primary key is the number of live fields that use the key. */
  ghost predicate CountsOk(schema: Schema, tables: Snapshot)
    requires SnapshotOk(schema, tables)
  {
    forall t, c, r :: t in schema && 0 <= c < |schema[t]| && schema[t][c].primary && r in tables[t] ==>
        Counted(schema, tables, t, c, r)
  }

  /** No live foreign key dangles, except those to key `but` of table n. */
  ghost predicate NoDangling(schema: Schema, tables: Snapshot, n: string, but: Option<int>)
    requires SchemaOk(schema) && SnapshotOk(schema, tables)
  {
    forall t, r, c :: t in schema && r in tables[t] && 0 <= c < |schema[t]| && Foreign(schema[t], tables[t][r], c) ==>
      var fk := schema[t][c].foreign.value;
      (fk.table == n && but == Some(tables[t][r].values[c])) ||
          (fk.table in tables && HasKey(tables[fk.table], fk.column, tables[t][r].values[c]))
  }

  ghost predicate Foreign(desc: Descriptor, row: Row, c: nat)
    requires c < |desc|
  {
    desc[c].foreign.Some? && FitsRow(desc, row) && !IsNull(desc, row, c)
  }

  ghost function ForeignColumns(schema: Schema, n: string): set<(string, nat)> {
    set t, c | t in schema && 0 <= c < |schema[t]| && schema[t][c].foreign.Some? &&
        schema[t][c].foreign.value.table == n :: (t, c)
  }

  ghost predicate ForeignRefsOk(s: Store) {
    s.foreignRefs.Keys == s.schema.Keys && forall n :: n in s.schema ==>
        s.foreignRefs[n] == |ForeignColumns(s.schema, n)|
  }

  /** The invariant, but for uses of one key. */
  ghost predicate OkBut(s: Store, n: string, but: Option<int>) {
    && SchemaOk(s.schema) && SnapshotOk(s.schema, s.tables)
    && IndexesOk(s) && CountsOk(s.schema, s.tables) && NoDangling(s.schema, s.tables, n, but)
    && ForeignRefsOk(s)
  }

  ghost predicate StoreOk(s: Store) { OkBut(s, "", None) }

  lemma OkAnywhere(s: Store, n: string)
    ensures OkBut(s, n, None) <==> StoreOk(s)
  {
  }

  // ---------------------------------------------------------------- reference counts do not matter to the rest

  /** Same records but for their reference counts. */
  ghost predicate SameRows(a: RowMap, b: RowMap) {
    a.Keys == b.Keys && forall r :: r in a ==> a[r].nulls == b[r].nulls && a[r].values == b[r].values
  }

  lemma AgreesSame(contents: map<int, BPlusTree.Slot>, desc: Descriptor, a: RowMap, b: RowMap, c: nat)
    requires c < |desc| && RowsOk(desc, a) && Agrees(contents, desc, a, c) && SameRows(a, b)
    ensures RowsOk(desc, b) && Agrees(contents, desc, b, c)
  {
    forall r | r in b && !IsNull(desc, b[r], c) ensures Pointed(contents, desc, b, c, r) {
      assert Pointed(contents, desc, a, c, r);
    }
  }

  lemma UsesAre(schema: Schema, a: Snapshot, n: string, v: int, u: Use)
    ensures u in Uses(schema, a, n, v) <==>
              u.table in schema && u.table in a && u.rid in a[u.table] && u.column < |schema[u.table]|
              && Points(schema[u.table], a[u.table][u.rid], u.column, n, v)
  {
    assert u == Use(u.table, u.rid, u.column);
  }

  // ---------------------------------------------------------------- one record more in one index

  lemma AgreesAdd(contents: map<int, BPlusTree.Slot>, desc: Descriptor, rows: RowMap, c: nat, rid: Rid, row: Row)
    requires c < |desc| && RowsOk(desc, rows) && Agrees(contents, desc, rows, c) && rid !in rows
    requires FitsRow(desc, row) && KeyOrder.RealOffset(rid) && !IsNull(desc, row, c)
    requires KeyOf(row.values[c], rid, desc[c].unique) !in contents
    ensures RowsOk(desc, rows[rid := row])
    ensures Agrees(contents[KeyOf(row.values[c], rid, desc[c].unique) := SlotOf(rid)], desc, rows[rid := row], c)
  {
    var k := KeyOf(row.values[c], rid, desc[c].unique);
    var more, all := contents[k := SlotOf(rid)], rows[rid := row];
    assert RidOf(SlotOf(rid)) == rid;
    forall r | r in all && !IsNull(desc, all[r], c) ensures Pointed(more, desc, all, c, r) {
      if r != rid { assert Pointed(contents, desc, rows, c, r); }
    }
  }

  lemma AgreesNull(contents: map<int, BPlusTree.Slot>, desc: Descriptor, rows: RowMap, c: nat, rid: Rid, row: Row)
    requires c < |desc| && RowsOk(desc, rows) && Agrees(contents, desc, rows, c) && rid !in rows
    requires FitsRow(desc, row) && KeyOrder.RealOffset(rid) && IsNull(desc, row, c)
    ensures RowsOk(desc, rows[rid := row]) && Agrees(contents, desc, rows[rid := row], c)
  {
    var all := rows[rid := row];
    forall r | r in all && !IsNull(desc, all[r], c) ensures Pointed(contents, desc, all, c, r) {
      assert Pointed(contents, desc, rows, c, r);
    }
  }

  /** Different records have different keys in an index. */
  lemma KeysDiffer(contents: map<int, BPlusTree.Slot>, desc: Descriptor, rows: RowMap, c: nat, r: Rid, q: Rid)
    requires c < |desc| && RowsOk(desc, rows) && Agrees(contents, desc, rows, c)
    requires r in rows && q in rows && !IsNull(desc, rows[r], c) && !IsNull(desc, rows[q], c)
    requires KeyOf(rows[r].values[c], r, desc[c].unique) == KeyOf(rows[q].values[c], q, desc[c].unique)
    ensures r == q
  {
    assert Pointed(contents, desc, rows, c, r) && Pointed(contents, desc, rows, c, q);
  }

  lemma AgreesRemove(contents: map<int, BPlusTree.Slot>, desc: Descriptor, rows: RowMap, c: nat, rid: Rid)
    requires c < |desc| && RowsOk(desc, rows) && Agrees(contents, desc, rows, c) && rid in rows
    ensures RowsOk(desc, rows - {rid})
    ensures IsNull(desc, rows[rid], c) ==> Agrees(contents, desc, rows - {rid}, c)
    ensures !IsNull(desc, rows[rid], c) ==>
              var k := KeyOf(rows[rid].values[c], rid, desc[c].unique);
              k in contents && contents[k] == SlotOf(rid) && Agrees(contents - {k}, desc, rows - {rid}, c)
  {
    var rest := rows - {rid};
    if IsNull(desc, rows[rid], c) {
      forall r | r in rest && !IsNull(desc, rest[r], c) ensures Pointed(contents, desc, rest, c, r) {
        assert Pointed(contents, desc, rows, c, r);
      }
    } else {
      var k := KeyOf(rows[rid].values[c], rid, desc[c].unique);
      assert Pointed(contents, desc, rows, c, rid);
      assert contents[k] == SlotOf(RidOf(contents[k]));
      forall r | r in rest && !IsNull(desc, rest[r], c) ensures Pointed(contents - {k}, desc, rest, c, r) {
        assert Pointed(contents, desc, rows, c, r);
        if KeyOf(rows[r].values[c], r, desc[c].unique) == k { KeysDiffer(contents, desc, rows, c, r, rid); }
      }
      forall j | j in contents - {k} ensures RidOf(contents[j]) != rid {
      }
    }
  }
}
