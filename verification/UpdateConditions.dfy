/** When an update succeeds, said of the tables before it (src/query/query_engine.cpp:340-384). */
module UpdateConditions {
  import opened Wrappers
  import opened Rows
  import opened TableFiles
  import opened Gather
  import opened JoinSpec
  import opened IntegritySpec
  import opened Attach
  import opened FieldUpdates
  import opened Integrity
  import KeyOrder
  import BPlusTree

  /** Another record than rid has the value in column c. */
  ghost predicate HeldElsewhere(desc: Descriptor, rows: RowMap, rid: Rid, c: nat, v: int)
    requires c < |desc|
  {
    exists r :: r in rows && r != rid && Holds(desc, rows[r], c, v)
  }

  ghost predicate Holds(desc: Descriptor, row: Row, c: nat, v: int)
    requires c < |desc|
  {
    FitsRow(desc, row) && !IsNull(desc, row, c) && row.values[c] == v
  }

  ghost predicate KeyThere(tables: Snapshot, fk: ForeignKey, v: int) {
    fk.table in tables && HasKey(tables[fk.table], fk.column, v)
  }

  /** The update writes other bytes into column c of the record. */
  ghost predicate Changes(rows: RowMap, rid: Rid, c: nat, given: Row) {
    rid in rows && c < |rows[rid].values| && c < |given.values| && rows[rid].values[c] != given.values[c]
  }

  /** The given field can go into column c of a record: its bytes are there already, or it is null, or no other record
      has the value, if the column is unique, and the table that it refers to has it as a key, if it is a foreign
      key. */
  ghost predicate Enterable(s: Store, t: string, rid: Rid, c: nat, given: Row)
    requires t in s.schema && t in s.tables && rid in s.tables[t] && c < |s.schema[t]| && FitsRow(s.schema[t], given)
  {
    var desc := s.schema[t];
    Changes(s.tables[t], rid, c, given) && !IsNull(desc, given, c) ==>
      && (desc[c].unique ==> !HeldElsewhere(desc, s.tables[t], rid, c, given.values[c]))
      && (desc[c].foreign.Some? ==> KeyThere(s.tables, desc[c].foreign.value, given.values[c]))
  }

  /** The update fails for a conflict: it gives a unique column a value that another record has. */
  ghost predicate Clashes(s: Store, t: string, rid: Rid, c: nat, given: Row)
    requires t in s.schema && t in s.tables && rid in s.tables[t] && c < |s.schema[t]| && FitsRow(s.schema[t], given)
  {
    var desc := s.schema[t];
    && Changes(s.tables[t], rid, c, given) && !IsNull(desc, given, c)
    && desc[c].unique && HeldElsewhere(desc, s.tables[t], rid, c, given.values[c])
  }

  /** An update of a record fails at the first column that cannot be updated in the state reached, and leaves the
      database halted there, for a conflict or else for a foreign key. */
  ghost predicate StopsAt(mid: Store, s': Store, t: string, rid: Rid, c: nat, given: Row, conflict: bool) {
    && t in mid.schema && t in mid.tables && rid in mid.tables[t] && c < |mid.schema[t]|
    && FitsRow(mid.schema[t], given)
    && StoreOk(mid) && !Replaceable(mid, t, rid, c, given) && UpdateHalted(mid, s', t, rid, c, given)
    && (conflict <==> Clashes(mid, t, rid, c, given))
  }

  ghost predicate RecordStops(s: Store, s': Store, t: string, rid: Rid, cols: seq<nat>, given: Row, conflict: bool) {
    exists mid, i :: 0 <= i < |cols| && Rewritten(s, mid, t, rid, cols[..i], given) &&
        StopsAt(mid, s', t, rid, cols[i], given, conflict)
  }

  ghost predicate UpdateStops(s: Store, s': Store, t: string, rids: seq<Rid>, cols: seq<nat>, given: Row,
                              conflict: bool)
  {
    exists mid, i :: 0 <= i < |rids| && AllRewritten(s, mid, t, rids[..i], cols, given) &&
        RecordStops(mid, s', t, rids[i], cols, given, conflict)
  }

  // ---------------------------------------------------------------- one column

  /** The key of a record that is not in the table is new to an index unless the column is unique and another record has
      the value. */
  lemma FreshIff(base: Store, y: Record, c: nat)
    requires SchemaOk(base.schema) && SnapshotOk(base.schema, base.tables) && IndexesOk(base)
    requires RecordOk(base.schema, y) && y.rid !in base.tables[y.table] && c in Indexed(base.schema, y)
    ensures var desc := base.schema[y.table];
            c < |desc| && (FreshIn(base, y, c) <==>
              desc[c].unique ==> !HeldElsewhere(desc, base.tables[y.table], y.rid, c, y.row.values[c]))
  {
    var desc, rows, name := base.schema[y.table], base.tables[y.table], IndexName(y.table, c);
    assert name in base.indexes && RowsOk(desc, rows) && Agrees(base.indexes[name], desc, rows, c);
    FreshKey(base.indexes[name], desc, rows, c, y.rid, y.row.values[c]);
  }

  lemma FreshKey(contents: map<int, BPlusTree.Slot>, desc: Descriptor, rows: RowMap, c: nat, rid: Rid, v: int)
    requires c < |desc| && RowsOk(desc, rows) && Agrees(contents, desc, rows, c)
    requires rid !in rows && KeyOrder.RealOffset(rid)
    ensures KeyOf(v, rid, desc[c].unique) !in contents <==> (desc[c].unique ==> !HeldElsewhere(desc, rows, rid, c, v))
  {
    var k := KeyOf(v, rid, desc[c].unique);
    if k in contents {
      var r := RidOf(contents[k]);
      if desc[c].unique {
        assert Holds(desc, rows[r], c, v);
      } else {
        KeyOrder.ValueKeyOrder(v, rid, rows[r].values[c], r);
      }
    }
    if desc[c].unique && HeldElsewhere(desc, rows, rid, c, v) {
      var r :| r in rows && r != rid && Holds(desc, rows[r], c, v);
      assert Pointed(contents, desc, rows, c, r);
    }
  }

  lemma DetachedHolds(s: Store, x: Record, c: nat, v: int)
    requires Lives(s, x) && c < |s.schema[x.table]|
    ensures x.table in Detached(s, x).tables && x.rid !in Detached(s, x).tables[x.table]
    ensures HeldElsewhere(s.schema[x.table], Detached(s, x).tables[x.table], x.rid, c, v) <==>
              HeldElsewhere(s.schema[x.table], s.tables[x.table], x.rid, c, v)
  {
    var a, b := Detached(s, x).tables[x.table], s.tables[x.table];
    assert a == b - {x.rid};
    forall r | r in b && r != x.rid ensures r in a && a[r] == b[r] {
    }
  }

  lemma SameKeys(a: RowMap, b: RowMap, c: nat, v: int)
    requires SameRows(a, b)
    ensures HasKey(a, c, v) <==> HasKey(b, c, v)
  {
    if HasKey(a, c, v) {
      var r :| r in a && c < |a[r].values| && a[r].values[c] == v;
      assert r in b && b[r].values == a[r].values;
    }
    if HasKey(b, c, v) {
      var r :| r in b && c < |b[r].values| && b[r].values[c] == v;
      assert r in a && a[r].values == b[r].values;
    }
  }

  /** In a consistent database, whether a column of a record can be updated is a matter of the tables alone. */
  lemma ReplaceableIff(s: Store, t: string, rid: Rid, c: nat, given: Row)
    requires StoreOk(s) && t in s.schema && t in s.tables && rid in s.tables[t] && c < |s.schema[t]|
    requires FitsRow(s.schema[t], given)
    ensures Replaceable(s, t, rid, c, given) <==> Enterable(s, t, rid, c, given)
  {
    var x := Record(t, rid, s.tables[t][rid]);
    hide *;
    LivesIs(s, x);
    RecordFits(s.schema, x);
    var y := Record(t, rid, UpdatedCell(s.schema[t], x.row, c, given));
    ReplaceableIs(s, x, y, c, given);
    ChangesIs(s.tables[t], rid, c, given);
    EnterableIs(s, t, rid, c, given);
    if x.row.values[c] != given.values[c] {
      var base := Detached(s, x);
      DetachOk(s, x);
      DetachedSchema(s, x);
      UpdatedFits(base.schema, x, y, c, given);
      WelcomeIff(s, x, y, c, given);
    }
  }

  lemma ChangesIs(rows: RowMap, rid: Rid, c: nat, given: Row)
    requires rid in rows && c < |rows[rid].values| && c < |given.values|
    ensures Changes(rows, rid, c, given) <==> rows[rid].values[c] != given.values[c]
  {
  }

  lemma EnterableIs(s: Store, t: string, rid: Rid, c: nat, given: Row)
    requires t in s.schema && t in s.tables && rid in s.tables[t] && c < |s.schema[t]| && FitsRow(s.schema[t], given)
    ensures Enterable(s, t, rid, c, given) <==>
              var desc := s.schema[t];
              Changes(s.tables[t], rid, c, given) && !IsNull(desc, given, c) ==>
                && (desc[c].unique ==> !HeldElsewhere(desc, s.tables[t], rid, c, given.values[c]))
                && (desc[c].foreign.Some? ==> KeyThere(s.tables, desc[c].foreign.value, given.values[c]))
  {
  }

  lemma WelcomeIff(s: Store, x: Record, y: Record, c: nat, given: Row)
    requires StoreOk(s) && RecordOk(s.schema, x) && Lives(s, x) && c < |s.schema[x.table]|
    requires FitsRow(s.schema[x.table], given)
    requires x.row.values[c] != given.values[c] && Detached(s, x).schema == s.schema && RecordOk(s.schema, y)
    requires y == Record(x.table, x.rid, UpdatedCell(s.schema[x.table], x.row, c, given))
    ensures FieldWelcome(Detached(s, x), y, c) <==>
              var desc := s.schema[x.table];
              !IsNull(desc, given, c) ==>
                && (desc[c].unique ==> !HeldElsewhere(desc, s.tables[x.table], x.rid, c, given.values[c]))
                && (desc[c].foreign.Some? ==> KeyThere(s.tables, desc[c].foreign.value, given.values[c]))
  {
    hide *;
    RecordFits(s.schema, x);
    var base, desc := Detached(s, x), s.schema[x.table];
    DetachOk(s, x);
    Parts(base, x.table, KeyFor(base.schema, x));
    GivenIs(desc, x.row, c, given);
    FieldWelcomeIs(base, y, c);
    ColumnIs(base.schema, y, c);
    NullIs(desc, given, c);
    FieldIs(s, x.table, c);
    DetachedHolds(s, x, c, given.values[c]);
    if c in Indexed(base.schema, y) { FreshIff(base, y, c); }
    if desc[c].foreign.Some? {
      FreshInIs(base, y, c);
      TargetedIff(s, x, y, c);
    }
  }

  lemma ClashIff(s: Store, x: Record, y: Record, c: nat, given: Row)
    requires StoreOk(s) && RecordOk(s.schema, x) && Lives(s, x) && c < |s.schema[x.table]|
    requires FitsRow(s.schema[x.table], given)
    requires x.row.values[c] != given.values[c] && Detached(s, x).schema == s.schema && RecordOk(s.schema, y)
    requires y == Record(x.table, x.rid, UpdatedCell(s.schema[x.table], x.row, c, given))
    ensures c in Indexed(s.schema, y) && !FreshIn(Detached(s, x), y, c) <==> Clashes(s, x.table, x.rid, c, given)
  {
    hide *;
    RecordFits(s.schema, x);
    var base, desc := Detached(s, x), s.schema[x.table];
    DetachOk(s, x);
    Parts(base, x.table, KeyFor(base.schema, x));
    GivenIs(desc, x.row, c, given);
    ColumnIs(base.schema, y, c);
    NullIs(desc, given, c);
    FieldIs(s, x.table, c);
    DetachedHolds(s, x, c, given.values[c]);
    LivesHere(s, x);
    ChangesIs(s.tables[x.table], x.rid, c, given);
    ClashesIs(s, x.table, x.rid, c, given);
    if c in Indexed(base.schema, y) { FreshIff(base, y, c); }
  }

  lemma LivesHere(s: Store, x: Record)
    requires Lives(s, x)
    ensures x.table in s.schema && x.table in s.tables && x.rid in s.tables[x.table]
    ensures s.tables[x.table][x.rid] == x.row
  {
  }

  lemma ClashesIs(s: Store, t: string, rid: Rid, c: nat, given: Row)
    requires t in s.schema && t in s.tables && rid in s.tables[t] && c < |s.schema[t]| && FitsRow(s.schema[t], given)
    ensures |given.values| == |s.schema[t]|
    ensures Clashes(s, t, rid, c, given) <==>
              var desc := s.schema[t];
              && Changes(s.tables[t], rid, c, given) && !IsNull(desc, given, c)
              && desc[c].unique && HeldElsewhere(desc, s.tables[t], rid, c, given.values[c])
  {
  }

  lemma GivenIs(desc: Descriptor, row: Row, c: nat, given: Row)
    requires c < |desc| && FitsRow(desc, row) && FitsRow(desc, given) && row.values[c] != given.values[c]
    ensures var y := UpdatedCell(desc, row, c, given);
            |given.values| == |desc| && FitsRow(desc, y) && y.values[c] == given.values[c] &&
            (desc[c].nullable ==> y.nulls[c] == given.nulls[c])
  {
  }

  lemma NullIs(desc: Descriptor, row: Row, c: nat)
    requires c < |desc| && FitsRow(desc, row)
    ensures |row.nulls| == |desc| && (IsNull(desc, row, c) <==> desc[c].nullable && row.nulls[c])
  {
  }

  lemma FieldIs(s: Store, t: string, c: nat)
    requires StoreOk(s) && t in s.schema && c < |s.schema[t]|
    ensures s.schema[t][c].unique ==> s.schema[t][c].indexed
    ensures s.schema[t][c].foreign.Some? ==> s.schema[t][c].foreign.value.table != t
  {
    assert FieldsOk(s.schema[t]) && ForeignOk(s.schema, t, c);
  }

  lemma TargetedIff(s: Store, x: Record, y: Record, c: nat)
    requires StoreOk(s) && Lives(s, x) && c < |s.schema[x.table]| && s.schema[x.table][c].foreign.Some?
    requires RecordOk(s.schema, y) && y.table == x.table && Detached(s, x).schema == s.schema
    ensures |y.row.values| == |s.schema[x.table]|
    ensures Targeted(s.schema, Detached(s, x).tables, y, c) <==>
              KeyThere(s.tables, s.schema[x.table][c].foreign.value, y.row.values[c])
  {
    var fk := s.schema[x.table][c].foreign.value;
    FieldIs(s, x.table, c);
    DetachedWith(s, x);
    hide Detached, HasKey;
    if fk.table in s.tables {
      SameKeys(Detached(s, x).tables[fk.table], s.tables[fk.table], fk.column, y.row.values[c]);
    }
  }

  // ---------------------------------------------------------------- several columns of one record

  lemma {:induction false} UpdatedField(desc: Descriptor, row: Row, cols: seq<nat>, given: Row, c: nat)
    requires FitsRow(desc, row) && FitsRow(desc, given) && (forall i :: 0 <= i < |cols| ==> cols[i] < |desc|)
    requires c < |desc|
    ensures var u := UpdatedRow(desc, row, cols, given);
            && u.values[c] == (if c in cols then given.values[c] else row.values[c])
            && (c !in cols || row.values[c] == given.values[c] ==> u.nulls[c] == row.nulls[c])
            && (c in cols && row.values[c] != given.values[c] && desc[c].nullable ==> u.nulls[c] == given.nulls[c])
  {
    if cols != [] {
      UpdatedField(desc, row, cols[..|cols| - 1], given, c);
      assert cols == cols[..|cols| - 1] + [cols[|cols| - 1]];
    }
  }

  // The rows that refer to other tables find the same keys there.
  lemma KeysStay(s: Store, mid: Store, t: string, c: nat, v: int)
    requires StoreOk(s) && t in s.schema && c < |s.schema[t]| && s.schema[t][c].foreign.Some?
    requires mid.tables.Keys == s.tables.Keys
    requires forall n :: n in s.tables && n != t ==> SameRows(s.tables[n], mid.tables[n])
    ensures KeyThere(mid.tables, s.schema[t][c].foreign.value, v) <==>
              KeyThere(s.tables, s.schema[t][c].foreign.value, v)
  {
    FieldIs(s, t, c);
    var fk := s.schema[t][c].foreign.value;
    hide StoreOk, SameRows, HasKey;
    if fk.table in s.tables { SameKeys(s.tables[fk.table], mid.tables[fk.table], fk.column, v); }
  }

  /** While some columns of a record are updated, an updated one can be updated again, and any other just as before. */
  lemma EnterableWithin(s: Store, mid: Store, t: string, rid: Rid, cols: seq<nat>, c: nat, given: Row)
    requires StoreOk(s) && Rewritten(s, mid, t, rid, cols, given) && c < |s.schema[t]|
    ensures t in mid.schema && t in mid.tables && rid in mid.tables[t] && mid.schema == s.schema
    ensures Enterable(mid, t, rid, c, given) <==> c in cols || Enterable(s, t, rid, c, given)
  {
    hide *;
    RewrittenHere(s, mid, t, rid, cols, c, given);
    if s.schema[t][c].foreign.Some? { KeysStay(s, mid, t, c, given.values[c]); }
    EnterableIs(s, t, rid, c, given);
    EnterableIs(mid, t, rid, c, given);
  }

  lemma RewrittenHere(s: Store, mid: Store, t: string, rid: Rid, cols: seq<nat>, c: nat, given: Row)
    requires Rewritten(s, mid, t, rid, cols, given) && c < |s.schema[t]|
    ensures t in s.schema && t in s.tables && t in mid.tables && mid.schema == s.schema
    ensures mid.tables.Keys == s.tables.Keys
    ensures rid in s.tables[t] && rid in mid.tables[t] && FitsRow(s.schema[t], given) && |given.values| == |s.schema[t]|
    ensures forall n :: n in s.tables && n != t ==> SameRows(s.tables[n], mid.tables[n])
    ensures Changes(mid.tables[t], rid, c, given) <==> c !in cols && Changes(s.tables[t], rid, c, given)
    ensures HeldElsewhere(s.schema[t], mid.tables[t], rid, c, given.values[c]) <==>
              HeldElsewhere(s.schema[t], s.tables[t], rid, c, given.values[c])
  {
    UpdatedField(s.schema[t], s.tables[t][rid], cols, given, c);
    hide UpdatedRow, SameRows, Holds;
    assert forall r :: r != rid ==>
        (r in s.tables[t] <==> r in mid.tables[t]) && (r in s.tables[t] ==> s.tables[t][r] == mid.tables[t][r]);
  }

  ghost predicate ColumnsIn(desc: Descriptor, cols: seq<nat>) {
    forall i :: 0 <= i < |cols| ==> cols[i] < |desc|
  }

  /** Every column of the record can be updated. */
  ghost predicate AllEnterable(s: Store, t: string, rid: Rid, cols: seq<nat>, given: Row)
    requires t in s.schema && t in s.tables && rid in s.tables[t] && FitsRow(s.schema[t], given)
    requires ColumnsIn(s.schema[t], cols)
  {
    forall i :: 0 <= i < |cols| ==> Enterable(s, t, rid, cols[i], given)
  }

  lemma EnterableNext(s: Store, mid: Store, t: string, rid: Rid, cols: seq<nat>, i: nat, given: Row)
    requires StoreOk(s) && t in s.schema && t in s.tables && rid in s.tables[t] && FitsRow(s.schema[t], given)
    requires i < |cols|
    requires ColumnsIn(s.schema[t], cols) && Rewritten(s, mid, t, rid, cols[..i], given)
    ensures t in mid.schema && t in mid.tables && rid in mid.tables[t] && mid.schema == s.schema
    ensures ColumnsIn(s.schema[t], cols[..i]) && ColumnsIn(s.schema[t], cols[..i + 1])
    ensures AllEnterable(s, t, rid, cols[..i + 1], given) <==>
              AllEnterable(s, t, rid, cols[..i], given) && Enterable(mid, t, rid, cols[i], given)
    ensures AllEnterable(s, t, rid, cols, given) ==> AllEnterable(s, t, rid, cols[..i + 1], given)
  {
    hide *;
    EnterableMore(s, t, rid, cols, i, given);
    EnterableWithin(s, mid, t, rid, cols[..i], cols[i], given);
  }

  lemma EnterableMore(s: Store, t: string, rid: Rid, cols: seq<nat>, i: nat, given: Row)
    requires t in s.schema && t in s.tables && rid in s.tables[t] && FitsRow(s.schema[t], given)
    requires ColumnsIn(s.schema[t], cols) && i < |cols|
    ensures cols[i] < |s.schema[t]| && ColumnsIn(s.schema[t], cols[..i]) && ColumnsIn(s.schema[t], cols[..i + 1])
    ensures AllEnterable(s, t, rid, cols[..i + 1], given) <==>
              AllEnterable(s, t, rid, cols[..i], given) && Enterable(s, t, rid, cols[i], given)
    ensures AllEnterable(s, t, rid, cols[..i], given) && cols[i] in cols[..i] ==> Enterable(s, t, rid, cols[i], given)
    ensures AllEnterable(s, t, rid, cols, given) ==> AllEnterable(s, t, rid, cols[..i + 1], given)
  {
    hide Enterable, FitsRow;
    var less, more := cols[..i], cols[..i + 1];
    assert more == less + [cols[i]] && more[i] == cols[i];
    assert forall j :: 0 <= j < i ==> more[j] == less[j] == cols[j];
  }

  // ---------------------------------------------------------------- several records

  ghost predicate RidsIn(rows: RowMap, rids: seq<Rid>) {
    forall i :: 0 <= i < |rids| ==> rids[i] in rows
  }

  /** No two of the records have other bytes in column c than the given ones. */
  ghost predicate OneChanges(rows: RowMap, rids: seq<Rid>, c: nat, given: Row) {
    forall i, j :: 0 <= i < j < |rids| ==> !(Changes(rows, rids[i], c, given) && Changes(rows, rids[j], c, given))
  }

  /** Column c of the records can be updated: in each of them by itself and, if it is unique and given a value, with a
      change in one of them at most. */
  ghost predicate ColumnWelcome(s: Store, t: string, rids: seq<Rid>, c: nat, given: Row)
    requires t in s.schema && t in s.tables && FitsRow(s.schema[t], given) && RidsIn(s.tables[t], rids)
    requires c < |s.schema[t]|
  {
    && (forall i :: 0 <= i < |rids| ==> Enterable(s, t, rids[i], c, given))
    && (s.schema[t][c].unique && !IsNull(s.schema[t], given, c) ==> OneChanges(s.tables[t], rids, c, given))
  }

  ghost predicate UpdateWelcome(s: Store, t: string, rids: seq<Rid>, cols: seq<nat>, given: Row)
    requires t in s.schema && t in s.tables && FitsRow(s.schema[t], given) && RidsIn(s.tables[t], rids)
    requires ColumnsIn(s.schema[t], cols)
  {
    forall i :: 0 <= i < |cols| ==> ColumnWelcome(s, t, rids, cols[i], given)
  }

  lemma HoldsUpdated(desc: Descriptor, row: Row, cols: seq<nat>, given: Row, c: nat)
    requires FitsRow(desc, row) && FitsRow(desc, given) && forall i :: 0 <= i < |cols| ==> cols[i] < |desc|
    requires c < |desc| && c in cols && !IsNull(desc, given, c)
    ensures Holds(desc, UpdatedRow(desc, row, cols, given), c, given.values[c]) <==>
              Holds(desc, row, c, given.values[c]) || row.values[c] != given.values[c]
  {
    UpdatedField(desc, row, cols, given, c);
  }

  /** Rows before and after an update of some of them. */
  ghost predicate RowsUpdated(desc: Descriptor, a: RowMap, b: RowMap, rids: seq<Rid>, cols: seq<nat>, given: Row) {
    && FitsRow(desc, given) && (forall i :: 0 <= i < |cols| ==> cols[i] < |desc|) && a.Keys == b.Keys
    && forall r :: r in a ==>
         FitsRow(desc, a[r]) && b[r] == if r in rids then UpdatedRow(desc, a[r], cols, given) else a[r]
  }

  lemma RowUpdated(desc: Descriptor, a: RowMap, b: RowMap, rids: seq<Rid>, cols: seq<nat>, given: Row, r: Rid, c: nat)
    requires RowsUpdated(desc, a, b, rids, cols, given) && c < |desc| && c in cols && !IsNull(desc, given, c)
    ensures r in a <==> r in b
    ensures Changes(a, r, c, given) ==> r in a
    ensures r in a ==>
              (Holds(desc, b[r], c, given.values[c]) <==>
                  Holds(desc, a[r], c, given.values[c]) || (r in rids && Changes(a, r, c, given)))
  {
    if r in a { HoldsUpdated(desc, a[r], cols, given, c); }
    assert r in a <==> r in a.Keys;
    assert r in b <==> r in b.Keys;
  }

  // A value that some records have been given is held by one of them that did not have its bytes, or as before.
  lemma HeldAmong(desc: Descriptor, a: RowMap, b: RowMap, rids: seq<Rid>, cols: seq<nat>, given: Row, rid: Rid, c: nat)
    requires FitsRow(desc, given) && c < |desc| && c in cols && !IsNull(desc, given, c) && rid !in rids
    requires RowsUpdated(desc, a, b, rids, cols, given)
    ensures HeldElsewhere(desc, b, rid, c, given.values[c]) <==>
              HeldElsewhere(desc, a, rid, c, given.values[c]) || exists r :: r in rids && Changes(a, r, c, given)
  {
    hide Holds, UpdatedRow, IsNull, RowsUpdated, Changes;
    var v := given.values[c];
    if HeldElsewhere(desc, b, rid, c, v) {
      var r :| r in b && r != rid && Holds(desc, b[r], c, v);
      RowUpdated(desc, a, b, rids, cols, given, r, c);
    }
    if HeldElsewhere(desc, a, rid, c, v) {
      var r :| r in a && r != rid && Holds(desc, a[r], c, v);
      RowUpdated(desc, a, b, rids, cols, given, r, c);
    }
    if r :| r in rids && Changes(a, r, c, given) {
      RowUpdated(desc, a, b, rids, cols, given, r, c);
    }
  }

  /** While some records are updated, a column of another one can be updated iff it could before and, if it is unique
      and changes to a value, none of them has changed to it. */
  lemma EnterableAmong(s: Store, mid: Store, t: string, rids: seq<Rid>, cols: seq<nat>, rid: Rid, c: nat, given: Row)
    requires StoreOk(s) && AllRewritten(s, mid, t, rids, cols, given) && rid in s.tables[t] && rid !in rids && c in cols
    ensures c < |s.schema[t]| && t in mid.schema && t in mid.tables && rid in mid.tables[t] && mid.schema == s.schema
    ensures Enterable(mid, t, rid, c, given) <==>
              && Enterable(s, t, rid, c, given)
              && (s.schema[t][c].unique && !IsNull(s.schema[t], given, c) && Changes(s.tables[t], rid, c, given) ==>
                    forall r :: r in rids ==> !Changes(s.tables[t], r, c, given))
  {
    hide *;
    AllRewrittenHere(s, mid, t, rids, cols, rid, c, given);
    var desc := s.schema[t];
    if desc[c].foreign.Some? { KeysStay(s, mid, t, c, given.values[c]); }
    if !IsNull(desc, given, c) { HeldAmong(desc, s.tables[t], mid.tables[t], rids, cols, given, rid, c); }
    EnterableIs(s, t, rid, c, given);
    EnterableIs(mid, t, rid, c, given);
  }

  lemma AllRewrittenHere(s: Store, mid: Store, t: string, rids: seq<Rid>, cols: seq<nat>, rid: Rid, c: nat, given: Row)
    requires AllRewritten(s, mid, t, rids, cols, given) && rid in s.tables[t] && rid !in rids && c in cols
    ensures t in s.schema && t in s.tables && t in mid.tables && mid.schema == s.schema
    ensures mid.tables.Keys == s.tables.Keys
    ensures rid in mid.tables[t] && c < |s.schema[t]| && FitsRow(s.schema[t], given) && |given.values| == |s.schema[t]|
    ensures forall n :: n in s.tables && n != t ==> SameRows(s.tables[n], mid.tables[n])
    ensures Changes(mid.tables[t], rid, c, given) <==> Changes(s.tables[t], rid, c, given)
    ensures RowsUpdated(s.schema[t], s.tables[t], mid.tables[t], rids, cols, given)
  {
    hide UpdatedRow, SameRows;
  }

  /** One record more. */
  lemma WelcomeNext(s: Store, mid: Store, t: string, rids: seq<Rid>, i: nat, cols: seq<nat>, given: Row)
    requires StoreOk(s) && NoneTwice(rids) && i < |rids| && AllRewritten(s, mid, t, rids[..i], cols, given)
    requires RidsIn(s.tables[t], rids)
    ensures t in mid.schema && t in mid.tables && rids[i] in mid.tables[t] && mid.schema == s.schema
    ensures RidsIn(s.tables[t], rids[..i]) && RidsIn(s.tables[t], rids[..i + 1])
    ensures UpdateWelcome(s, t, rids[..i + 1], cols, given) <==>
              UpdateWelcome(s, t, rids[..i], cols, given) && AllEnterable(mid, t, rids[i], cols, given)
    ensures t in s.tables && UpdateWelcome(s, t, rids, cols, given) ==> UpdateWelcome(s, t, rids[..i + 1], cols, given)
  {
    hide *;
    AllRewrittenNow(s, mid, t, rids, i, cols, given);
    forall k | 0 <= k < |cols|
      ensures ColumnWelcome(s, t, rids[..i + 1], cols[k], given) <==>
                ColumnWelcome(s, t, rids[..i], cols[k], given) && Enterable(mid, t, rids[i], cols[k], given)
    {
      ColumnNext(s, mid, t, rids[..i], rids[i], cols, cols[k], given);
    }
    WelcomeFrom(s, mid, t, rids, i, cols, given);
    if UpdateWelcome(s, t, rids, cols, given) { WelcomePrefix(s, t, rids, i + 1, cols, given); }
  }

  lemma AllRewrittenNow(s: Store, mid: Store, t: string, rids: seq<Rid>, i: nat, cols: seq<nat>, given: Row)
    requires NoneTwice(rids) && i < |rids| && AllRewritten(s, mid, t, rids[..i], cols, given)
    requires RidsIn(s.tables[t], rids)
    ensures t in mid.schema && t in mid.tables && rids[i] in mid.tables[t] && mid.schema == s.schema
    ensures t in s.tables && rids[i] in s.tables[t] && rids[i] !in rids[..i] && rids[..i + 1] == rids[..i] + [rids[i]]
    ensures RidsIn(s.tables[t], rids[..i]) && RidsIn(s.tables[t], rids[..i + 1])
    ensures FitsRow(s.schema[t], given) && ColumnsIn(s.schema[t], cols)
    ensures forall k :: 0 <= k < |cols| ==> cols[k] < |s.schema[t]|
  {
    hide UpdatedRow, SameRows, FitsRow;
  }

  lemma WelcomeFrom(s: Store, mid: Store, t: string, rids: seq<Rid>, i: nat, cols: seq<nat>, given: Row)
    requires t in s.schema && t in s.tables && FitsRow(s.schema[t], given) && i < |rids|
    requires RidsIn(s.tables[t], rids[..i]) && RidsIn(s.tables[t], rids[..i + 1])
    requires ColumnsIn(s.schema[t], cols)
    requires t in mid.tables && rids[i] in mid.tables[t] && mid.schema == s.schema
    requires forall k :: 0 <= k < |cols| ==>
               (ColumnWelcome(s, t, rids[..i + 1], cols[k], given) <==>
                   ColumnWelcome(s, t, rids[..i], cols[k], given) && Enterable(mid, t, rids[i], cols[k], given))
    ensures UpdateWelcome(s, t, rids[..i + 1], cols, given) <==>
              UpdateWelcome(s, t, rids[..i], cols, given) && AllEnterable(mid, t, rids[i], cols, given)
  {
    hide ColumnWelcome, Enterable, FitsRow;
  }

  lemma ColumnNext(s: Store, mid: Store, t: string, L: seq<Rid>, rid: Rid, cols: seq<nat>, c: nat, given: Row)
    requires StoreOk(s) && AllRewritten(s, mid, t, L, cols, given) && rid in s.tables[t] && rid !in L && c in cols
    requires t in s.schema && c < |s.schema[t]| && FitsRow(s.schema[t], given) && RidsIn(s.tables[t], L)
    ensures t in mid.schema && t in mid.tables && rid in mid.tables[t] && mid.schema == s.schema
    ensures RidsIn(s.tables[t], L + [rid])
    ensures ColumnWelcome(s, t, L + [rid], c, given) <==>
              ColumnWelcome(s, t, L, c, given) && Enterable(mid, t, rid, c, given)
  {
    hide *;
    EnterableAmong(s, mid, t, L, cols, rid, c, given);
    AllRewrittenHere(s, mid, t, L, cols, rid, c, given);
    ColumnMore(s, t, L, rid, c, given);
  }

  lemma ColumnMore(s: Store, t: string, L: seq<Rid>, rid: Rid, c: nat, given: Row)
    requires t in s.schema && t in s.tables && c < |s.schema[t]| && FitsRow(s.schema[t], given)
    requires RidsIn(s.tables[t], L) && rid in s.tables[t]
    ensures RidsIn(s.tables[t], L + [rid])
    ensures ColumnWelcome(s, t, L + [rid], c, given) <==>
              && ColumnWelcome(s, t, L, c, given) && Enterable(s, t, rid, c, given)
              && (s.schema[t][c].unique && !IsNull(s.schema[t], given, c) && Changes(s.tables[t], rid, c, given) ==>
                    forall r :: r in L ==> !Changes(s.tables[t], r, c, given))
  {
    OneMore(s.tables[t], L, rid, c, given);
    hide Enterable, OneChanges, Changes, IsNull, FitsRow;
    var more := L + [rid];
    assert RidsIn(s.tables[t], more);
    assert (forall j :: 0 <= j < |more| ==> Enterable(s, t, more[j], c, given)) <==>
           (forall j :: 0 <= j < |L| ==> Enterable(s, t, L[j], c, given)) && Enterable(s, t, rid, c, given) by {
      assert forall j :: 0 <= j < |L| ==> more[j] == L[j];
      assert more[|L|] == rid;
    }
  }

  lemma OneMore(rows: RowMap, L: seq<Rid>, rid: Rid, c: nat, given: Row)
    ensures OneChanges(rows, L + [rid], c, given) <==>
              OneChanges(rows, L, c, given) &&
              (Changes(rows, rid, c, given) ==> forall r :: r in L ==> !Changes(rows, r, c, given))
  {
    hide Changes;
    var more := L + [rid];
    assert forall j :: 0 <= j < |L| ==> more[j] == L[j];
    assert more[|L|] == rid;
    if OneChanges(rows, more, c, given) && Changes(rows, rid, c, given) {
      forall r | r in L ensures !Changes(rows, r, c, given) {
        var j :| 0 <= j < |L| && L[j] == r;
        assert more[j] == r;
      }
    }
  }

  lemma WelcomePrefix(s: Store, t: string, rids: seq<Rid>, i: nat, cols: seq<nat>, given: Row)
    requires t in s.schema && t in s.tables && FitsRow(s.schema[t], given) && i <= |rids|
    requires RidsIn(s.tables[t], rids) && ColumnsIn(s.schema[t], cols)
    requires UpdateWelcome(s, t, rids, cols, given)
    ensures RidsIn(s.tables[t], rids[..i]) && UpdateWelcome(s, t, rids[..i], cols, given)
  {
    hide Enterable, Changes, IsNull;
    assert forall j :: 0 <= j < i ==> rids[..i][j] == rids[j];
    forall k | 0 <= k < |cols| ensures ColumnWelcome(s, t, rids[..i], cols[k], given) {
      assert ColumnWelcome(s, t, rids, cols[k], given);
    }
  }

  // ---------------------------------------------------------------- an update that fails

  const UNIQUE_FIELD := Field(4, false, true, false, None, true)

  /** A table with one unique column and the values 1 and 2. */
  ghost function TwoRecords(): Store {
    Store(map["t" := [UNIQUE_FIELD]],
          map["t" := map[Rid(1, 0) := Row([false], [1], 0), Rid(1, 1) := Row([false], [2], 0)]],
          map[IndexName("t", 0) := map[1 := BPlusTree.Slot(1, 0), 2 := BPlusTree.Slot(1, 1)]],
          map["t" := 0])
  }

  lemma TwoRecordsAgree()
    ensures var s := TwoRecords();
            RowsOk(s.schema["t"], s.tables["t"]) &&
            Agrees(s.indexes[IndexName("t", 0)], s.schema["t"], s.tables["t"], 0)
  {
    assert TwoRecords().tables["t"].Keys == {Rid(1, 0), Rid(1, 1)};
  }

  lemma TwoRecordsOk()
    ensures StoreOk(TwoRecords())
  {
    TwoRecordsAgree();
    TwoRecordsSchema();
    hide Agrees, RowsOk, SchemaOk, ForeignRefsOk;
    var s := TwoRecords();
    assert IndexesOk(s) && CountsOk(s.schema, s.tables) && NoDangling(s.schema, s.tables, "", None);
  }

  lemma TwoRecordsSchema()
    ensures var s := TwoRecords(); SchemaOk(s.schema) && ForeignRefsOk(s)
  {
    assert ForeignColumns(TwoRecords().schema, "t") == {};
  }

  lemma EitherChanges(rid: Rid)
    requires rid in {Rid(1, 0), Rid(1, 1)}
    ensures var s, given := TwoRecords(), Row([false], [3], 0);
            && rid in s.tables["t"] && FitsRow(s.schema["t"], given) && Changes(s.tables["t"], rid, 0, given)
            && !IsNull(s.schema["t"], given, 0) && s.schema["t"][0].unique && Enterable(s, "t", rid, 0, given)
  {
  }

  lemma OneWelcome(rid: Rid)
    requires rid in {Rid(1, 0), Rid(1, 1)}
    ensures var s, given := TwoRecords(), Row([false], [3], 0);
            FitsRow(s.schema["t"], given) && RidsIn(s.tables["t"], [rid]) && UpdateWelcome(s, "t", [rid], [0], given)
  {
    EitherChanges(rid);
    hide Enterable, Changes, IsNull;
  }

  /** Either of two records can have a unique column set to 3, but not both: the update stops at the second. */
  lemma SecondUpdateFails()
    ensures var s, given := TwoRecords(), Row([false], [3], 0);
            && StoreOk(s) && FitsRow(s.schema["t"], given) && RidsIn(s.tables["t"], [Rid(1, 0), Rid(1, 1)])
            && UpdateWelcome(s, "t", [Rid(1, 0)], [0], given) && UpdateWelcome(s, "t", [Rid(1, 1)], [0], given)
            && !UpdateWelcome(s, "t", [Rid(1, 0), Rid(1, 1)], [0], given)
  {
    TwoRecordsOk();
    EitherChanges(Rid(1, 0));
    EitherChanges(Rid(1, 1));
    OneWelcome(Rid(1, 0));
    OneWelcome(Rid(1, 1));
    hide StoreOk, Enterable, Changes, IsNull, FitsRow;
    var s, given, rids := TwoRecords(), Row([false], [3], 0), [Rid(1, 0), Rid(1, 1)];
    assert rids[0] == Rid(1, 0) && rids[1] == Rid(1, 1) && [0][0] == 0;
    assert !ColumnWelcome(s, "t", rids, [0][0], given);
  }
}
