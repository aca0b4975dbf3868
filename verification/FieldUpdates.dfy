/** What an update of one field does to a record and to the database around it (src/query/query_engine.cpp:340-384). */
module FieldUpdates {
  import opened Wrappers
  import opened Rows
  import opened TableFiles
  import opened Gather
  import opened JoinSpec
  import opened IntegritySpec
  import opened Attach

  ghost predicate FreshIn(base: Store, x: Record, c: nat)
    requires RecordOk(base.schema, x)
  {
    c < |base.schema[x.table]| && IndexName(x.table, c) in base.indexes &&
    EntryKey(base.schema, x, c) !in base.indexes[IndexName(x.table, c)]
  }

  ghost predicate TargetedIn(base: Store, x: Record, c: nat)
    requires RecordOk(base.schema, x)
  {
    c < |base.schema[x.table]| && base.schema[x.table][c].foreign.Some? && Targeted(base.schema, base.tables, x, c)
  }

  lemma FreshInIs(base: Store, x: Record, c: nat)
    requires RecordOk(base.schema, x) && c < |base.schema[x.table]|
    ensures IndexName(x.table, c) in base.indexes ==>
              (FreshIn(base, x, c) <==> EntryKey(base.schema, x, c) !in base.indexes[IndexName(x.table, c)])
    ensures base.schema[x.table][c].foreign.Some? ==>
              (TargetedIn(base, x, c) <==> Targeted(base.schema, base.tables, x, c))
  {
  }

  lemma ColumnIs(schema: Schema, x: Record, c: nat)
    requires RecordOk(schema, x) && c < |schema[x.table]|
    ensures |x.row.nulls| == |x.row.values| == |schema[x.table]|
    ensures c in Indexed(schema, x) <==> schema[x.table][c].indexed && !(schema[x.table][c].nullable && x.row.nulls[c])
    ensures c in Using(schema, x) <==>
              schema[x.table][c].foreign.Some? && !(schema[x.table][c].nullable && x.row.nulls[c])
    ensures c in Using(schema, x) <==> Foreign(schema[x.table], x.row, c)
  {
  }

  /** The field of y in column c can be entered: its key is fresh if it is indexed, its target exists if it is a foreign
      key. */
  ghost predicate FieldWelcome(base: Store, y: Record, c: nat)
    requires RecordOk(base.schema, y)
  {
    (c in Indexed(base.schema, y) ==> FreshIn(base, y, c)) && (c in Using(base.schema, y) ==> TargetedIn(base, y, c))
  }

  lemma FieldWelcomeIs(base: Store, y: Record, c: nat)
    requires RecordOk(base.schema, y)
    ensures FieldWelcome(base, y, c) <==>
              (c in Indexed(base.schema, y) ==> FreshIn(base, y, c)) &&
              (c in Using(base.schema, y) ==> TargetedIn(base, y, c))
  {
  }

  /** The first column of y whose field cannot be entered. */
  ghost predicate FirstRejected(base: Store, y: Record, i: nat)
    requires RecordOk(base.schema, y)
  {
    i < |base.schema[y.table]| && !FieldWelcome(base, y, i) && forall j: nat :: j < i ==> FieldWelcome(base, y, j)
  }

  /** y is x with another field in column c. */
  ghost predicate ColumnChanged(schema: Schema, x: Record, y: Record, c: nat)
    requires RecordOk(schema, x) && RecordOk(schema, y)
  {
    && x.table == y.table && x.rid == y.rid && x.row.refs == y.row.refs
    && forall d :: 0 <= d < |schema[x.table]| && d != c ==>
         x.row.values[d] == y.row.values[d] &&
         (IsNull(schema[x.table], x.row, d) <==> IsNull(schema[x.table], y.row, d))
  }

  lemma SetsChanged(schema: Schema, x: Record, y: Record, c: nat)
    requires RecordOk(schema, x) && RecordOk(schema, y) && ColumnChanged(schema, x, y, c)
    ensures x.table == y.table && x.rid == y.rid
    ensures Indexed(schema, x) - {c} == Indexed(schema, y) - {c} && Using(schema, x) - {c} == Using(schema, y) - {c}
    ensures c !in Indexed(schema, x) ==> Indexed(schema, x) - {c} == Indexed(schema, x)
    ensures c !in Using(schema, x) ==> Using(schema, x) - {c} == Using(schema, x)
    ensures Indexed(schema, y) == if c in Indexed(schema, y) then Indexed(schema, x) - {c} + {c}
        else Indexed(schema, x) - {c}
    ensures Using(schema, y) == if c in Using(schema, y) then Using(schema, x) - {c} + {c} else Using(schema, x) - {c}
  {
    var d := schema[x.table];
    forall e: nat | e < |d| && e != c
      ensures e in Indexed(schema, x) <==> e in Indexed(schema, y)
      ensures e in Using(schema, x) <==> e in Using(schema, y)
    {
    }
  }

  /** The record after an update of column c. */
  function UpdatedCell(desc: Descriptor, row: Row, c: nat, given: Row): Row
    requires c < |desc| && FitsRow(desc, row) && FitsRow(desc, given)
  {
    if row.values[c] == given.values[c] then row
    else Row(if desc[c].nullable then row.nulls[c := given.nulls[c]]
        else row.nulls, row.values[c := given.values[c]], row.refs)
  }

  lemma RecordFits(schema: Schema, x: Record)
    requires RecordOk(schema, x)
    ensures x.table in schema && FitsRow(schema[x.table], x.row) && |x.row.values| == |schema[x.table]|
  {
  }

  lemma UpdatedFits(schema: Schema, x: Record, y: Record, c: nat, given: Row)
    requires RecordOk(schema, x) && c < |schema[x.table]| && FitsRow(schema[x.table], given)
    requires x.row.values[c] != given.values[c]
    requires y == Record(x.table, x.rid, UpdatedCell(schema[x.table], x.row, c, given))
    ensures RecordOk(schema, y) && ColumnChanged(schema, x, y, c)
    ensures y.row == Row(y.row.nulls, x.row.values[c := given.values[c]], x.row.refs)
  {
  }

  lemma SameKey(schema: Schema, x: Record, y: Record, c: nat)
    requires RecordOk(schema, x) && RecordOk(schema, y) && SchemaOk(schema) && ColumnChanged(schema, x, y, c)
    requires c < |schema[x.table]|
    requires !schema[x.table][c].primary
    ensures KeyFor(schema, x) == KeyFor(schema, y)
  {
    if k :| 0 <= k < |schema[x.table]| && schema[x.table][k].primary {
      OwnKey(schema, x, k);
      OwnKey(schema, y, k);
    }
  }

  lemma UpdatedWelcome(base: Store, x: Record, y: Record, c: nat)
    requires RecordOk(base.schema, x) && RecordOk(base.schema, y) && ColumnChanged(base.schema, x, y, c)
    requires c < |base.schema[x.table]|
    requires !base.schema[x.table][c].primary && SchemaOk(base.schema)
    requires OkBut(base, x.table, KeyFor(base.schema, x)) && Welcome(base, x)
    requires FieldWelcome(base, y, c)
    ensures OkBut(base, y.table, KeyFor(base.schema, y)) && Welcome(base, y)
  {
    assert forall k :: 0 <= k < |base.schema[x.table]| && base.schema[x.table][k].primary ==>
        x.row.values[k] == y.row.values[k];
    assert KeyFor(base.schema, x) == KeyFor(base.schema, y) by { SameKey(base.schema, x, y, c); }
    hide OkBut, KeyFor;
    forall e | e in Using(base.schema, y) ensures Targeted(base.schema, base.tables, y, e) {
      if e != c {
        assert e in Using(base.schema, x) && Targeted(base.schema, base.tables, x, e);
      }
    }
  }

  /** The store `s` with column c of one record updated; reference counts elsewhere follow from the invariant. */
  ghost predicate Replaced(s: Store, s': Store, t: string, rid: Rid, c: nat, given: Row) {
    && s'.schema == s.schema && s'.foreignRefs == s.foreignRefs && s'.tables.Keys == s.tables.Keys
    && t in s.schema && t in s.tables && rid in s.tables[t] && c < |s.schema[t]|
    && FitsRow(s.schema[t], s.tables[t][rid]) && FitsRow(s.schema[t], given)
    && s'.tables[t] == s.tables[t][rid := UpdatedCell(s.schema[t], s.tables[t][rid], c, given)]
    && forall n :: n in s.tables && n != t ==> SameRows(s.tables[n], s'.tables[n])
  }

  lemma NotReplaced(full: Store, x: Record, c: nat, given: Row)
    requires Lives(full, x) && c < |full.schema[x.table]| && FitsRow(full.schema[x.table], given)
    requires x.row.values[c] == given.values[c]
    ensures Replaced(full, full, x.table, x.rid, c, given)
  {
    assert full.tables[x.table] == full.tables[x.table][x.rid := x.row];
  }

  lemma ReplacedIs(base: Store, full: Store, next: Store, x: Record, y: Record, c: nat, given: Row)
    requires RecordOk(base.schema, x) && RecordOk(base.schema, y) && c < |base.schema[x.table]|
    requires FitsRow(base.schema[x.table], given)
    requires y == Record(x.table, x.rid, UpdatedCell(base.schema[x.table], x.row, c, given))
    requires Attached(base, full, x) && Attached(base, next, y)
    ensures Replaced(full, next, x.table, x.rid, c, given)
  {
    hide EntriesAre;
    CountsKeepRows(base.schema, base.tables, full.tables, x, Some(x.row), Using(base.schema, x));
    CountsKeepRows(base.schema, base.tables, next.tables, y, Some(y.row), Using(base.schema, y));
    assert base.tables[x.table][x.rid := x.row][x.rid := y.row] == base.tables[x.table][x.rid := y.row];
  }

  /** Column c of a record can be updated: its bytes do not change, or the new field can be entered once the record is
      out of the way. */
  ghost predicate Replaceable(s: Store, t: string, rid: Rid, c: nat, given: Row)
    requires t in s.schema && t in s.tables && rid in s.tables[t] && c < |s.schema[t]| && FitsRow(s.schema[t], given)
  {
    var x := Record(t, rid, s.tables[t][rid]);
    && RecordOk(s.schema, x)
    && var y := Record(t, rid, UpdatedCell(s.schema[t], x.row, c, given));
       x.row.values[c] == given.values[c] || (RecordOk(Detached(s, x).schema, y) && FieldWelcome(Detached(s, x), y, c))
  }

  lemma ReplaceableIs(s: Store, x: Record, y: Record, c: nat, given: Row)
    requires Lives(s, x) && c < |s.schema[x.table]| && FitsRow(s.schema[x.table], given)
    requires y == Record(x.table, x.rid, UpdatedCell(s.schema[x.table], x.row, c, given))
    ensures x.row.values[c] == given.values[c] ==> Replaceable(s, x.table, x.rid, c, given)
    ensures x.row.values[c] != given.values[c] && RecordOk(Detached(s, x).schema, y) ==>
              (Replaceable(s, x.table, x.rid, c, given) <==> FieldWelcome(Detached(s, x), y, c))
  {
  }

  ghost function UpdatedRow(desc: Descriptor, row: Row, cols: seq<nat>, given: Row): (r: Row)
    requires FitsRow(desc, row) && FitsRow(desc, given) && forall i :: 0 <= i < |cols| ==> cols[i] < |desc|
    ensures FitsRow(desc, r)
  {
    if cols == [] then row
        else UpdatedCell(desc, UpdatedRow(desc, row, cols[..|cols| - 1], given), cols[|cols| - 1], given)
  }

  /** The store `s` with some columns of one record updated. */
  ghost predicate Rewritten(s: Store, s': Store, t: string, rid: Rid, cols: seq<nat>, given: Row) {
    && s'.schema == s.schema && s'.foreignRefs == s.foreignRefs && s'.tables.Keys == s.tables.Keys
    && t in s.schema && t in s.tables && rid in s.tables[t] && (forall i :: 0 <= i < |cols| ==> cols[i] < |s.schema[t]|)
    && FitsRow(s.schema[t], s.tables[t][rid]) && FitsRow(s.schema[t], given)
    && s'.tables[t] == s.tables[t][rid := UpdatedRow(s.schema[t], s.tables[t][rid], cols, given)]
    && forall n :: n in s.tables && n != t ==> SameRows(s.tables[n], s'.tables[n])
  }

  lemma RewrittenNone(s: Store, t: string, rid: Rid, given: Row)
    requires StoreOk(s) && t in s.schema && t in s.tables && rid in s.tables[t] && FitsRow(s.schema[t], given)
    ensures Rewritten(s, s, t, rid, [], given)
  {
    assert RowsOk(s.schema[t], s.tables[t]);
    assert s.tables[t] == s.tables[t][rid := s.tables[t][rid]];
  }

  lemma RewrittenThere(s: Store, mid: Store, t: string, rid: Rid, cols: seq<nat>, given: Row)
    requires Rewritten(s, mid, t, rid, cols, given)
    ensures t in mid.schema && t in mid.tables && rid in mid.tables[t] && mid.schema == s.schema
  {
  }

  lemma UpdatedRowNext(desc: Descriptor, row: Row, cols: seq<nat>, i: nat, given: Row)
    requires i < |cols| && FitsRow(desc, row) && FitsRow(desc, given) && cols[i] < |desc|
    requires forall j :: 0 <= j < i ==> cols[..i][j] < |desc|
    ensures var more := cols[..i + 1]; forall j :: 0 <= j < |more| ==> more[j] < |desc|
    ensures UpdatedRow(desc, row, cols[..i + 1], given) ==
        UpdatedCell(desc, UpdatedRow(desc, row, cols[..i], given), cols[i], given)
  {
    var more := cols[..i + 1];
    assert more[..i] == cols[..i] && more[i] == cols[i] && |more| == i + 1;
    forall j | 0 <= j < |more| ensures more[j] < |desc| {
      if j < i { assert cols[..i][j] == more[j]; }
    }
  }

  lemma RewrittenNext(s: Store, mid: Store, s': Store, t: string, rid: Rid, cols: seq<nat>, i: nat, given: Row)
    requires i < |cols| && Rewritten(s, mid, t, rid, cols[..i], given) && Replaced(mid, s', t, rid, cols[i], given)
    ensures Rewritten(s, s', t, rid, cols[..i + 1], given)
  {
    hide UpdatedRow, UpdatedCell, FitsRow;
    UpdatedRowNext(s.schema[t], s.tables[t][rid], cols, i, given);
  }

  /** The store `s` with some columns of some records of a table updated. */
  ghost predicate AllRewritten(s: Store, s': Store, t: string, rids: seq<Rid>, cols: seq<nat>, given: Row) {
    && s'.schema == s.schema && s'.foreignRefs == s.foreignRefs && s'.tables.Keys == s.tables.Keys
    && t in s.schema && t in s.tables && FitsRow(s.schema[t], given)
    && (forall i :: 0 <= i < |cols| ==> cols[i] < |s.schema[t]|)
    && s'.tables[t].Keys == s.tables[t].Keys
    && (forall r :: r in s.tables[t] ==>
          && FitsRow(s.schema[t], s.tables[t][r])
          && s'.tables[t][r] == if r in rids then UpdatedRow(s.schema[t], s.tables[t][r], cols, given)
               else s.tables[t][r])
    && forall n :: n in s.tables && n != t ==> SameRows(s.tables[n], s'.tables[n])
  }

  lemma AllRewrittenNone(s: Store, t: string, cols: seq<nat>, given: Row)
    requires StoreOk(s) && t in s.schema && t in s.tables && FitsRow(s.schema[t], given)
    requires forall i :: 0 <= i < |cols| ==> cols[i] < |s.schema[t]|
    ensures AllRewritten(s, s, t, [], cols, given)
  {
    assert RowsOk(s.schema[t], s.tables[t]);
  }

  lemma AllRewrittenThere(s: Store, mid: Store, t: string, rids: seq<Rid>, cols: seq<nat>, given: Row)
    requires AllRewritten(s, mid, t, rids, cols, given)
    ensures mid.schema == s.schema && t in mid.schema && t in mid.tables && t in s.tables
    ensures mid.tables[t].Keys == s.tables[t].Keys
  {
  }

  lemma AllRewrittenNext(s: Store, mid: Store, s': Store, t: string, rids: seq<Rid>, i: nat, cols: seq<nat>, given: Row)
    requires NoneTwice(rids) && i < |rids| && AllRewritten(s, mid, t, rids[..i], cols, given)
    requires Rewritten(mid, s', t, rids[i], cols, given)
    ensures AllRewritten(s, s', t, rids[..i + 1], cols, given)
  {
    hide UpdatedRow;
    assert rids[..i + 1] == rids[..i] + [rids[i]] && rids[i] !in rids[..i];
    forall n | n in s.tables && n != t ensures SameRows(s.tables[n], s'.tables[n]) {
      assert SameRows(s.tables[n], mid.tables[n]) && SameRows(mid.tables[n], s'.tables[n]);
    }
  }

  // ---------------------------------------------------------------- updates that fail

  /** The database after an update of column c from x to y that fails: the null bit is set already.  After an index
      conflict the old entry is gone; after a missing foreign key the entry has moved and the old use is gone. */
  ghost predicate Interrupted(s: Store, s': Store, x: Record, y: Record, c: nat)
    requires RecordOk(s.schema, x) && RecordOk(s.schema, y)
  {
    var base, own := Detached(s, x), Some(x.row.(nulls := y.row.nulls));
    && s'.schema == s.schema && s'.foreignRefs == s.foreignRefs
    && if c in Indexed(s.schema, y) && !FreshIn(base, y, c) then
         && EntriesAre(s.schema, base.indexes, s'.indexes, y, Indexed(s.schema, y) - {c})
         && CountsAre(s.schema, base.tables, s'.tables, x, own, Using(s.schema, x))
       else
         && EntriesAre(s.schema, base.indexes, s'.indexes, y, Indexed(s.schema, y))
         && CountsAre(s.schema, base.tables, s'.tables, y, own, Using(s.schema, y) - {c})
  }

  // The record as it is left: its old values under the new null bits.
  lemma LeftBehind(schema: Schema, base: Snapshot, cur: Snapshot, x: Record, y: Record, z: Record, c: nat, F: set<nat>)
    requires RecordOk(schema, x) && RecordOk(schema, y) && z == Record(x.table, x.rid, x.row.(nulls := y.row.nulls))
    requires ColumnChanged(schema, x, y, c)
    requires CountsAre(schema, base, cur, x, Some(z.row), F) || CountsAre(schema, base, cur, y, Some(z.row), F)
    ensures RecordOk(schema, z) && With(base, cur, z)
    ensures forall d :: 0 <= d < |schema[x.table]| ==>
              (IsNull(schema[x.table], z.row, d) <==> IsNull(schema[x.table], y.row, d))
  {
    if CountsAre(schema, base, cur, x, Some(z.row), F) {
      CountsKeepRows(schema, base, cur, x, Some(z.row), F);
    } else {
      CountsKeepRows(schema, base, cur, y, Some(z.row), F);
    }
  }

  /** After an index conflict the record has no entry in the column, although it is not null there. */
  lemma ConflictBreaks(base: Store, s': Store, x: Record, y: Record, c: nat, F: set<nat>)
    requires RecordOk(base.schema, x) && RecordOk(base.schema, y) && ColumnChanged(base.schema, x, y, c)
    requires SnapshotOk(base.schema, base.tables) && IndexesOk(base) && s'.schema == base.schema
    requires c in Indexed(base.schema, y)
    requires EntriesAre(base.schema, base.indexes, s'.indexes, y, Indexed(base.schema, y) - {c})
    requires CountsAre(base.schema, base.tables, s'.tables, x, Some(x.row.(nulls := y.row.nulls)), F)
    ensures !(SnapshotOk(s'.schema, s'.tables) && IndexesOk(s'))
  {
    var name, t := IndexName(x.table, c), x.table;
    LeftBehind(base.schema, base.tables, s'.tables, x, y, Record(t, x.rid, x.row.(nulls := y.row.nulls)), c, F);
    assert name in base.indexes && Agrees(base.indexes[name], base.schema[t], base.tables[t], c);
    assert s'.indexes[name] == base.indexes[name];
    EntryIfOk(s', t, c, x.rid);
  }

  // In step with its table, an index has an entry of every record that is not null in its column.
  lemma EntryIfOk(s: Store, t: string, c: nat, r: Rid)
    requires t in s.schema && t in s.tables && c < |s.schema[t]| && s.schema[t][c].indexed && r in s.tables[t]
    requires FitsRow(s.schema[t], s.tables[t][r]) && !IsNull(s.schema[t], s.tables[t][r], c)
    ensures SnapshotOk(s.schema, s.tables) && IndexesOk(s) ==>
              var name := IndexName(t, c);
              name in s.indexes && exists k :: k in s.indexes[name] && RidOf(s.indexes[name][k]) == r
  {
    if SnapshotOk(s.schema, s.tables) && IndexesOk(s) {
      var name := IndexName(t, c);
      assert name in s.indexes && Agrees(s.indexes[name], s.schema[t], s.tables[t], c);
      assert Pointed(s.indexes[name], s.schema[t], s.tables[t], c, r);
    }
  }

  /** After a missing foreign key the record still uses its old value, but is not counted as doing so. */
  lemma MissingBreaks(base: Store, s': Store, x: Record, y: Record, c: nat)
    requires RecordOk(base.schema, x) && RecordOk(base.schema, y) && ColumnChanged(base.schema, x, y, c)
    requires SchemaOk(base.schema) && SnapshotOk(base.schema, base.tables) && CountsOk(base.schema, base.tables)
    requires c in Using(base.schema, y) && s'.schema == base.schema
    requires CountsAre(base.schema, base.tables, s'.tables, y, Some(x.row.(nulls := y.row.nulls)),
        Using(base.schema, y) - {c})
    ensures !(SnapshotOk(s'.schema, s'.tables) && CountsOk(s'.schema, s'.tables) &&
        NoDangling(s'.schema, s'.tables, "", None))
  {
    var schema: Schema, t := base.schema, x.table;
    var z := Record(t, x.rid, x.row.(nulls := y.row.nulls));
    LeftBehind(schema, base.tables, s'.tables, x, y, z, c, Using(schema, y) - {c});
    var fk, v := schema[t][c].foreign.value, x.row.values[c];
    assert ForeignOk(schema, t, c);
    assert Foreign(schema[t], s'.tables[t][x.rid], c);
    if NoDangling(s'.schema, s'.tables, "", None) && SnapshotOk(s'.schema, s'.tables) &&
        CountsOk(s'.schema, s'.tables) {
      var q: Rid :| q in s'.tables[fk.table] && HasValue(s'.tables[fk.table][q], fk.column, v);
      Uncounted(base, s', x, y, z, c, q);
    }
  }

  lemma Uncounted(base: Store, s': Store, x: Record, y: Record, z: Record, c: nat, q: Rid)
    requires RecordOk(base.schema, x) && RecordOk(base.schema, y) && ColumnChanged(base.schema, x, y, c)
    requires SchemaOk(base.schema) && SnapshotOk(base.schema, base.tables) && CountsOk(base.schema, base.tables)
    requires c in Using(base.schema, y) && s'.schema == base.schema && SnapshotOk(s'.schema, s'.tables)
    requires z == Record(x.table, x.rid, x.row.(nulls := y.row.nulls))
    requires CountsAre(base.schema, base.tables, s'.tables, y, Some(z.row), Using(base.schema, y) - {c})
    requires var fk := base.schema[x.table][c].foreign.value;
             fk.table in s'.tables && q in s'.tables[fk.table] &&
             HasValue(s'.tables[fk.table][q], fk.column, x.row.values[c])
    ensures !CountsOk(s'.schema, s'.tables)
  {
    var schema: Schema := base.schema;
    var fk, v := schema[x.table][c].foreign.value, x.row.values[c];
    assert ForeignOk(schema, x.table, c);
    LeftBehind(schema, base.tables, s'.tables, x, y, z, c, Using(schema, y) - {c});
    UsesWith(schema, base.tables, s'.tables, z, fk.table, v);
    assert Counted(schema, base.tables, fk.table, fk.column, q);
    var q0 := base.tables[fk.table][q];
    assert s'.tables[fk.table][q] == Raised(schema, fk.table, q0, y, Using(schema, y) - {c});
    PointsButOne(schema, x, y, z, c, q0);
    CountIfOk(s'.schema, s'.tables, fk.table, fk.column, q);
  }

  lemma CountIfOk(schema: Schema, tables: Snapshot, t: string, c: nat, r: Rid)
    requires SnapshotOk(schema, tables) && t in schema && c < |schema[t]| && schema[t][c].primary && r in tables[t]
    ensures |tables[t][r].values| == |schema[t]|
    ensures CountsOk(schema, tables) ==> tables[t][r].refs == |Uses(schema, tables, t, tables[t][r].values[c])|
  {
    if CountsOk(schema, tables) { assert Counted(schema, tables, t, c, r); }
  }

  lemma PointsButOne(schema: Schema, x: Record, y: Record, z: Record, c: nat, q: Row)
    requires SchemaOk(schema) && RecordOk(schema, x) && RecordOk(schema, y) && ColumnChanged(schema, x, y, c)
    requires RecordOk(schema, z) && z == Record(x.table, x.rid, x.row.(nulls := y.row.nulls)) && c in Using(schema, y)
    requires forall d :: 0 <= d < |schema[x.table]| ==>
               (IsNull(schema[x.table], z.row, d) <==> IsNull(schema[x.table], y.row, d))
    requires HasValue(q, schema[x.table][c].foreign.value.column, x.row.values[c])
    ensures var n := schema[x.table][c].foreign.value.table;
            |PointColumns(schema, z, n, x.row.values[c])| == |Hitting(schema, y, Using(schema, y) - {c}, n, q)| + 1
  {
    var n, v := schema[x.table][c].foreign.value.table, x.row.values[c];
    var P, H := PointColumns(schema, z, n, v), Hitting(schema, y, Using(schema, y) - {c}, n, q);
    forall d ensures d in P <==> d in H || d == c {
      if 0 <= d < |schema[x.table]| && schema[x.table][d].foreign.Some? {
        assert ForeignOk(schema, x.table, d) && ForeignOk(schema, x.table, c);
        assert FieldsOk(schema[n]);
      }
    }
    assert P == H + {c} && c !in H;
  }

  /** An update that fails always leaves an inconsistent database. */
  lemma InterruptedBreaks(s: Store, s': Store, x: Record, y: Record, c: nat)
    requires StoreOk(s) && Lives(s, x) && RecordOk(s.schema, x) && RecordOk(s.schema, y)
    requires ColumnChanged(s.schema, x, y, c)
    requires Interrupted(s, s', x, y, c) && RecordOk(Detached(s, x).schema, y) && !FieldWelcome(Detached(s, x), y, c)
    ensures !StoreOk(s')
  {
    var base := Detached(s, x);
    DetachOk(s, x);
    FieldWelcomeIs(base, y, c);
    var conflict := c in Indexed(s.schema, y) && !FreshIn(base, y, c);
    assert base.schema == s.schema;
    Parts(base, x.table, KeyFor(base.schema, x));
    hide OkBut, SchemaOk, SnapshotOk, IndexesOk, CountsOk, NoDangling, EntriesAre, CountsAre, Indexed, Using, FreshIn,
        ColumnChanged, Detached;
    if conflict {
      ConflictBreaks(base, s', x, y, c, Using(s.schema, x));
    } else {
      MissingBreaks(base, s', x, y, c);
    }
    Apart(s');
  }

  lemma Apart(s: Store)
    ensures StoreOk(s) ==>
              SnapshotOk(s.schema, s.tables) && IndexesOk(s) && CountsOk(s.schema, s.tables) &&
              NoDangling(s.schema, s.tables, "", None)
  {
  }

  /** The database `s` after a failed update of one column. */
  ghost predicate UpdateHalted(s: Store, s': Store, t: string, rid: Rid, c: nat, given: Row)
    requires t in s.schema && t in s.tables && rid in s.tables[t] && c < |s.schema[t]| && FitsRow(s.schema[t], given)
  {
    var x := Record(t, rid, s.tables[t][rid]);
    && RecordOk(s.schema, x)
    && var y := Record(t, rid, UpdatedCell(s.schema[t], x.row, c, given));
       RecordOk(s.schema, y) && Interrupted(s, s', x, y, c)
  }

  lemma UpdateHaltedIs(s: Store, s': Store, x: Record, y: Record, c: nat, given: Row)
    requires Lives(s, x) && RecordOk(s.schema, x) && RecordOk(s.schema, y) && c < |s.schema[x.table]|
    requires FitsRow(s.schema[x.table], given)
    requires y == Record(x.table, x.rid, UpdatedCell(s.schema[x.table], x.row, c, given))
    requires Interrupted(s, s', x, y, c)
    ensures UpdateHalted(s, s', x.table, x.rid, c, given)
  {
  }
}
