/** The effect of one record on the indexes and reference counts around it, column by column, and why
    attaching or detaching a record keeps the database consistent. */
module Attach {
  import opened Wrappers
  import opened Rows
  import opened TableFiles
  import opened Gather
  import opened JoinSpec
  import opened IntegritySpec
  import KeyOrder
  import BPlusTree

  /** A record: its table, offset and fields. */
  datatype Record = Record(table: string, rid: Rid, row: Row)

  ghost predicate RecordOk(schema: Schema, x: Record) {
    && x.table in schema && FitsRow(schema[x.table], x.row)
    && KeyOrder.RealOffset(x.rid)
  }

  /** The columns in which a record has an index entry, or uses a foreign key. */
  ghost function Indexed(schema: Schema, x: Record): set<nat>
    requires RecordOk(schema, x)
  {
    set c: nat | c < |schema[x.table]| && schema[x.table][c].indexed && !IsNull(schema[x.table], x.row, c)
  }

  ghost function Using(schema: Schema, x: Record): set<nat>
    requires RecordOk(schema, x)
  {
    set c: nat | c < |schema[x.table]| && Foreign(schema[x.table], x.row, c)
  }

  function EntryKey(schema: Schema, x: Record, c: nat): int
    requires RecordOk(schema, x) && c < |schema[x.table]|
  {
    KeyOf(x.row.values[c], x.rid, schema[x.table][c].unique)
  }

  // ---------------------------------------------------------------- partly attached records

  /** The indexes `cur` are those of `base` with the entries of x in the columns I. */
  ghost predicate EntriesAre(schema: Schema, base: Indexes, cur: Indexes, x: Record, I: set<nat>)
    requires RecordOk(schema, x)
  {
    && cur.Keys == base.Keys
    && forall name :: name in base ==>
         if name.table == x.table && name.column in I
         then name.column < |schema[x.table]| && EntryKey(schema, x, name.column) !in base[name]
              && cur[name] == base[name][EntryKey(schema, x, name.column) := SlotOf(x.rid)]
         else cur[name] == base[name]
  }

  /** Field c of x is a foreign key to record y of table n. */
  ghost predicate Hits(schema: Schema, x: Record, c: nat, n: string, y: Row)
    requires RecordOk(schema, x) && c < |schema[x.table]|
  {
    && Foreign(schema[x.table], x.row, c)
    && var fk := schema[x.table][c].foreign.value;
       fk.table == n && fk.column < |y.values| && y.values[fk.column] == x.row.values[c]
  }

  /** The columns among F in which x is a foreign key to y. */
  ghost function Hitting(schema: Schema, x: Record, F: set<nat>, n: string, y: Row): set<nat>
    requires RecordOk(schema, x)
  {
    set c | c in F && c < |schema[x.table]| && Hits(schema, x, c, n, y)
  }

  /** y with as many more uses as x has among the columns F. */
  ghost function Raised(schema: Schema, n: string, y: Row, x: Record, F: set<nat>): Row
    requires RecordOk(schema, x)
  {
    y.(refs := y.refs + |Hitting(schema, x, F, n, y)|)
  }

  /** The tables `cur` are those of `base` with the uses of x in the columns F counted, and with `own` as the
      record at x's place. */
  ghost predicate CountsAre(schema: Schema, base: Snapshot, cur: Snapshot, x: Record, own: Option<Row>, F: set<nat>)
    requires RecordOk(schema, x)
  {
    && cur.Keys == base.Keys == schema.Keys
    && x.rid !in base[x.table]
    && cur[x.table] == (if own.None? then base[x.table] else base[x.table][x.rid := own.value])
    && forall n :: n in base && n != x.table ==>
         cur[n].Keys == base[n].Keys && forall r :: r in base[n] ==> cur[n][r] == Raised(schema, n, base[n][r], x, F)
  }

  // ---------------------------------------------------------------- steps

  lemma EntryAdded(schema: Schema, base: Indexes, cur: Indexes, x: Record, I: set<nat>, c: nat)
    requires RecordOk(schema, x) && EntriesAre(schema, base, cur, x, I) && c !in I && c < |schema[x.table]|
    requires IndexName(x.table, c) in cur && EntryKey(schema, x, c) !in cur[IndexName(x.table, c)]
    ensures var name := IndexName(x.table, c);
            EntriesAre(schema, base, cur[name := cur[name][EntryKey(schema, x, c) := SlotOf(x.rid)]], x, I + {c})
  {
  }

  lemma EntryRemoved(schema: Schema, base: Indexes, cur: Indexes, x: Record, I: set<nat>, c: nat)
    requires RecordOk(schema, x) && EntriesAre(schema, base, cur, x, I) && c in I && c < |schema[x.table]|
    requires IndexName(x.table, c) in cur
    ensures var name := IndexName(x.table, c);
            && EntryKey(schema, x, c) in cur[name]
            && EntriesAre(schema, base, cur[name := cur[name] - {EntryKey(schema, x, c)}], x, I - {c})
  {
    var name := IndexName(x.table, c);
    var k := EntryKey(schema, x, c);
    assert base[name][k := SlotOf(x.rid)] - {k} == base[name];
  }

  lemma NoEntries(schema: Schema, base: Indexes, x: Record)
    requires RecordOk(schema, x)
    ensures EntriesAre(schema, base, base, x, {})
    ensures forall cur :: EntriesAre(schema, base, cur, x, {}) ==> cur == base
  {
    forall cur | EntriesAre(schema, base, cur, x, {}) ensures cur == base {
      assert forall name :: name in base ==> cur[name] == base[name];
    }
  }

  /** Entries of two records with equal fields in the columns I are the same. */
  lemma EntriesOfBoth(schema: Schema, base: Indexes, cur: Indexes, x: Record, y: Record, I: set<nat>)
    requires RecordOk(schema, x) && RecordOk(schema, y) && EntriesAre(schema, base, cur, x, I)
    requires x.table == y.table && x.rid == y.rid
    requires forall c :: c in I && c < |schema[x.table]| ==> x.row.values[c] == y.row.values[c]
    ensures EntriesAre(schema, base, cur, y, I)
  {
  }

  lemma NoCounts(schema: Schema, base: Snapshot, x: Record)
    requires RecordOk(schema, x) && base.Keys == schema.Keys && x.rid !in base[x.table]
    ensures CountsAre(schema, base, base, x, None, {})
    ensures forall cur :: CountsAre(schema, base, cur, x, None, {}) ==> cur == base
  {
    forall n, y ensures Raised(schema, n, y, x, {}) == y {
      assert Hitting(schema, x, {}, n, y) == {};
    }
    forall cur | CountsAre(schema, base, cur, x, None, {}) ensures cur == base {
      forall n | n in base ensures cur[n] == base[n] {
        if n != x.table {
          assert forall r :: r in base[n] ==> cur[n][r] == base[n][r];
        }
      }
    }
  }

  lemma HitsOnly(schema: Schema, base: Snapshot, x: Record, c: nat)
    requires RecordOk(schema, x) && c < |schema[x.table]| && schema[x.table][c].foreign.Some?
    ensures forall m, q :: m in base && m != schema[x.table][c].foreign.value.table && q in base[m] ==>
              !Hits(schema, x, c, m, base[m][q])
  {
  }

  /** One use more: the only record of its table with the key is hit, no other. */
  lemma CountAdded(schema: Schema, base: Snapshot, cur: Snapshot, x: Record, own: Option<Row>, F: set<nat>, c: nat,
                   r: Rid)
    requires RecordOk(schema, x) && CountsAre(schema, base, cur, x, own, F) && c !in F && c < |schema[x.table]|
    requires schema[x.table][c].foreign.Some? && Foreign(schema[x.table], x.row, c)
    requires var n := schema[x.table][c].foreign.value.table;
             && n in base && n != x.table && r in base[n] && Hits(schema, x, c, n, base[n][r])
             && forall q :: q in base[n] && Hits(schema, x, c, n, base[n][q]) ==> q == r
    ensures var n := schema[x.table][c].foreign.value.table;
            && n in cur && r in cur[n]
            && CountsAre(schema, base, cur[n := cur[n][r := cur[n][r].(refs := cur[n][r].refs + 1)]], x, own, F + {c})
  {
    hide Hitting, Hits, Foreign;
    var n := schema[x.table][c].foreign.value.table;
    var more := cur[n := cur[n][r := cur[n][r].(refs := cur[n][r].refs + 1)]];
    assert forall m, q :: m in base && m != n && q in base[m] ==> !Hits(schema, x, c, m, base[m][q]) by {
      HitsOnly(schema, base, x, c);
    }
    forall m, q | m in base && m != x.table && q in base[m]
      ensures more[m][q] == Raised(schema, m, base[m][q], x, F + {c})
    {
      HittingMore(schema, x, F, c, m, base[m][q]);
    }
  }

  lemma HittingMore(schema: Schema, x: Record, F: set<nat>, c: nat, n: string, y: Row)
    requires RecordOk(schema, x) && c < |schema[x.table]| && c !in F
    ensures |Hitting(schema, x, F + {c}, n, y)| == |Hitting(schema, x, F, n, y)| + if Hits(schema, x, c, n, y) then 1
        else 0
  {
    if Hits(schema, x, c, n, y) {
      assert Hitting(schema, x, F + {c}, n, y) == Hitting(schema, x, F, n, y) + {c};
    } else {
      assert Hitting(schema, x, F + {c}, n, y) == Hitting(schema, x, F, n, y);
    }
  }

  /** One use less. */
  lemma CountDropped(schema: Schema, base: Snapshot, cur: Snapshot, x: Record, own: Option<Row>, F: set<nat>, c: nat,
                     r: Rid)
    requires RecordOk(schema, x) && CountsAre(schema, base, cur, x, own, F) && c in F && c < |schema[x.table]|
    requires schema[x.table][c].foreign.Some? && Foreign(schema[x.table], x.row, c)
    requires var n := schema[x.table][c].foreign.value.table;
             && n in base && n != x.table && r in base[n] && Hits(schema, x, c, n, base[n][r])
             && forall q :: q in base[n] && Hits(schema, x, c, n, base[n][q]) ==> q == r
    ensures var n := schema[x.table][c].foreign.value.table;
            && n in cur && r in cur[n] && cur[n][r].refs > 0
            && CountsAre(schema, base, cur[n := cur[n][r := cur[n][r].(refs := cur[n][r].refs - 1)]], x, own, F - {c})
  {
    hide Hitting, Foreign;
    var n := schema[x.table][c].foreign.value.table;
    HittingMore(schema, x, F - {c}, c, n, base[n][r]);
    assert F - {c} + {c} == F;
    var less := cur[n := cur[n][r := cur[n][r].(refs := cur[n][r].refs - 1)]];
    forall m, q | m in base && m != x.table && q in base[m]
      ensures less[m][q] == Raised(schema, m, base[m][q], x, F - {c})
    {
      HittingMore(schema, x, F - {c}, c, m, base[m][q]);
    }
  }

  /** The record itself comes, changes or goes; no table refers to itself. */
  lemma OwnChanged(schema: Schema, base: Snapshot, cur: Snapshot, x: Record, own: Option<Row>, other: Option<Row>,
                   F: set<nat>)
    requires RecordOk(schema, x) && CountsAre(schema, base, cur, x, own, F)
    ensures x.table in cur
    ensures other.Some? ==> CountsAre(schema, base, cur[x.table := cur[x.table][x.rid := other.value]], x, other, F)
    ensures other.None? ==> CountsAre(schema, base, cur[x.table := cur[x.table] - {x.rid}], x, other, F)
  {
    if other.Some? {
      assert cur[x.table][x.rid := other.value] == base[x.table][x.rid := other.value];
    } else {
      assert cur[x.table] - {x.rid} == base[x.table];
    }
  }

  lemma CountsOfBoth(schema: Schema, base: Snapshot, cur: Snapshot, x: Record, y: Record, own: Option<Row>, F: set<nat>)
    requires RecordOk(schema, x) && RecordOk(schema, y) && CountsAre(schema, base, cur, x, own, F)
    requires x.table == y.table && x.rid == y.rid
    requires forall c :: c in F && c < |schema[x.table]| ==>
               x.row.values[c] == y.row.values[c] &&
               (IsNull(schema[x.table], x.row, c) <==> IsNull(schema[x.table], y.row, c))
    ensures CountsAre(schema, base, cur, y, own, F)
  {
    forall n, z ensures Raised(schema, n, z, x, F) == Raised(schema, n, z, y, F) {
      assert Hitting(schema, x, F, n, z) == Hitting(schema, y, F, n, z);
    }
  }

  lemma CountsKeepRows(schema: Schema, base: Snapshot, cur: Snapshot, x: Record, own: Option<Row>, F: set<nat>)
    requires RecordOk(schema, x) && CountsAre(schema, base, cur, x, own, F)
    ensures forall n :: n in base && n != x.table ==> SameRows(base[n], cur[n])
  {
  }

  // ---------------------------------------------------------------- uses with and without a record

  /** Tables with x's record in them, and without; reference counts aside. */
  ghost predicate With(base: Snapshot, full: Snapshot, x: Record) {
    && full.Keys == base.Keys && x.table in base && x.rid !in base[x.table]
    && full[x.table] == base[x.table][x.rid := x.row]
    && forall n :: n in base && n != x.table ==> SameRows(base[n], full[n])
  }

  ghost function PointColumns(schema: Schema, x: Record, n: string, v: int): set<nat>
    requires RecordOk(schema, x)
  {
    set c: nat | c < |schema[x.table]| && Points(schema[x.table], x.row, c, n, v)
  }

  ghost function OwnUses(x: Record, C: set<nat>): set<Use> {
    set c | c in C :: Use(x.table, x.rid, c)
  }

  lemma {:induction false} OwnUsesCount(x: Record, C: set<nat>)
    ensures |OwnUses(x, C)| == |C|
  {
    if C != {} {
      var c :| c in C;
      OwnUsesCount(x, C - {c});
      assert OwnUses(x, C) == OwnUses(x, C - {c}) + {Use(x.table, x.rid, c)};
    }
  }

  lemma UsesWith(schema: Schema, base: Snapshot, full: Snapshot, x: Record, n: string, v: int)
    requires RecordOk(schema, x) && With(base, full, x)
    ensures |Uses(schema, full, n, v)| == |Uses(schema, base, n, v)| + |PointColumns(schema, x, n, v)|
  {
    var A, B, C := Uses(schema, base, n, v), Uses(schema, full, n, v), OwnUses(x, PointColumns(schema, x, n, v));
    forall u ensures u in B <==> u in A + C {
      UsesAre(schema, base, n, v, u);
      UsesAre(schema, full, n, v, u);
      assert u in C ==> u.table == x.table && u.rid == x.rid;
      if u.table == x.table && u.rid == x.rid && u.column < |schema[x.table]| {
        assert u == Use(x.table, x.rid, u.column);
        assert u in C <==> u.column in PointColumns(schema, x, n, v);
      }
    }
    assert B == A + C;
    forall u | u in A ensures u !in C { UsesAre(schema, base, n, v, u); }
    OwnUsesCount(x, PointColumns(schema, x, n, v));
  }

  /** What hits a record is what points to its key. */
  lemma HittingIsPoints(schema: Schema, x: Record, n: string, y: Row, k: nat)
    requires SchemaOk(schema) && RecordOk(schema, x) && n in schema && k < |schema[n]| && schema[n][k].primary
    requires k < |y.values|
    ensures Hitting(schema, x, Using(schema, x), n, y) == PointColumns(schema, x, n, y.values[k])
  {
    var d := schema[x.table];
    forall c: nat | c < |d|
      ensures c in Hitting(schema, x, Using(schema, x), n, y) <==> c in PointColumns(schema, x, n, y.values[k])
    {
      assert ForeignOk(schema, x.table, c) && FieldsOk(schema[n]);
    }
  }

  lemma NoSelfUse(schema: Schema, x: Record, v: int)
    requires SchemaOk(schema) && RecordOk(schema, x)
    ensures PointColumns(schema, x, x.table, v) == {}
  {
    forall c: nat | c < |schema[x.table]| ensures !Points(schema[x.table], x.row, c, x.table, v) {
      assert ForeignOk(schema, x.table, c);
    }
  }

  // ---------------------------------------------------------------- attaching

  ghost predicate KeyColumn(desc: Descriptor, k: nat) { k < |desc| && desc[k].primary }

  ghost predicate Targeted(schema: Schema, base: Snapshot, x: Record, c: nat)
    requires RecordOk(schema, x) && c < |schema[x.table]| && schema[x.table][c].foreign.Some?
  {
    var fk := schema[x.table][c].foreign.value;
    fk.table in base && HasKey(base[fk.table], fk.column, x.row.values[c])
  }

  /** Every foreign key of x has its record. */
  ghost predicate AllTargeted(schema: Schema, base: Snapshot, x: Record)
    requires RecordOk(schema, x)
  {
    forall c :: c in Using(schema, x) ==> Targeted(schema, base, x, c)
  }

  /** The key of a record with a primary key. */
  ghost function KeyFor(schema: Schema, x: Record): Option<int>
    requires RecordOk(schema, x)
  {
    if k :| 0 <= k < |schema[x.table]| && schema[x.table][k].primary then Some(x.row.values[k]) else None
  }

  /** Store `full` is store `base` with record x attached: its row, all its index entries and all its uses. */
  ghost predicate Attached(base: Store, full: Store, x: Record)
    requires RecordOk(base.schema, x)
  {
    && full.schema == base.schema && full.foreignRefs == base.foreignRefs
    && EntriesAre(base.schema, base.indexes, full.indexes, x, Indexed(base.schema, x))
    && CountsAre(base.schema, base.tables, full.tables, x, Some(x.row), Using(base.schema, x))
  }

  /** What x must bring along: its foreign keys exist, and its count is that of the uses waiting for it. */
  ghost predicate Welcome(base: Store, x: Record)
    requires RecordOk(base.schema, x)
  {
    && AllTargeted(base.schema, base.tables, x)
    && forall k: nat :: KeyColumn(base.schema[x.table], k) ==>
         x.row.refs == |Uses(base.schema, base.tables, x.table, x.row.values[k])|
  }

  lemma AttachedWith(base: Store, full: Store, x: Record)
    requires SnapshotOk(base.schema, base.tables) && RecordOk(base.schema, x) && Attached(base, full, x)
    ensures With(base.tables, full.tables, x) && SnapshotOk(full.schema, full.tables)
  {
    CountsKeepRows(base.schema, base.tables, full.tables, x, Some(x.row), Using(base.schema, x));
    forall n | n in full.tables ensures RowsOk(full.schema[n], full.tables[n]) {
      if n != x.table {
        forall r | r in full.tables[n] ensures FitsRow(full.schema[n], full.tables[n][r]) {
          assert full.tables[n][r].nulls == base.tables[n][r].nulls;
        }
      }
    }
  }

  lemma AttachIndexes(base: Store, full: Store, x: Record)
    requires SnapshotOk(base.schema, base.tables) && IndexesOk(base) && RecordOk(base.schema, x)
    requires Attached(base, full, x)
    ensures SnapshotOk(full.schema, full.tables) && IndexesOk(full)
  {
    AttachedWith(base, full, x);
    forall name | name in full.indexes
      ensures Agrees(full.indexes[name], full.schema[name.table], full.tables[name.table], name.column)
    {
      var d, c := base.schema[name.table], name.column;
      assert Agrees(base.indexes[name], d, base.tables[name.table], c);
      hide Agrees, RowsOk, CountsAre;
      if name.table != x.table {
        AgreesSame(base.indexes[name], d, base.tables[name.table], full.tables[name.table], c);
      } else if IsNull(d, x.row, c) {
        AgreesNull(base.indexes[name], d, base.tables[name.table], c, x.rid, x.row);
      } else {
        AgreesAdd(base.indexes[name], d, base.tables[name.table], c, x.rid, x.row);
      }
    }
  }

  lemma AttachCounts(base: Store, full: Store, x: Record)
    requires SchemaOk(base.schema) && SnapshotOk(base.schema, base.tables) && CountsOk(base.schema, base.tables)
    requires RecordOk(base.schema, x) && Attached(base, full, x) && Welcome(base, x)
    ensures SnapshotOk(full.schema, full.tables) && CountsOk(full.schema, full.tables)
  {
    AttachedWith(base, full, x);
    forall t, k, r | t in full.schema && 0 <= k < |full.schema[t]| && full.schema[t][k].primary && r in full.tables[t]
      ensures Counted(full.schema, full.tables, t, k, r)
    {
      var y := full.tables[t][r];
      UsesWith(base.schema, base.tables, full.tables, x, t, y.values[k]);
      if t == x.table {
        NoSelfUse(base.schema, x, y.values[k]);
        if r != x.rid {
          assert Counted(base.schema, base.tables, t, k, r);
        } else {
          assert KeyColumn(base.schema[t], k);
        }
      } else {
        assert Counted(base.schema, base.tables, t, k, r);
        HittingIsPoints(base.schema, x, t, base.tables[t][r], k);
        assert y == Raised(base.schema, t, base.tables[t][r], x, Using(base.schema, x));
      }
    }
  }

  lemma AttachDangling(base: Store, full: Store, x: Record)
    requires SchemaOk(base.schema) && SnapshotOk(base.schema, base.tables)
    requires RecordOk(base.schema, x) && Attached(base, full, x) && AllTargeted(base.schema, base.tables, x)
    requires NoDangling(base.schema, base.tables, x.table, KeyFor(base.schema, x))
    ensures SnapshotOk(full.schema, full.tables) && NoDangling(full.schema, full.tables, "", None)
  {
    AttachedWith(base, full, x);
    forall t, r, c | t in full.schema && r in full.tables[t] && 0 <= c < |full.schema[t]| &&
        Foreign(full.schema[t], full.tables[t][r], c)
      ensures var fk := full.schema[t][c].foreign.value;
              fk.table in full.tables && HasKey(full.tables[fk.table], fk.column, full.tables[t][r].values[c])
    {
      var fk, v := full.schema[t][c].foreign.value, full.tables[t][r].values[c];
      assert ForeignOk(full.schema, t, c);
      if t == x.table && r == x.rid {
        assert c in Using(base.schema, x) && Targeted(base.schema, base.tables, x, c);
        KeyStays(base.tables, full.tables, x, fk.table, fk.column, v);
      } else {
        assert Foreign(base.schema[t], base.tables[t][r], c);
        if fk.table == x.table && KeyFor(base.schema, x) == Some(v) {
          OwnKey(base.schema, x, fk.column);
          assert x.row.values[fk.column] == v && full.tables[x.table][x.rid] == x.row;
        } else {
          KeyStays(base.tables, full.tables, x, fk.table, fk.column, v);
        }
      }
    }
  }

  lemma OwnKey(schema: Schema, x: Record, k: nat)
    requires SchemaOk(schema) && RecordOk(schema, x) && KeyColumn(schema[x.table], k)
    ensures KeyFor(schema, x) == Some(x.row.values[k])
  {
  }

  lemma KeyStays(base: Snapshot, full: Snapshot, x: Record, n: string, k: nat, v: int)
    requires With(base, full, x) && n in base && HasKey(base[n], k, v)
    ensures HasKey(full[n], k, v)
  {
    var r :| r in base[n] && k < |base[n][r].values| && base[n][r].values[k] == v;
    assert r in full[n] && full[n][r].values == base[n][r].values;
  }

  lemma Parts(s: Store, n: string, but: Option<int>)
    requires OkBut(s, n, but)
    ensures SchemaOk(s.schema) && SnapshotOk(s.schema, s.tables) && IndexesOk(s) && CountsOk(s.schema, s.tables)
    ensures NoDangling(s.schema, s.tables, n, but) && ForeignRefsOk(s)
  {
  }

  lemma Whole(s: Store, n: string, but: Option<int>)
    requires SchemaOk(s.schema) && SnapshotOk(s.schema, s.tables) && IndexesOk(s) && CountsOk(s.schema, s.tables)
    requires NoDangling(s.schema, s.tables, n, but) && ForeignRefsOk(s)
    ensures OkBut(s, n, but)
  {
  }

  /** Attaching a record keeps the database consistent. */
  lemma AttachOk(base: Store, full: Store, x: Record)
    requires RecordOk(base.schema, x) && OkBut(base, x.table, KeyFor(base.schema, x))
    requires Attached(base, full, x) && Welcome(base, x)
    ensures StoreOk(full)
  {
    assert ForeignRefsOk(full);
    assert AllTargeted(base.schema, base.tables, x) && full.schema == base.schema;
    hide *;
    Parts(base, x.table, KeyFor(base.schema, x));
    AttachIndexes(base, full, x);
    AttachCounts(base, full, x);
    AttachDangling(base, full, x);
    Whole(full, "", None);
    OkAnywhere(full, "");
  }

  // ---------------------------------------------------------------- detaching

  ghost function Lowered(schema: Schema, n: string, y: Row, x: Record): Row
    requires RecordOk(schema, x)
  {
    var h := |Hitting(schema, x, Using(schema, x), n, y)|;
    y.(refs := if h <= y.refs then y.refs - h else 0)
  }

  ghost function DetachedRows(schema: Schema, tables: Snapshot, x: Record, n: string): RowMap
    requires RecordOk(schema, x) && n in tables
  {
    if n == x.table then tables[n] - {x.rid} else map r | r in tables[n] :: Lowered(schema, n, tables[n][r], x)
  }

  ghost function DetachedEntries(schema: Schema, indexes: Indexes, x: Record, name: IndexName): map<int, BPlusTree.Slot>
    requires RecordOk(schema, x) && name in indexes
  {
    if name.table == x.table && name.column in Indexed(schema, x)
    then indexes[name] - {EntryKey(schema, x, name.column)}
    else indexes[name]
  }

  /** The store without record x: its row, its index entries and its uses. */
  ghost function Detached(full: Store, x: Record): Store
    requires RecordOk(full.schema, x)
  {
    Store(full.schema,
          map n | n in full.tables :: DetachedRows(full.schema, full.tables, x, n),
          map name | name in full.indexes :: DetachedEntries(full.schema, full.indexes, x, name),
          full.foreignRefs)
  }

  ghost predicate Lives(s: Store, x: Record) {
    RecordOk(s.schema, x) && x.table in s.tables && x.rid in s.tables[x.table] && s.tables[x.table][x.rid] == x.row
  }

  lemma DetachedWith(full: Store, x: Record)
    requires SnapshotOk(full.schema, full.tables) && Lives(full, x)
    ensures With(Detached(full, x).tables, full.tables, x) && SnapshotOk(full.schema, Detached(full, x).tables)
  {
    var base := Detached(full, x);
    assert full.tables[x.table] == (full.tables[x.table] - {x.rid})[x.rid := x.row];
    forall n | n in base.tables ensures RowsOk(full.schema[n], base.tables[n]) {
      assert RowsOk(full.schema[n], full.tables[n]);
    }
  }

  // A record with a key has at least the uses that x makes of it.
  lemma HitsCounted(full: Store, x: Record, n: string, r: Rid)
    requires SchemaOk(full.schema) && SnapshotOk(full.schema, full.tables) && CountsOk(full.schema, full.tables)
    requires Lives(full, x)
    requires n in full.tables && n != x.table && r in full.tables[n]
    ensures |Hitting(full.schema, x, Using(full.schema, x), n, full.tables[n][r])| <= full.tables[n][r].refs
  {
    var y := full.tables[n][r];
    var H := Hitting(full.schema, x, Using(full.schema, x), n, y);
    if H != {} {
      var c :| c in H;
      assert ForeignOk(full.schema, x.table, c);
      var k := full.schema[x.table][c].foreign.value.column;
      HittingIsPoints(full.schema, x, n, y, k);
      DetachedWith(full, x);
      UsesWith(full.schema, Detached(full, x).tables, full.tables, x, n, y.values[k]);
      assert Counted(full.schema, full.tables, n, k, r);
    }
  }

  lemma DetachedEntry(contents: map<int, BPlusTree.Slot>, desc: Descriptor, rows: RowMap, c: nat, rid: Rid)
    requires c < |desc| && RowsOk(desc, rows) && Agrees(contents, desc, rows, c) && rid in rows
    requires !IsNull(desc, rows[rid], c)
    ensures var k := KeyOf(rows[rid].values[c], rid, desc[c].unique);
            contents == (contents - {k})[k := SlotOf(rid)]
  {
    AgreesRemove(contents, desc, rows, c, rid);
  }

  lemma DetachEntries(full: Store, x: Record)
    requires SnapshotOk(full.schema, full.tables) && Lives(full, x) && IndexesOk(full)
    ensures EntriesAre(full.schema, Detached(full, x).indexes, full.indexes, x, Indexed(full.schema, x))
  {
    hide Agrees, SnapshotOk, DetachedRows;
    var base := Detached(full, x);
    forall name | name in base.indexes && name.table == x.table && name.column in Indexed(full.schema, x)
      ensures EntryKey(full.schema, x, name.column) !in base.indexes[name]
      ensures full.indexes[name] == base.indexes[name][EntryKey(full.schema, x, name.column) := SlotOf(x.rid)]
    {
      SnapshotRows(full.schema, full.tables, x.table);
      DetachedEntry(full.indexes[name], full.schema[x.table], full.tables[x.table], name.column, x.rid);
    }
  }

  lemma SnapshotRows(schema: Schema, tables: Snapshot, t: string)
    requires SnapshotOk(schema, tables)
    ensures t in schema <==> t in tables
    ensures t in schema ==> RowsOk(schema[t], tables[t])
  {
  }

  lemma DetachCountsAre(full: Store, x: Record)
    requires SchemaOk(full.schema) && SnapshotOk(full.schema, full.tables) && CountsOk(full.schema, full.tables)
    requires Lives(full, x)
    ensures CountsAre(full.schema, Detached(full, x).tables, full.tables, x, Some(x.row), Using(full.schema, x))
  {
    hide SchemaOk, CountsOk;
    var base := Detached(full, x);
    DetachedWith(full, x);
    forall n, r | n in base.tables && n != x.table && r in base.tables[n]
      ensures full.tables[n][r] == Raised(full.schema, n, base.tables[n][r], x, Using(full.schema, x))
    {
      HitsCounted(full, x, n, r);
      assert Hitting(full.schema, x, Using(full.schema, x), n, base.tables[n][r]) ==
             Hitting(full.schema, x, Using(full.schema, x), n, full.tables[n][r]);
    }
  }

  lemma DetachAttached(full: Store, x: Record)
    requires SchemaOk(full.schema) && SnapshotOk(full.schema, full.tables) && CountsOk(full.schema, full.tables)
    requires Lives(full, x)
    requires IndexesOk(full)
    ensures Attached(Detached(full, x), full, x)
  {
    hide EntriesAre, CountsAre, SchemaOk, SnapshotOk, CountsOk, IndexesOk;
    DetachEntries(full, x);
    DetachCountsAre(full, x);
  }

  lemma DetachIndexes(full: Store, x: Record)
    requires SchemaOk(full.schema) && SnapshotOk(full.schema, full.tables) && Lives(full, x) && IndexesOk(full)
    ensures SnapshotOk(full.schema, Detached(full, x).tables) && IndexesOk(Detached(full, x))
  {
    hide Agrees, SchemaOk;
    var base := Detached(full, x);
    DetachedWith(full, x);
    forall name | name in base.indexes
      ensures Agrees(base.indexes[name], full.schema[name.table], base.tables[name.table], name.column)
    {
      hide SnapshotOk, RowsOk;
      var d, c := full.schema[name.table], name.column;
      SnapshotRows(full.schema, full.tables, name.table);
      if name.table == x.table {
        AgreesRemove(full.indexes[name], d, full.tables[x.table], c, x.rid);
      } else {
        AgreesSame(full.indexes[name], d, full.tables[name.table], base.tables[name.table], c);
      }
    }
  }

  lemma DetachCounts(full: Store, x: Record)
    requires SchemaOk(full.schema) && SnapshotOk(full.schema, full.tables) && CountsOk(full.schema, full.tables)
    requires Lives(full, x)
    ensures SnapshotOk(full.schema, Detached(full, x).tables) && CountsOk(full.schema, Detached(full, x).tables)
    ensures forall k: nat :: KeyColumn(full.schema[x.table], k) ==>
              x.row.refs == |Uses(full.schema, Detached(full, x).tables, x.table, x.row.values[k])|
  {
    var base := Detached(full, x);
    DetachedWith(full, x);
    forall t, k, r | t in full.schema && 0 <= k < |full.schema[t]| && full.schema[t][k].primary && r in base.tables[t]
      ensures Counted(full.schema, base.tables, t, k, r)
    {
      var y := full.tables[t][r];
      UsesWith(full.schema, base.tables, full.tables, x, t, y.values[k]);
      assert Counted(full.schema, full.tables, t, k, r);
      if t == x.table {
        NoSelfUse(full.schema, x, y.values[k]);
      } else {
        HittingIsPoints(full.schema, x, t, y, k);
      }
    }
    forall k: nat | KeyColumn(full.schema[x.table], k)
      ensures x.row.refs == |Uses(full.schema, base.tables, x.table, x.row.values[k])|
    {
      UsesWith(full.schema, base.tables, full.tables, x, x.table, x.row.values[k]);
      NoSelfUse(full.schema, x, x.row.values[k]);
      assert Counted(full.schema, full.tables, x.table, k, x.rid);
    }
  }

  lemma DetachDangling(full: Store, x: Record)
    requires SchemaOk(full.schema) && SnapshotOk(full.schema, full.tables)
    requires NoDangling(full.schema, full.tables, "", None) && Lives(full, x)
    ensures SnapshotOk(full.schema, Detached(full, x).tables)
    ensures NoDangling(full.schema, Detached(full, x).tables, x.table, KeyFor(full.schema, x))
    ensures AllTargeted(full.schema, Detached(full, x).tables, x)
  {
    var base := Detached(full, x);
    DetachedWith(full, x);
    forall t, r, c | t in full.schema && r in base.tables[t] && 0 <= c < |full.schema[t]| &&
        Foreign(full.schema[t], base.tables[t][r], c)
      ensures var fk := full.schema[t][c].foreign.value;
              || (fk.table == x.table && KeyFor(full.schema, x) == Some(base.tables[t][r].values[c]))
              || (fk.table in base.tables && HasKey(base.tables[fk.table], fk.column, base.tables[t][r].values[c]))
    {
      assert Foreign(full.schema[t], full.tables[t][r], c);
      KeyWithout(full, x, t, c, base.tables[t][r].values[c]);
    }
    forall c | c in Using(full.schema, x) ensures Targeted(full.schema, base.tables, x, c) {
      assert Foreign(full.schema[x.table], full.tables[x.table][x.rid], c);
      assert ForeignOk(full.schema, x.table, c);
      KeyWithout(full, x, x.table, c, x.row.values[c]);
    }
  }

  lemma KeyWithout(full: Store, x: Record, t: string, c: nat, v: int)
    requires SchemaOk(full.schema) && SnapshotOk(full.schema, full.tables) && Lives(full, x)
    requires t in full.schema && c < |full.schema[t]| && full.schema[t][c].foreign.Some?
    requires var fk := full.schema[t][c].foreign.value;
             fk.table in full.tables && HasKey(full.tables[fk.table], fk.column, v)
    ensures var fk := full.schema[t][c].foreign.value;
            var base := Detached(full, x).tables;
            || (fk.table == x.table && KeyFor(full.schema, x) == Some(v))
            || (fk.table in base && HasKey(base[fk.table], fk.column, v))
  {
    var fk := full.schema[t][c].foreign.value;
    var base: Snapshot := Detached(full, x).tables;
    assert ForeignOk(full.schema, t, c);
    DetachedWith(full, x);
    var r: Rid :| r in full.tables[fk.table] && fk.column < |full.tables[fk.table][r].values| &&
        full.tables[fk.table][r].values[fk.column] == v;
    if fk.table == x.table && r == x.rid {
      OwnKey(full.schema, x, fk.column);
    } else {
      assert r in base[fk.table] && base[fk.table][r].values[fk.column] == v;
    }
  }

  /** Detaching a record keeps the database consistent but for the uses of its own key, and attaching it
      again gives the old store back. */
  lemma DetachOk(full: Store, x: Record)
    requires StoreOk(full) && Lives(full, x)
    ensures var base := Detached(full, x);
            OkBut(base, x.table, KeyFor(base.schema, x)) && Attached(base, full, x) && Welcome(base, x)
  {
    assert ForeignRefsOk(Detached(full, x)) && Detached(full, x).schema == full.schema;
    hide *;
    LivesOk(full, x);
    OkAnywhere(full, "");
    Parts(full, "", None);
    DetachAttached(full, x);
    DetachIndexes(full, x);
    DetachCounts(full, x);
    DetachDangling(full, x);
    Whole(Detached(full, x), x.table, KeyFor(full.schema, x));
    WelcomeIs(Detached(full, x), x);
  }

  lemma LivesOk(s: Store, x: Record)
    requires Lives(s, x)
    ensures RecordOk(s.schema, x) && x.table in s.schema
  {
  }

  lemma WelcomeIs(base: Store, x: Record)
    requires RecordOk(base.schema, x) && AllTargeted(base.schema, base.tables, x)
    requires forall k: nat :: KeyColumn(base.schema[x.table], k) ==>
               x.row.refs == |Uses(base.schema, base.tables, x.table, x.row.values[k])|
    ensures Welcome(base, x)
  {
  }

  // ---------------------------------------------------------------- keys, targets and unused records

  /** No unique index of the table has the key of x already (other indexes have the offset in the key). */
  ghost predicate Fresh(s: Store, x: Record)
    requires RecordOk(s.schema, x)
  {
    forall c :: c in Indexed(s.schema, x) ==>
        IndexName(x.table, c) in s.indexes && EntryKey(s.schema, x, c) !in s.indexes[IndexName(x.table, c)]
  }

  function TargetIndex(schema: Schema, x: Record, c: nat): IndexName
    requires RecordOk(schema, x) && c < |schema[x.table]| && schema[x.table][c].foreign.Some?
  {
    var fk := schema[x.table][c].foreign.value;
    IndexName(fk.table, fk.column)
  }

  /** The record r is what the foreign key in column c of x refers to, and no other is. */
  ghost predicate IsTarget(schema: Schema, base: Snapshot, x: Record, c: nat, r: Rid)
    requires RecordOk(schema, x) && c < |schema[x.table]| && schema[x.table][c].foreign.Some?
  {
    var n := schema[x.table][c].foreign.value.table;
    && n in base && n != x.table && r in base[n] && Hits(schema, x, c, n, base[n][r])
    && forall q :: q in base[n] && Hits(schema, x, c, n, base[n][q]) ==> q == r
  }

  /** Looking the value up in the primary key index finds the target iff there is one. */
  lemma TargetLookup(base: Store, n: string, but: Option<int>, x: Record, c: nat)
    requires OkBut(base, n, but) && RecordOk(base.schema, x) && c < |base.schema[x.table]|
    requires Foreign(base.schema[x.table], x.row, c)
    ensures base.schema[x.table][c].foreign.Some?
    ensures var name := TargetIndex(base.schema, x, c);
            var v := x.row.values[c];
            && name in base.indexes && name.table in base.schema && name.table != x.table
            && name.column < |base.schema[name.table]| && base.schema[name.table][name.column].primary
            && (v in base.indexes[name] <==> Targeted(base.schema, base.tables, x, c))
            && (v in base.indexes[name] ==> IsTarget(base.schema, base.tables, x, c, RidOf(base.indexes[name][v])))
  {
    var name, v := TargetIndex(base.schema, x, c), x.row.values[c];
    assert ForeignOk(base.schema, x.table, c) && FieldsOk(base.schema[name.table]);
    var rows, d := base.tables[name.table], base.schema[name.table];
    assert name in base.indexes && Agrees(base.indexes[name], d, rows, name.column);
    hide OkBut, SchemaOk, IndexesOk, NoDangling, CountsOk;
    forall q | q in rows && name.column < |rows[q].values| && rows[q].values[name.column] == v
      ensures v in base.indexes[name] && RidOf(base.indexes[name][v]) == q
    {
      assert Pointed(base.indexes[name], d, rows, name.column, q);
    }
  }

  /** A record whose key is not used can go. */
  lemma Unused(base: Store, x: Record)
    requires RecordOk(base.schema, x) && OkBut(base, x.table, KeyFor(base.schema, x))
    requires forall k: nat :: KeyColumn(base.schema[x.table], k) ==>
               Uses(base.schema, base.tables, x.table, x.row.values[k]) == {}
    ensures StoreOk(base)
  {
    forall t, r, c | t in base.schema && r in base.tables[t] && 0 <= c < |base.schema[t]| &&
        Foreign(base.schema[t], base.tables[t][r], c)
      ensures var fk := base.schema[t][c].foreign.value;
              fk.table in base.tables && HasKey(base.tables[fk.table], fk.column, base.tables[t][r].values[c])
    {
      var fk, v := base.schema[t][c].foreign.value, base.tables[t][r].values[c];
      assert ForeignOk(base.schema, t, c);
      if fk.table == x.table && KeyFor(base.schema, x) == Some(v) {
        OwnKey(base.schema, x, fk.column);
        UsesAre(base.schema, base.tables, x.table, v, Use(t, r, c));
        assert KeyColumn(base.schema[x.table], fk.column);
      }
    }
  }

  /** Nothing waits for a record with a fresh key. */
  lemma FreshUnused(base: Store, x: Record, k: nat)
    requires StoreOk(base) && RecordOk(base.schema, x) && Fresh(base, x) && KeyColumn(base.schema[x.table], k)
    ensures Uses(base.schema, base.tables, x.table, x.row.values[k]) == {}
  {
    var v := x.row.values[k];
    assert FieldsOk(base.schema[x.table]);
    forall u | u in Uses(base.schema, base.tables, x.table, v) ensures false {
      UsesAre(base.schema, base.tables, x.table, v, u);
      assert Foreign(base.schema[u.table], base.tables[u.table][u.rid], u.column);
      assert ForeignOk(base.schema, u.table, u.column);
      KeyTaken(base, x, k, v);
    }
  }

  lemma KeyTaken(base: Store, x: Record, k: nat, v: int)
    requires StoreOk(base) && RecordOk(base.schema, x) && KeyColumn(base.schema[x.table], k) && v == x.row.values[k]
    requires HasKey(base.tables[x.table], k, v)
    ensures !Fresh(base, x)
  {
    var name := IndexName(x.table, k);
    var r :| r in base.tables[x.table] && k < |base.tables[x.table][r].values| &&
        base.tables[x.table][r].values[k] == v;
    assert FieldsOk(base.schema[x.table]);
    assert name in base.indexes && Agrees(base.indexes[name], base.schema[x.table], base.tables[x.table], k);
    hide StoreOk, FieldsOk, RowsOk;
    assert Pointed(base.indexes[name], base.schema[x.table], base.tables[x.table], k, r);
    assert k in Indexed(base.schema, x) && EntryKey(base.schema, x, k) == v;
  }

  predicate HasValue(row: Row, c: nat, v: int) { c < |row.values| && row.values[c] == v }

  /** In a consistent database every live foreign key has exactly one record that it refers to, and that record is
      counted as used, so that it cannot be deleted. */
  lemma UseHasTarget(s: Store, t: string, r: Rid, c: nat) returns (q: Rid)
    requires StoreOk(s) && t in s.schema && t in s.tables && r in s.tables[t] && c < |s.schema[t]|
    requires Foreign(s.schema[t], s.tables[t][r], c)
    ensures var fk := s.schema[t][c].foreign.value;
            && fk.table in s.tables && q in s.tables[fk.table] && FitsRow(s.schema[fk.table], s.tables[fk.table][q])
            && s.tables[fk.table][q].values[fk.column] == s.tables[t][r].values[c]
            && s.tables[fk.table][q].refs > 0
            && forall p ::
                 p in s.tables[fk.table] && HasValue(s.tables[fk.table][p], fk.column, s.tables[t][r].values[c]) ==>
                   p == q
  {
    var x := Record(t, r, s.tables[t][r]);
    SnapshotRows(s.schema, s.tables, t);
    TargetLookup(s, "", None, x, c);
    var fk, v := s.schema[t][c].foreign.value, x.row.values[c];
    assert Targeted(s.schema, s.tables, x, c);
    q := RidOf(s.indexes[TargetIndex(s.schema, x, c)][v]);
    SnapshotRows(s.schema, s.tables, fk.table);
    assert Counted(s.schema, s.tables, fk.table, fk.column, q);
    UsesAre(s.schema, s.tables, fk.table, v, Use(t, r, c));
    forall p | p in s.tables[fk.table] && HasValue(s.tables[fk.table][p], fk.column, v)
      ensures p == q
    {
      assert Hits(s.schema, x, c, fk.table, s.tables[fk.table][p]);
    }
  }
}
