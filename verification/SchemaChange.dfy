/** What creating and dropping tables and indexes does to a consistent database
    (src/system/system_manager.cpp). */
module SchemaChange {
  import opened Wrappers
  import opened Rows
  import opened TableFiles
  import opened Gather
  import opened JoinSpec
  import opened IntegritySpec
  import opened Attach
  import KeyOrder
  import BPlusTree

  /** The first n columns of a descriptor that refer to table m. */
  ghost function Referring(desc: Descriptor, n: nat, m: string): set<nat> {
    set c: nat | c < n && c < |desc| && desc[c].foreign.Some? && desc[c].foreign.value.table == m
  }

  lemma ReferringNext(desc: Descriptor, n: nat, m: string)
    requires n < |desc|
    ensures |Referring(desc, n + 1, m)| ==
        |Referring(desc, n, m)| + if desc[n].foreign.Some? && desc[n].foreign.value.table == m then 1 else 0
  {
    var A, B := Referring(desc, n, m), Referring(desc, n + 1, m);
    forall c ensures c in B <==> c in A || (c == n && desc[n].foreign.Some? && desc[n].foreign.value.table == m) {
    }
    if desc[n].foreign.Some? && desc[n].foreign.value.table == m {
      assert B == A + {n} && n !in A;
    } else {
      assert B == A;
    }
  }

  ghost function Named(t: string, C: set<nat>): set<(string, nat)> { set c | c in C :: (t, c) }

  lemma {:induction false} NamedCount(t: string, C: set<nat>)
    ensures |Named(t, C)| == |C|
  {
    if C != {} {
      var c :| c in C;
      NamedCount(t, C - {c});
      assert Named(t, C) == Named(t, C - {c}) + {(t, c)};
    }
  }

  lemma ForeignColumnsAre(schema: Schema, m: string, n: string, c: nat)
    ensures (n, c) in ForeignColumns(schema, m) <==>
              n in schema && c < |schema[n]| && schema[n][c].foreign.Some? && schema[n][c].foreign.value.table == m
  {
  }

  /** One table more has its own referring columns more. */
  lemma ForeignColumnsWith(schema: Schema, t: string, desc: Descriptor, m: string)
    requires t !in schema
    ensures |ForeignColumns(schema[t := desc], m)| == |ForeignColumns(schema, m)| + |Referring(desc, |desc|, m)|
  {
    var A, B := ForeignColumns(schema, m), Named(t, Referring(desc, |desc|, m));
    NamedCount(t, Referring(desc, |desc|, m));
    forall p: (string, nat) ensures p in ForeignColumns(schema[t := desc], m) <==> p in A + B {
      assert p == (p.0, p.1);
      assert p in B <==> p.0 == t && p.1 in Referring(desc, |desc|, m);
    }
    assert ForeignColumns(schema[t := desc], m) == A + B;
    assert A !! B;
  }

  // ---------------------------------------------------------------- an empty table comes or goes

  /** `full` is `s` with the empty table t, its empty indexes and its references to other tables. */
  ghost predicate EmptyTable(s: Store, full: Store, t: string, desc: Descriptor) {
    && t !in s.schema && full.schema == s.schema[t := desc]
    && t !in s.tables && full.tables == s.tables[t := map[]]
    && (forall name :: name in full.indexes <==>
          name in s.indexes || (name.table == t && name.column < |desc| && desc[name.column].indexed))
    && (forall name :: name in s.indexes ==> name.table != t && full.indexes[name] == s.indexes[name])
    && t !in s.foreignRefs && full.foreignRefs.Keys == s.foreignRefs.Keys + {t}
    && forall n :: n in s.foreignRefs ==> full.foreignRefs[n] == s.foreignRefs[n] + |Referring(desc, |desc|, n)|
  }

  lemma UsesEmpty(s: Store, full: Store, t: string, desc: Descriptor, n: string, v: int)
    requires EmptyTable(s, full, t, desc)
    ensures Uses(full.schema, full.tables, n, v) == Uses(s.schema, s.tables, n, v)
  {
    forall u ensures u in Uses(full.schema, full.tables, n, v) <==> u in Uses(s.schema, s.tables, n, v) {
      UsesAre(full.schema, full.tables, n, v, u);
      UsesAre(s.schema, s.tables, n, v, u);
    }
  }

  /** What the declaration of a table must bring along: the parser sees to the first three, the creation of the
      table checks the last. */
  ghost predicate DescriptorOk(schema: Schema, t: string, desc: Descriptor) {
    FieldsOk(desc) && forall c :: 0 <= c < |desc| ==> RefersOk(schema, t, desc[c])
  }

  lemma CreatedSchema(s: Store, t: string, desc: Descriptor)
    requires SchemaOk(s.schema) && t !in s.schema && DescriptorOk(s.schema, t, desc)
    ensures SchemaOk(s.schema[t := desc]) && ForeignColumns(s.schema, t) == {}
    ensures Referring(desc, |desc|, t) == {}
  {
    var schema := s.schema[t := desc];
    forall n, c: nat | n in schema && c < |schema[n]| ensures ForeignOk(schema, n, c) {
      if n != t { assert ForeignOk(s.schema, n, c); } else { assert RefersOk(s.schema, t, desc[c]); }
    }
    forall c: nat | c < |desc| ensures !(desc[c].foreign.Some? && desc[c].foreign.value.table == t) {
      assert RefersOk(s.schema, t, desc[c]);
    }
    forall n, c: nat | n in s.schema && c < |s.schema[n]|
      ensures !(s.schema[n][c].foreign.Some? && s.schema[n][c].foreign.value.table == t)
    {
      assert ForeignOk(s.schema, n, c);
    }
  }

  /** Creating an empty table keeps the database consistent. */
  lemma CreateOk(s: Store, full: Store, t: string, desc: Descriptor)
    requires StoreOk(s) && EmptyTable(s, full, t, desc) && DescriptorOk(s.schema, t, desc)
    requires forall c: nat :: c < |desc| && desc[c].indexed ==> full.indexes[IndexName(t, c)] == map[]
    requires full.foreignRefs[t] == 0
    ensures StoreOk(full)
  {
    CreatedSchema(s, t, desc);
    CreatedIndexes(s, full, t, desc);
    CreatedCounts(s, full, t, desc);
    CreatedDangling(s, full, t, desc);
    hide *;
    CreatedReferences(s, full, t, desc);
    Whole(full, "", None);
    OkAnywhere(full, "");
  }

  lemma CreatedIndexes(s: Store, full: Store, t: string, desc: Descriptor)
    requires SnapshotOk(s.schema, s.tables) && IndexesOk(s) && EmptyTable(s, full, t, desc)
    requires forall c: nat :: c < |desc| && desc[c].indexed ==> full.indexes[IndexName(t, c)] == map[]
    ensures SnapshotOk(full.schema, full.tables) && IndexesOk(full)
  {
    forall name | name in full.indexes
      ensures Agrees(full.indexes[name], full.schema[name.table], full.tables[name.table], name.column)
    {
      if name.table == t { assert full.indexes[IndexName(t, name.column)] == map[]; }
    }
  }

  lemma CreatedCounts(s: Store, full: Store, t: string, desc: Descriptor)
    requires SnapshotOk(s.schema, s.tables) && CountsOk(s.schema, s.tables) && EmptyTable(s, full, t, desc)
    requires SnapshotOk(full.schema, full.tables)
    ensures CountsOk(full.schema, full.tables)
  {
    forall n, k, r | n in full.schema && 0 <= k < |full.schema[n]| && full.schema[n][k].primary && r in full.tables[n]
      ensures Counted(full.schema, full.tables, n, k, r)
    {
      assert Counted(s.schema, s.tables, n, k, r);
      UsesEmpty(s, full, t, desc, n, s.tables[n][r].values[k]);
    }
  }

  lemma CreatedReferences(s: Store, full: Store, t: string, desc: Descriptor)
    requires ForeignRefsOk(s) && EmptyTable(s, full, t, desc) && full.foreignRefs[t] == 0
    requires ForeignColumns(s.schema, t) == {} && Referring(desc, |desc|, t) == {}
    ensures ForeignRefsOk(full)
  {
    hide ForeignColumns, Referring;
    forall n | n in full.schema ensures full.foreignRefs[n] == |ForeignColumns(full.schema, n)| {
      ForeignColumnsWith(s.schema, t, desc, n);
    }
  }

  lemma CreatedDangling(s: Store, full: Store, t: string, desc: Descriptor)
    requires SchemaOk(s.schema) && SnapshotOk(s.schema, s.tables) && NoDangling(s.schema, s.tables, "", None)
    requires EmptyTable(s, full, t, desc) && SchemaOk(full.schema) && SnapshotOk(full.schema, full.tables)
    ensures NoDangling(full.schema, full.tables, "", None)
  {
    forall n, r, c | n in full.schema && r in full.tables[n] && 0 <= c < |full.schema[n]| &&
        Foreign(full.schema[n], full.tables[n][r], c)
      ensures var fk := full.schema[n][c].foreign.value;
              fk.table in full.tables && HasKey(full.tables[fk.table], fk.column, full.tables[n][r].values[c])
    {
      assert Foreign(s.schema[n], s.tables[n][r], c);
    }
  }

  /** Dropping an empty table to which no other refers keeps the database consistent. */
  lemma DropOk(s: Store, full: Store, t: string, desc: Descriptor)
    requires StoreOk(full) && EmptyTable(s, full, t, desc) && ForeignColumns(full.schema, t) == {}
    ensures StoreOk(s)
  {
    hide *;
    OkAnywhere(full, "");
    Parts(full, "", None);
    DroppedSchema(s, full, t, desc);
    DroppedSnapshot(s, full, t, desc);
    DroppedIndexes(s, full, t, desc);
    DroppedCounts(s, full, t, desc);
    DroppedDangling(s, full, t, desc);
    DroppedReferences(s, full, t, desc);
    Whole(s, "", None);
    OkAnywhere(s, "");
  }

  lemma DroppedSnapshot(s: Store, full: Store, t: string, desc: Descriptor)
    requires SnapshotOk(full.schema, full.tables) && EmptyTable(s, full, t, desc)
    ensures SnapshotOk(s.schema, s.tables)
  {
    hide RowsOk, Referring;
    assert s.schema == full.schema - {t} && s.tables == full.tables - {t};
  }

  lemma DroppedIndexes(s: Store, full: Store, t: string, desc: Descriptor)
    requires SnapshotOk(full.schema, full.tables) && IndexesOk(full) && EmptyTable(s, full, t, desc)
    requires SnapshotOk(s.schema, s.tables)
    ensures IndexesOk(s)
  {
    hide Agrees, RowsOk, Referring;
    forall name | name in s.indexes
      ensures Agrees(s.indexes[name], s.schema[name.table], s.tables[name.table], name.column)
    {
      assert name in full.indexes;
    }
  }

  lemma DroppedCounts(s: Store, full: Store, t: string, desc: Descriptor)
    requires SnapshotOk(full.schema, full.tables) && CountsOk(full.schema, full.tables) && EmptyTable(s, full, t, desc)
    requires SnapshotOk(s.schema, s.tables)
    ensures CountsOk(s.schema, s.tables)
  {
    forall n, k, r | n in s.schema && 0 <= k < |s.schema[n]| && s.schema[n][k].primary && r in s.tables[n]
      ensures Counted(s.schema, s.tables, n, k, r)
    {
      assert Counted(full.schema, full.tables, n, k, r);
      UsesEmpty(s, full, t, desc, n, s.tables[n][r].values[k]);
    }
  }

  lemma DroppedReferences(s: Store, full: Store, t: string, desc: Descriptor)
    requires ForeignRefsOk(full) && EmptyTable(s, full, t, desc)
    ensures ForeignRefsOk(s)
  {
    hide ForeignColumns, Referring;
    forall n | n in s.schema ensures s.foreignRefs[n] == |ForeignColumns(s.schema, n)| {
      ForeignColumnsWith(s.schema, t, desc, n);
    }
  }

  lemma DroppedSchema(s: Store, full: Store, t: string, desc: Descriptor)
    requires SchemaOk(full.schema) && EmptyTable(s, full, t, desc) && ForeignColumns(full.schema, t) == {}
    ensures SchemaOk(s.schema)
    ensures forall n, c: nat :: n in s.schema && c < |s.schema[n]| && s.schema[n][c].foreign.Some? ==>
              s.schema[n][c].foreign.value.table in s.schema
  {
    forall n, c: nat | n in s.schema && c < |s.schema[n]|
      ensures ForeignOk(s.schema, n, c)
      ensures s.schema[n][c].foreign.Some? ==> s.schema[n][c].foreign.value.table in s.schema
    {
      assert ForeignOk(full.schema, n, c);
      ForeignColumnsAre(full.schema, t, n, c);
    }
    forall n | n in s.schema ensures FieldsOk(s.schema[n]) {
      assert FieldsOk(full.schema[n]);
    }
  }

  lemma DroppedDangling(s: Store, full: Store, t: string, desc: Descriptor)
    requires SchemaOk(full.schema) && SnapshotOk(full.schema, full.tables)
    requires NoDangling(full.schema, full.tables, "", None)
    requires EmptyTable(s, full, t, desc) && SchemaOk(s.schema) && SnapshotOk(s.schema, s.tables)
    requires ForeignColumns(full.schema, t) == {}
    ensures NoDangling(s.schema, s.tables, "", None)
  {
    DroppedSchema(s, full, t, desc);
    forall n, r, c | n in s.schema && r in s.tables[n] && 0 <= c < |s.schema[n]| &&
        Foreign(s.schema[n], s.tables[n][r], c)
      ensures var fk := s.schema[n][c].foreign.value;
              fk.table in s.tables && HasKey(s.tables[fk.table], fk.column, s.tables[n][r].values[c])
    {
      assert Foreign(full.schema[n], full.tables[n][r], c);
    }
  }

  // ---------------------------------------------------------------- steps of a creation

  /** The counts `cur` are those of `base` with the references in `refs`. */
  ghost predicate ReferencesAre(base: map<string, nat>, cur: map<string, nat>, refs: seq<string>) {
    && cur.Keys == base.Keys && (forall n :: n in refs ==> n in base)
    && forall n :: n in base ==> cur[n] == base[n] + multiset(refs)[n]
  }

  lemma ReferencesNone(base: map<string, nat>, cur: map<string, nat>)
    ensures ReferencesAre(base, cur, []) <==> cur == base
  {
    if ReferencesAre(base, cur, []) {
      assert forall n :: n in base ==> cur[n] == base[n];
    }
  }

  lemma ReferencesThere(base: map<string, nat>, cur: map<string, nat>, refs: seq<string>)
    requires ReferencesAre(base, cur, refs)
    ensures cur.Keys == base.Keys
  {
  }

  lemma ReferencesMore(base: map<string, nat>, cur: map<string, nat>, refs: seq<string>, n: string)
    requires ReferencesAre(base, cur, refs) && n in base
    ensures ReferencesAre(base, cur[n := cur[n] + 1], refs + [n])
  {
  }

  lemma ReferencesLess(base: map<string, nat>, cur: map<string, nat>, refs: seq<string>, i: nat)
    requires i < |refs| && ReferencesAre(base, cur, refs[i..])
    ensures refs[i] in cur && cur[refs[i]] > 0 && ReferencesAre(base, cur[refs[i] := cur[refs[i]] - 1], refs[i + 1..])
  {
    assert refs[i..] == [refs[i]] + refs[i + 1..];
    assert refs[i] in refs[i..];
  }

  /** The indexes `cur` are those of `base` and empty ones on the columns C of the new table t. */
  ghost predicate EmptyIndexes(base: Indexes, cur: Indexes, t: string, C: set<nat>) {
    && (forall name :: name in cur <==> name in base || (name.table == t && name.column in C))
    && (forall name :: name in base ==> name.table != t && cur[name] == base[name])
    && (forall c :: c in C ==> IndexName(t, c) in cur && cur[IndexName(t, c)] == map[])
  }

  lemma EmptyIndexesNone(base: Indexes, cur: Indexes, t: string)
    requires forall name :: name in base ==> name.table != t
    ensures EmptyIndexes(base, cur, t, {}) <==> cur == base
  {
    if EmptyIndexes(base, cur, t, {}) {
      assert forall name :: name in cur <==> name in base;
    }
  }

  lemma EmptyIndexesMore(base: Indexes, cur: Indexes, t: string, C: set<nat>, c: nat)
    requires EmptyIndexes(base, cur, t, C)
    ensures EmptyIndexes(base, cur[IndexName(t, c) := map[]], t, C + {c})
  {
  }

  lemma EmptyIndexesLess(base: Indexes, cur: Indexes, t: string, C: set<nat>, c: nat)
    requires EmptyIndexes(base, cur, t, C)
    ensures EmptyIndexes(base, cur - {IndexName(t, c)}, t, C - {c})
  {
  }

  /** What the parser makes of a table declaration: primary keys are unique and not nullable, there is at most one,
      no foreign key refers to the table itself, and no column is indexed yet. */
  ghost predicate Declared(t: string, desc: Descriptor) {
    && (forall c :: 0 <= c < |desc| ==>
          && (desc[c].primary ==> desc[c].unique && !desc[c].nullable) && !desc[c].indexed
          && (desc[c].foreign.Some? ==> desc[c].foreign.value.table != t))
    && (forall c, d :: 0 <= c < |desc| && 0 <= d < |desc| && desc[c].primary && desc[d].primary ==> c == d)
  }

  /** The declared columns with the unique ones marked as indexed. */
  function Marked(desc: Descriptor): (r: Descriptor)
    ensures |r| == |desc| && forall c :: 0 <= c < |desc| ==> r[c] == desc[c].(indexed := desc[c].unique)
  {
    seq(|desc|, c requires 0 <= c < |desc| => desc[c].(indexed := desc[c].unique))
  }

  ghost function UniqueBelow(desc: Descriptor, n: nat): set<nat> {
    set c: nat | c < n && c < |desc| && desc[c].unique
  }

  lemma UniqueNext(desc: Descriptor, n: nat)
    requires n < |desc|
    ensures n !in UniqueBelow(desc, n)
    ensures UniqueBelow(desc, n + 1) == if desc[n].unique then UniqueBelow(desc, n) + {n} else UniqueBelow(desc, n)
  {
  }

  /** The referenced tables of the first n columns. */
  ghost predicate RefersList(desc: Descriptor, n: nat, refs: seq<string>) {
    forall m :: multiset(refs)[m] == |Referring(desc, n, m)|
  }

  lemma RefersListNone(desc: Descriptor)
    ensures RefersList(desc, 0, []) && UniqueBelow(desc, 0) == {}
  {
    forall m ensures |Referring(desc, 0, m)| == 0 {
      assert Referring(desc, 0, m) == {};
    }
  }

  lemma RefersListNext(desc: Descriptor, n: nat, refs: seq<string>)
    requires n < |desc| && RefersList(desc, n, refs)
    ensures RefersList(desc, n + 1, if desc[n].foreign.Some? then refs + [desc[n].foreign.value.table] else refs)
  {
    var more := if desc[n].foreign.Some? then refs + [desc[n].foreign.value.table] else refs;
    forall m ensures multiset(more)[m] == |Referring(desc, n + 1, m)| {
      ReferringNext(desc, n, m);
    }
  }

  lemma MarkedReferring(desc: Descriptor, m: string)
    ensures Referring(Marked(desc), |desc|, m) == Referring(desc, |desc|, m)
  {
  }

  /** All columns created: the empty table is there, and the database is consistent. */
  lemma Created(s: Store, full: Store, t: string, desc: Descriptor, refs: seq<string>)
    requires StoreOk(s) && t !in s.schema && Declared(t, desc)
    requires forall c :: 0 <= c < |desc| ==> RefersOk(s.schema, t, desc[c])
    requires full.schema == s.schema[t := Marked(desc)] && full.tables == s.tables[t := map[]]
    requires EmptyIndexes(s.indexes, full.indexes, t, UniqueBelow(desc, |desc|))
    requires RefersList(desc, |desc|, refs)
    requires exists cur :: ReferencesAre(s.foreignRefs, cur, refs) && full.foreignRefs == cur[t := 0]
    ensures EmptyTable(s, full, t, Marked(desc)) && StoreOk(full)
  {
    var desc' := Marked(desc);
    CreatedEmpty(s, full, t, desc, refs);
    MarkedOk(s.schema, t, desc);
    MarkedIndexes(s.indexes, full.indexes, t, desc);
    hide EmptyIndexes, Declared, ReferencesAre, RefersOk, IndexesOk, CountsOk, NoDangling, SchemaOk, EmptyTable,
        DescriptorOk, Referring, RefersList;
    CreateOk(s, full, t, desc');
  }

  lemma MarkedOk(schema: Schema, t: string, desc: Descriptor)
    requires Declared(t, desc) && forall c :: 0 <= c < |desc| ==> RefersOk(schema, t, desc[c])
    ensures DescriptorOk(schema, t, Marked(desc))
  {
    forall c | 0 <= c < |desc| ensures RefersOk(schema, t, Marked(desc)[c]) {
      assert RefersOk(schema, t, desc[c]);
    }
  }

  lemma MarkedIndexes(base: Indexes, cur: Indexes, t: string, desc: Descriptor)
    requires EmptyIndexes(base, cur, t, UniqueBelow(desc, |desc|))
    ensures forall c: nat :: c < |desc| && Marked(desc)[c].indexed ==>
              IndexName(t, c) in cur && cur[IndexName(t, c)] == map[]
  {
    assert forall c: nat :: c < |desc| && Marked(desc)[c].indexed ==> c in UniqueBelow(desc, |desc|);
  }

  lemma CreatedEmpty(s: Store, full: Store, t: string, desc: Descriptor, refs: seq<string>)
    requires StoreOk(s) && t !in s.schema
    requires full.schema == s.schema[t := Marked(desc)] && full.tables == s.tables[t := map[]]
    requires EmptyIndexes(s.indexes, full.indexes, t, UniqueBelow(desc, |desc|))
    requires RefersList(desc, |desc|, refs)
    requires exists cur :: ReferencesAre(s.foreignRefs, cur, refs) && full.foreignRefs == cur[t := 0]
    ensures EmptyTable(s, full, t, Marked(desc))
  {
    hide IndexesOk, CountsOk, NoDangling, SchemaOk, RefersList, Referring;
    forall n | n in s.foreignRefs
      ensures full.foreignRefs[n] == s.foreignRefs[n] + |Referring(Marked(desc), |desc|, n)|
    {
      MarkedReferring(desc, n);
      ReferredCount(desc, |desc|, refs, n);
    }
  }

  lemma ReferredCount(desc: Descriptor, n: nat, refs: seq<string>, m: string)
    requires RefersList(desc, n, refs)
    ensures multiset(refs)[m] == |Referring(desc, n, m)|
  {
  }

  // ---------------------------------------------------------------- steps of a drop

  lemma NoUses(schema: Schema, tables: Snapshot, t: string, v: int)
    requires ForeignColumns(schema, t) == {}
    ensures Uses(schema, tables, t, v) == {}
  {
    forall u ensures u !in Uses(schema, tables, t, v) {
      UsesAre(schema, tables, t, v, u);
      ForeignColumnsAre(schema, t, u.table, u.column);
    }
  }

  /** While table t is dropped: `g` is the database with only the records `left` in t, and the tables `cur` are those
      of `g` but for t itself, which is as it was in `full`. */
  ghost predicate Emptying(full: Store, g: Store, cur: Snapshot, t: string, left: set<Rid>) {
    && StoreOk(g) && g.schema == full.schema && g.foreignRefs == full.foreignRefs
    && t in g.schema && t in g.tables && t in full.tables && t in cur && g.tables.Keys == full.tables.Keys
    && cur[t] == full.tables[t] && cur[t := g.tables[t]] == g.tables
    && g.tables[t].Keys == left && left <= full.tables[t].Keys
    && (forall r :: r in left ==> g.tables[t][r] == full.tables[t][r])
    && (forall n :: n in full.tables && n != t ==> SameRows(full.tables[n], g.tables[n]))
    && g.indexes.Keys == full.indexes.Keys && forall name :: name in g.indexes && name.table != t ==>
         g.indexes[name] == full.indexes[name]
  }

  lemma EmptyingFirst(full: Store, t: string)
    requires StoreOk(full) && t in full.schema
    ensures t in full.tables && Emptying(full, full, full.tables, t, full.tables[t].Keys)
  {
    hide SchemaOk, IndexesOk, CountsOk, NoDangling;
    assert full.tables[t := full.tables[t]] == full.tables;
  }

  lemma EmptyingRecord(full: Store, g: Store, cur: Snapshot, t: string, left: set<Rid>, r: Rid)
    requires Emptying(full, g, cur, t, left) && r in left
    ensures t in full.tables && r in full.tables[t]
    ensures var x := Record(t, r, full.tables[t][r]);
            && Lives(g, x) && StoreOk(g) && RecordOk(g.schema, x) && t in g.tables && t in cur
            && cur[t := g.tables[t]] == g.tables
            && forall name :: name in g.indexes && name.table != t ==>
                 name in full.indexes && g.indexes[name] == full.indexes[name]
  {
    SnapshotRows(g.schema, g.tables, t);
  }

  lemma EmptyingNext(full: Store, g: Store, cur: Snapshot, next: Snapshot, t: string, left: set<Rid>, r: Rid)
    requires Emptying(full, g, cur, t, left) && r in left && ForeignColumns(full.schema, t) == {}
    requires t in full.tables && r in full.tables[t] && RecordOk(g.schema, Record(t, r, full.tables[t][r]))
    requires t in next && next[t] == full.tables[t]
    requires t in g.tables
    requires g.schema == full.schema
    requires var x := Record(t, r, full.tables[t][r]);
             CountsAre(g.schema, Detached(g, x).tables, next[t := g.tables[t]], x, Some(x.row), {})
    ensures Emptying(full, Detached(g, Record(t, r, full.tables[t][r])), next, t, left - {r})
  {
    hide *;
    var x := Record(t, r, full.tables[t][r]);
    var base := Detached(g, x);
    EmptyingRecord(full, g, cur, t, left, r);
    NoUsesLeft(g, x);
    DetachedRest(g, x);
    EmptyingTables(g, base, next, x);
    EmptyingLess(full, g, base, cur, next, t, left, r);
  }

  lemma EmptyingLess(full: Store, g: Store, base: Store, cur: Snapshot, next: Snapshot, t: string, left: set<Rid>,
                     r: Rid)
    requires Emptying(full, g, cur, t, left) && r in left && StoreOk(base)
    requires base.schema == g.schema && base.foreignRefs == g.foreignRefs && base.tables.Keys == g.tables.Keys
    requires t in g.tables && t in full.tables && base.tables[t] == g.tables[t] - {r}
    requires forall n :: n in g.tables && n != t ==> SameRows(g.tables[n], base.tables[n])
    requires base.indexes.Keys == g.indexes.Keys
    requires forall name :: name in g.indexes && name.table != t ==> base.indexes[name] == g.indexes[name]
    requires t in next && next[t] == full.tables[t] && next[t := base.tables[t]] == base.tables
    ensures Emptying(full, base, next, t, left - {r})
  {
    hide StoreOk;
    forall n | n in full.tables && n != t ensures SameRows(full.tables[n], base.tables[n]) {
      assert SameRows(full.tables[n], g.tables[n]) && SameRows(g.tables[n], base.tables[n]);
    }
  }

  lemma EmptyingTables(g: Store, base: Store, next: Snapshot, x: Record)
    requires RecordOk(g.schema, x) && x.table in next && x.table in g.tables && x.table in base.tables
    requires CountsAre(g.schema, base.tables, next[x.table := g.tables[x.table]], x, Some(x.row), {})
    ensures next[x.table := base.tables[x.table]] == base.tables
  {
    forall n | n in base.tables ensures next[x.table := base.tables[x.table]][n] == base.tables[n] {
      if n != x.table {
        NoneHit(g.schema, base.tables, next[x.table := g.tables[x.table]], x, n);
      }
    }
  }

  // With no more uses counted, the tables around x are those without x.
  lemma NoneHit(schema: Schema, base: Snapshot, cur: Snapshot, x: Record, n: string)
    requires RecordOk(schema, x) && CountsAre(schema, base, cur, x, Some(x.row), {}) && n in base && n != x.table
    ensures cur[n] == base[n]
  {
    forall r | r in base[n] ensures cur[n][r] == base[n][r] {
      assert Hitting(schema, x, {}, n, base[n][r]) == {};
    }
  }

  lemma DetachedRest(g: Store, x: Record)
    requires RecordOk(g.schema, x)
    ensures var base := Detached(g, x);
            && base.schema == g.schema && base.foreignRefs == g.foreignRefs && base.tables.Keys == g.tables.Keys
            && (x.table in g.tables ==> base.tables[x.table] == g.tables[x.table] - {x.rid})
            && (forall n :: n in g.tables && n != x.table ==> SameRows(g.tables[n], base.tables[n]))
            && base.indexes.Keys == g.indexes.Keys
            && forall name :: name in g.indexes && name.table != x.table ==> base.indexes[name] == g.indexes[name]
  {
  }

  lemma NoUsesLeft(g: Store, x: Record)
    requires StoreOk(g) && Lives(g, x) && ForeignColumns(g.schema, x.table) == {}
    ensures StoreOk(Detached(g, x))
  {
    hide *;
    LivesRecord(g, x);
    DetachOk(g, x);
    DetachedRest(g, x);
    forall k: nat | KeyColumn(g.schema[x.table], k)
      ensures Uses(g.schema, Detached(g, x).tables, x.table, x.row.values[k]) == {}
    {
      NoUses(g.schema, Detached(g, x).tables, x.table, x.row.values[k]);
    }
    Unused(Detached(g, x), x);
  }

  lemma LivesRecord(g: Store, x: Record)
    requires Lives(g, x)
    ensures RecordOk(g.schema, x) && x.table in g.schema && |x.row.values| == |g.schema[x.table]|
    ensures forall k: nat :: KeyColumn(g.schema[x.table], k) ==> k < |g.schema[x.table]|
  {
  }

  /** A table without foreign keys has nothing to drop in other tables. */
  lemma {:induction false} EmptyingAtOnce(full: Store, g: Store, cur: Snapshot, t: string, left: set<Rid>)
    returns (e: Store)
    requires Emptying(full, g, cur, t, left) && ForeignColumns(full.schema, t) == {}
    requires t in full.schema && forall c :: 0 <= c < |full.schema[t]| ==> full.schema[t][c].foreign.None?
    ensures Emptying(full, e, cur, t, {})
    decreases left
  {
    if left == {} {
      return g;
    }
    var r :| r in left;
    var x := Record(t, r, full.tables[t][r]);
    EmptyingRecord(full, g, cur, t, left, r);
    NothingUsed(full, g, x);
    hide Detached, ForeignColumns, StoreOk, Foreign, CountsAre;
    EmptyingNext(full, g, cur, cur, t, left, r);
    e := EmptyingAtOnce(full, Detached(g, x), cur, t, left - {r});
  }

  lemma NothingUsed(full: Store, g: Store, x: Record)
    requires StoreOk(g) && Lives(g, x) && g.schema == full.schema && x.table in g.schema
    requires forall c :: 0 <= c < |g.schema[x.table]| ==> g.schema[x.table][c].foreign.None?
    ensures RecordOk(g.schema, x) && CountsAre(g.schema, Detached(g, x).tables, g.tables, x, Some(x.row), {})
  {
    hide *;
    LivesRecord(g, x);
    DetachedRest(g, x);
    DetachOk(g, x);
    NoForeign(g.schema, x);
    AttachedCounts(Detached(g, x), g, x);
  }

  lemma NoForeign(schema: Schema, x: Record)
    requires RecordOk(schema, x) && forall c :: 0 <= c < |schema[x.table]| ==> schema[x.table][c].foreign.None?
    ensures Using(schema, x) == {}
  {
  }

  lemma AttachedCounts(base: Store, full: Store, x: Record)
    requires RecordOk(base.schema, x) && Attached(base, full, x)
    ensures CountsAre(base.schema, base.tables, full.tables, x, Some(x.row), Using(base.schema, x))
  {
  }

  /** The tables to which the first n columns refer, in order. */
  function ReferredBy(desc: Descriptor, n: nat): (refs: seq<string>)
    requires n <= |desc|
  {
    if n == 0 then []
    else ReferredBy(desc, n - 1) + if desc[n - 1].foreign.Some? then [desc[n - 1].foreign.value.table] else []
  }

  lemma {:induction false} ReferredByList(desc: Descriptor, n: nat)
    requires n <= |desc|
    ensures RefersList(desc, n, ReferredBy(desc, n))
  {
    hide RefersList, Referring;
    if n == 0 {
      RefersListNone(desc);
    } else {
      ReferredByList(desc, n - 1);
      RefersListNext(desc, n - 1, ReferredBy(desc, n - 1));
      assert ReferredBy(desc, n) ==
             if desc[n - 1].foreign.Some? then ReferredBy(desc, n - 1) + [desc[n - 1].foreign.value.table]
                 else ReferredBy(desc, n - 1);
    }
  }

  lemma {:induction false} ReferredByPrefix(desc: Descriptor, i: nat, n: nat)
    requires i <= n <= |desc|
    ensures ReferredBy(desc, i) <= ReferredBy(desc, n)
    decreases n
  {
    if i < n { ReferredByPrefix(desc, i, n - 1); }
  }

  /** The store without table t: its records, its indexes, and its uses of other records. */
  ghost predicate Dropped(full: Store, s: Store, t: string) {
    && s.schema == full.schema - {t} && s.tables.Keys == full.tables.Keys - {t}
    && (forall n :: n in s.tables ==> SameRows(full.tables[n], s.tables[n]))
    && (forall name :: name in s.indexes <==> name in full.indexes && name.table != t)
    && forall name :: name in s.indexes ==> s.indexes[name] == full.indexes[name]
  }

  lemma DropStarts(full: Store, t: string, rest: map<string, nat>)
    requires StoreOk(full) && t in full.schema && rest.Keys == full.foreignRefs.Keys
    requires forall n :: n in rest ==> rest[n] == |ForeignColumns(full.schema - {t}, n)|
    ensures ReferencesAre(rest, full.foreignRefs, ReferredBy(full.schema[t], |full.schema[t]|))
    ensures forall name: IndexName :: name.table == t ==>
              (name in full.indexes <==> name.column < |full.schema[t]| && full.schema[t][name.column].indexed)
  {
    hide *;
    OkAnywhere(full, "");
    Parts(full, "", None);
    forall n | n in rest
      ensures full.foreignRefs[n] == rest[n] + multiset(ReferredBy(full.schema[t], |full.schema[t]|))[n]
    {
      ReferencesSplit(full, t, n);
    }
    forall n | n in ReferredBy(full.schema[t], |full.schema[t]|) ensures n in rest {
      ReferredByKnown(full, t, n);
    }
    ReferencesBuilt(rest, full.foreignRefs, ReferredBy(full.schema[t], |full.schema[t]|));
    IndexNames(full, t);
  }

  lemma ReferencesBuilt(base: map<string, nat>, cur: map<string, nat>, refs: seq<string>)
    requires cur.Keys == base.Keys && (forall n :: n in refs ==> n in base)
    requires forall n :: n in base ==> cur[n] == base[n] + multiset(refs)[n]
    ensures ReferencesAre(base, cur, refs)
  {
  }

  lemma IndexNames(full: Store, t: string)
    requires SnapshotOk(full.schema, full.tables) && IndexesOk(full) && t in full.schema
    ensures forall name: IndexName :: name.table == t ==>
              (name in full.indexes <==> name.column < |full.schema[t]| && full.schema[t][name.column].indexed)
  {
    hide Agrees;
  }

  lemma ReferencesSplit(full: Store, t: string, n: string)
    requires ForeignRefsOk(full) && t in full.schema && n in full.foreignRefs
    ensures full.foreignRefs[n] ==
        |ForeignColumns(full.schema - {t}, n)| + multiset(ReferredBy(full.schema[t], |full.schema[t]|))[n]
    ensures full.foreignRefs[n] ==
        |ForeignColumns(full.schema - {t}, n)| + |Referring(full.schema[t], |full.schema[t]|, n)|
  {
    var desc := full.schema[t];
    var small: Schema := full.schema - {t};
    assert small[t := desc] == full.schema;
    hide ForeignColumns, Referring, RefersList, ReferredBy;
    ReferredByList(desc, |desc|);
    ForeignColumnsWith(small, t, desc, n);
    ReferredCount(desc, |desc|, ReferredBy(desc, |desc|), n);
  }

  lemma ReferredByKnown(full: Store, t: string, n: string)
    requires SchemaOk(full.schema) && ForeignRefsOk(full) && t in full.schema
    requires n in ReferredBy(full.schema[t], |full.schema[t]|)
    ensures n in full.foreignRefs
  {
    var desc := full.schema[t];
    assert multiset(ReferredBy(desc, |desc|))[n] > 0;
    hide Referring, RefersList, ReferredBy, SchemaOk;
    ReferredByList(desc, |desc|);
    ReferredCount(desc, |desc|, ReferredBy(desc, |desc|), n);
    ReferredThere(full.schema, t, n);
  }

  lemma ReferredThere(schema: Schema, t: string, n: string)
    requires SchemaOk(schema) && t in schema && |Referring(schema[t], |schema[t]|, n)| > 0
    ensures n in schema
  {
    var c :| c in Referring(schema[t], |schema[t]|, n);
    assert ForeignOk(schema, t, c);
  }

  lemma DropEnds(full: Store, g: Store, mid: Snapshot, s: Store, t: string, rest: map<string, nat>)
    requires StoreOk(full) && t in full.schema && ForeignColumns(full.schema, t) == {} && Emptying(full, g, mid, t, {})
    requires s.schema == full.schema - {t} && s.tables == mid - {t} && s.foreignRefs == rest - {t}
    requires rest.Keys == full.foreignRefs.Keys
    requires (forall n :: n in rest ==> rest[n] == |ForeignColumns(full.schema - {t}, n)|)
    requires forall name :: name in s.indexes <==> name in full.indexes && name.table != t
    requires forall name :: name in s.indexes ==> s.indexes[name] == full.indexes[name]
    ensures StoreOk(s) && Dropped(full, s, t)
  {
    hide *;
    OkAnywhere(full, "");
    Parts(full, "", None);
    EmptyingThere(full, g, mid, t);
    DroppedTables(full, g, mid, s, t);
    forall n | n in s.foreignRefs
      ensures full.foreignRefs[n] == s.foreignRefs[n] + |Referring(full.schema[t], |full.schema[t]|, n)|
    {
      ReferencesSplit(full, t, n);
    }
    ReferencesThereToo(full, t);
    IndexNames(full, t);
    DroppedEmpty(full, g, s, t, full.schema[t], rest);
    DropOk(s, g, t, full.schema[t]);
    DroppedIs(full, s, t);
  }

  lemma EmptyingThere(full: Store, g: Store, mid: Snapshot, t: string)
    requires Emptying(full, g, mid, t, {})
    ensures StoreOk(g) && g.schema == full.schema && g.foreignRefs == full.foreignRefs
    ensures g.indexes.Keys == full.indexes.Keys
    ensures forall name :: name in g.indexes && name.table != t ==> g.indexes[name] == full.indexes[name]
  {
  }

  lemma ReferencesThereToo(full: Store, t: string)
    requires ForeignRefsOk(full) && t in full.schema
    ensures t in full.foreignRefs
  {
  }

  lemma DroppedEmpty(full: Store, g: Store, s: Store, t: string, desc: Descriptor, rest: map<string, nat>)
    requires t in full.schema && desc == full.schema[t] && g.schema == full.schema && s.schema == full.schema - {t}
    requires t !in s.tables && g.tables == s.tables[t := map[]]
    requires forall name: IndexName :: name.table == t ==>
               (name in full.indexes <==> name.column < |desc| && desc[name.column].indexed)
    requires forall name :: name in s.indexes <==> name in full.indexes && name.table != t
    requires g.indexes.Keys == full.indexes.Keys
    requires forall name :: name in g.indexes && name.table != t ==> g.indexes[name] == full.indexes[name]
    requires forall name :: name in s.indexes ==> s.indexes[name] == full.indexes[name]
    requires t in full.foreignRefs && rest.Keys == full.foreignRefs.Keys && s.foreignRefs == rest - {t}
    requires g.foreignRefs == full.foreignRefs
    requires forall n :: n in s.foreignRefs ==> full.foreignRefs[n] == s.foreignRefs[n] + |Referring(desc, |desc|, n)|
    ensures EmptyTable(s, g, t, desc)
  {
    hide Referring;
    assert s.schema[t := desc] == full.schema;
  }

  lemma DroppedIs(full: Store, s: Store, t: string)
    requires s.schema == full.schema - {t} && s.tables.Keys == full.tables.Keys - {t}
    requires forall n :: n in s.tables ==> SameRows(full.tables[n], s.tables[n])
    requires forall name :: name in s.indexes <==> name in full.indexes && name.table != t
    requires forall name :: name in s.indexes ==> s.indexes[name] == full.indexes[name]
    ensures Dropped(full, s, t)
  {
  }

  lemma DroppedTables(full: Store, g: Store, mid: Snapshot, s: Store, t: string)
    requires Emptying(full, g, mid, t, {}) && s.tables == mid - {t}
    ensures t !in s.tables && g.tables == s.tables[t := map[]] && s.tables.Keys == full.tables.Keys - {t}
    ensures forall n :: n in s.tables ==> SameRows(full.tables[n], s.tables[n])
  {
    hide StoreOk;
    assert g.tables[t] == map[];
    assert mid[t := map[]] == s.tables[t := map[]];
    forall n | n in s.tables ensures SameRows(full.tables[n], s.tables[n]) {
      assert s.tables[n] == mid[t := g.tables[t]][n] == g.tables[n];
    }
  }

  // ---------------------------------------------------------------- an index is filled in later

  /** The entries of all records, nulls included. */
  ghost predicate FilledFrom(C: map<int, BPlusTree.Slot>, rows: RowMap, R: set<Rid>, c: nat)
    requires forall r :: r in rows ==> c < |rows[r].values|
  {
    && (forall r :: r in R && r in rows ==> HasEntryOf(C, rows[r].values[c], r))
    && forall k :: k in C ==> var r := RidOf(C[k]); r in R && r in rows && k == KeyOf(rows[r].values[c], r, false)
  }

  ghost predicate HasEntryOf(C: map<int, BPlusTree.Slot>, v: int, r: Rid) {
    KeyOf(v, r, false) in C && C[KeyOf(v, r, false)] == SlotOf(r)
  }

  /** An index filled in later is in step with the table iff the column has no nulls: the filling does not skip
      them. */
  lemma FilledAgreesIff(C: map<int, BPlusTree.Slot>, desc: Descriptor, rows: RowMap, c: nat)
    requires c < |desc| && !desc[c].unique && RowsOk(desc, rows)
    requires FilledFrom(C, rows, rows.Keys, c)
    ensures Agrees(C, desc, rows, c) <==> NoNulls(desc, rows, c)
  {
    if forall r :: r in rows ==> !IsNull(desc, rows[r], c) {
      forall r | r in rows ensures Pointed(C, desc, rows, c, r) {
        assert HasEntryOf(C, rows[r].values[c], r);
      }
    } else {
      var r :| r in rows && IsNull(desc, rows[r], c);
      assert HasEntryOf(C, rows[r].values[c], r);
      assert RidOf(C[KeyOf(rows[r].values[c], r, false)]) == r;
    }
  }

  lemma FilledNone(rows: RowMap, desc: Descriptor, c: nat)
    requires c < |desc| && RowsOk(desc, rows)
    ensures (forall r :: r in rows ==> c < |rows[r].values|) && FilledFrom(map[], rows, {}, c)
  {
  }

  lemma FilledMore(C: map<int, BPlusTree.Slot>, desc: Descriptor, rows: RowMap, R: set<Rid>, c: nat, r: Rid)
    requires c < |desc| && RowsOk(desc, rows) && FilledFrom(C, rows, R, c) && r in rows && r !in R
    ensures KeyOf(rows[r].values[c], r, false) !in C
    ensures FilledFrom(C[KeyOf(rows[r].values[c], r, false) := SlotOf(r)], rows, R + {r}, c)
  {
    var k := KeyOf(rows[r].values[c], r, false);
    if k in C {
      var q := RidOf(C[k]);
      KeyOrder.ValueKeyOrder(rows[r].values[c], r, rows[q].values[c], q);
    }
    var D := C[k := SlotOf(r)];
    forall q | q in R + {r} && q in rows ensures HasEntryOf(D, rows[q].values[c], q) {
      if q != r { assert HasEntryOf(C, rows[q].values[c], q); }
    }
  }

  /** The store with the index of one more column. */
  ghost function WithIndex(s: Store, t: string, c: nat, C: map<int, BPlusTree.Slot>): Store
    requires t in s.schema && c < |s.schema[t]|
  {
    Store(s.schema[t := s.schema[t][c := s.schema[t][c].(indexed := true)]], s.tables,
        s.indexes[IndexName(t, c) := C], s.foreignRefs)
  }

  /** Schemas that differ in what is indexed only. */
  ghost predicate SameButIndexed(a: Schema, b: Schema) {
    a.Keys == b.Keys
    && forall n :: n in a ==> |a[n]| == |b[n]| && forall c :: 0 <= c < |a[n]| ==>
         b[n][c] == a[n][c].(indexed := b[n][c].indexed)
  }

  lemma UsesOfBoth(a: Schema, b: Schema, tables: Snapshot, n: string, v: int)
    requires SameButIndexed(a, b)
    ensures Uses(a, tables, n, v) == Uses(b, tables, n, v)
  {
    forall u ensures u in Uses(a, tables, n, v) <==> u in Uses(b, tables, n, v) {
      UsesAre(a, tables, n, v, u);
      UsesAre(b, tables, n, v, u);
    }
  }

  lemma AgreesOfBoth(C: map<int, BPlusTree.Slot>, d: Descriptor, e: Descriptor, rows: RowMap, c: nat)
    requires c < |d| == |e| && RowsOk(d, rows) && RowsOk(e, rows)
    requires d[c].unique == e[c].unique && d[c].nullable == e[c].nullable && Agrees(C, d, rows, c)
    ensures Agrees(C, e, rows, c)
  {
    forall r | r in rows && !IsNull(e, rows[r], c) ensures Pointed(C, e, rows, c, r) {
      assert Pointed(C, d, rows, c, r);
    }
  }

  lemma IndexedSchema(s: Store, b: Schema)
    requires SchemaOk(s.schema) && SnapshotOk(s.schema, s.tables) && SameButIndexed(s.schema, b)
    requires forall n, c :: n in b && 0 <= c < |b[n]| && b[n][c].unique ==> b[n][c].indexed
    ensures SchemaOk(b) && SnapshotOk(b, s.tables)
  {
    forall n | n in b ensures FieldsOk(b[n]) {
      assert FieldsOk(s.schema[n]);
    }
    forall n, c | n in b && 0 <= c < |b[n]| ensures ForeignOk(b, n, c) {
      assert ForeignOk(s.schema, n, c);
    }
    forall n | n in b ensures RowsOk(b[n], s.tables[n]) {
      assert RowsOk(s.schema[n], s.tables[n]);
    }
  }

  lemma IndexedCounts(s: Store, b: Schema)
    requires SnapshotOk(s.schema, s.tables) && CountsOk(s.schema, s.tables) && SameButIndexed(s.schema, b)
    requires SnapshotOk(b, s.tables)
    ensures CountsOk(b, s.tables)
  {
    forall t, k, r | t in b && 0 <= k < |b[t]| && b[t][k].primary && r in s.tables[t]
      ensures Counted(b, s.tables, t, k, r)
    {
      assert Counted(s.schema, s.tables, t, k, r);
      UsesOfBoth(s.schema, b, s.tables, t, s.tables[t][r].values[k]);
    }
  }

  lemma IndexedDangling(s: Store, b: Schema)
    requires SchemaOk(s.schema) && SnapshotOk(s.schema, s.tables) && NoDangling(s.schema, s.tables, "", None)
    requires SameButIndexed(s.schema, b) && SchemaOk(b) && SnapshotOk(b, s.tables)
    ensures NoDangling(b, s.tables, "", None)
  {
    forall t, r, c | t in b && r in s.tables[t] && 0 <= c < |b[t]| && Foreign(b[t], s.tables[t][r], c)
      ensures var fk := b[t][c].foreign.value;
              fk.table in s.tables && HasKey(s.tables[fk.table], fk.column, s.tables[t][r].values[c])
    {
      assert Foreign(s.schema[t], s.tables[t][r], c);
    }
  }

  lemma IndexedReferences(a: Schema, b: Schema, n: string)
    requires SameButIndexed(a, b)
    ensures ForeignColumns(b, n) == ForeignColumns(a, n)
  {
    forall p: (string, nat) ensures p in ForeignColumns(b, n) <==> p in ForeignColumns(a, n) {
      ForeignColumnsAre(b, n, p.0, p.1);
      ForeignColumnsAre(a, n, p.0, p.1);
    }
  }

  lemma IndexedIndexes(s: Store, t: string, c: nat, C: map<int, BPlusTree.Slot>)
    requires OkBut(s, "", None) && t in s.schema && c < |s.schema[t]| && !s.schema[t][c].indexed
    requires SnapshotOk(WithIndex(s, t, c, C).schema, s.tables)
    ensures RowsOk(WithIndex(s, t, c, C).schema[t], s.tables[t])
    ensures IndexesOk(WithIndex(s, t, c, C)) <==> Agrees(C, WithIndex(s, t, c, C).schema[t], s.tables[t], c)
  {
    hide *;
    Parts(s, "", None);
    forall name | name in s.indexes
      ensures OtherIndex(s, t, c, C, name)
    {
      OtherIndexOk(s, t, c, C, name);
    }
    AllIndexes(s, t, c, C);
  }

  ghost predicate OtherIndex(s: Store, t: string, c: nat, C: map<int, BPlusTree.Slot>, name: IndexName)
    requires t in s.schema && c < |s.schema[t]|
  {
    var full := WithIndex(s, t, c, C);
    && name.table in full.schema && name.table in full.tables && name in full.indexes
    && name.column < |full.schema[name.table]|
    && full.schema[name.table][name.column].indexed && name != IndexName(t, c)
    && RowsOk(full.schema[name.table], full.tables[name.table])
    && Agrees(full.indexes[name], full.schema[name.table], full.tables[name.table], name.column)
  }

  lemma OtherIndexOk(s: Store, t: string, c: nat, C: map<int, BPlusTree.Slot>, name: IndexName)
    requires SnapshotOk(s.schema, s.tables) && IndexesOk(s) && t in s.schema && c < |s.schema[t]|
    requires !s.schema[t][c].indexed
    requires SnapshotOk(WithIndex(s, t, c, C).schema, s.tables) && name in s.indexes
    ensures OtherIndex(s, t, c, C, name)
  {
    var full := WithIndex(s, t, c, C);
    assert Agrees(s.indexes[name], s.schema[name.table], s.tables[name.table], name.column);
    hide IndexesOk, Agrees, SnapshotOk, RowsOk;
    SnapshotRows(s.schema, s.tables, name.table);
    SnapshotRows(full.schema, s.tables, name.table);
    AgreesOfBoth(s.indexes[name], s.schema[name.table], full.schema[name.table], s.tables[name.table], name.column);
  }

  lemma AllIndexes(s: Store, t: string, c: nat, C: map<int, BPlusTree.Slot>)
    requires SnapshotOk(s.schema, s.tables) && IndexesOk(s) && t in s.schema && c < |s.schema[t]|
    requires !s.schema[t][c].indexed
    requires SnapshotOk(WithIndex(s, t, c, C).schema, s.tables)
    requires forall name :: name in s.indexes ==> OtherIndex(s, t, c, C, name)
    ensures RowsOk(WithIndex(s, t, c, C).schema[t], s.tables[t])
    ensures IndexesOk(WithIndex(s, t, c, C)) <==> Agrees(C, WithIndex(s, t, c, C).schema[t], s.tables[t], c)
  {
    var full, own := WithIndex(s, t, c, C), IndexName(t, c);
    SnapshotRows(full.schema, s.tables, t);
    hide SnapshotOk, RowsOk, Agrees;
    forall name ensures name in full.indexes <==> name == own || name in s.indexes {
    }
    assert own in full.indexes && full.indexes[own] == C;
  }

  /** An index added later keeps the database consistent iff the column has no nulls. */
  lemma AddIndexIff(s: Store, t: string, c: nat, C: map<int, BPlusTree.Slot>)
    requires StoreOk(s) && t in s.schema && t in s.tables && c < |s.schema[t]| && !s.schema[t][c].indexed
    requires RowsOk(s.schema[t], s.tables[t]) && FilledFrom(C, s.tables[t], s.tables[t].Keys, c)
    ensures StoreOk(WithIndex(s, t, c, C)) <==> NoNulls(s.schema[t], s.tables[t], c)
  {
    var full := WithIndex(s, t, c, C);
    hide *;
    OkAnywhere(s, "");
    Parts(s, "", None);
    WithIndexIs(s, t, c, C);
    UniqueIndexed(s, t, c, C);
    IndexedSchema(s, full.schema);
    IndexedCounts(s, full.schema);
    IndexedDangling(s, full.schema);
    forall n | n in full.schema ensures |ForeignColumns(full.schema, n)| == |ForeignColumns(s.schema, n)| {
      IndexedReferences(s.schema, full.schema, n);
    }
    IndexedIndexes(s, t, c, C);
    FilledAgreesIff(C, full.schema[t], s.tables[t], c);
    NullsOfBoth(s.schema[t], full.schema[t], s.tables[t], c);
    OkAnywhere(full, "");
    if Agrees(C, full.schema[t], s.tables[t], c) {
      Whole(full, "", None);
    } else if StoreOk(full) {
      Parts(full, "", None);
    }
  }

  ghost predicate NoNulls(desc: Descriptor, rows: RowMap, c: nat)
    requires c < |desc| && RowsOk(desc, rows)
  {
    forall r :: r in rows ==> !IsNull(desc, rows[r], c)
  }

  lemma NullsOfBoth(d: Descriptor, e: Descriptor, rows: RowMap, c: nat)
    requires c < |d| == |e| && RowsOk(d, rows) && RowsOk(e, rows) && d[c].nullable == e[c].nullable
    ensures NoNulls(d, rows, c) <==> NoNulls(e, rows, c)
  {
  }

  // What WithIndex is, and that unique columns are indexed already.
  lemma WithIndexIs(s: Store, t: string, c: nat, C: map<int, BPlusTree.Slot>)
    requires StoreOk(s) && t in s.schema && c < |s.schema[t]| && !s.schema[t][c].indexed
    ensures var full := WithIndex(s, t, c, C);
            && full.tables == s.tables && t in full.schema && |full.schema[t]| == |s.schema[t]|
            && SameButIndexed(s.schema, full.schema)
            && full.schema[t][c] == s.schema[t][c].(indexed := true) && !full.schema[t][c].unique
            && ((forall n :: n in full.schema ==> |ForeignColumns(full.schema, n)| == |ForeignColumns(s.schema, n)|) ==>
                  ForeignRefsOk(full))
  {
    hide IndexesOk, CountsOk, NoDangling, ForeignColumns;
    assert FieldsOk(s.schema[t]);
  }

  lemma UniqueIndexed(s: Store, t: string, c: nat, C: map<int, BPlusTree.Slot>)
    requires SchemaOk(s.schema) && t in s.schema && c < |s.schema[t]|
    ensures var b := WithIndex(s, t, c, C).schema;
            forall n, d :: n in b && 0 <= d < |b[n]| && b[n][d].unique ==> b[n][d].indexed
  {
    assert forall n :: n in s.schema ==> FieldsOk(s.schema[n]);
  }

  /** A table whose only record has a null. */
  ghost function OneNull(): Store {
    Store(map["t" := [Field(4, true, false, false, None, false)]], map["t" := map[Rid(1, 0) := Row([true], [0], 0)]],
          map[], map["t" := 0])
  }

  lemma OneNullOk()
    ensures StoreOk(OneNull())
  {
    assert ForeignColumns(OneNull().schema, "t") == {};
  }

  /** An index added to that column gets an entry of the null, and the database is no longer consistent. */
  lemma NullBreaksIndex()
    ensures var s, C := OneNull(), map[KeyOf(0, Rid(1, 0), false) := SlotOf(Rid(1, 0))];
            && StoreOk(s) && RowsOk(s.schema["t"], s.tables["t"]) && FilledFrom(C, s.tables["t"], {Rid(1, 0)}, 0)
            && !StoreOk(WithIndex(s, "t", 0, C))
  {
    OneNullOk();
    var s, C := OneNull(), map[KeyOf(0, Rid(1, 0), false) := SlotOf(Rid(1, 0))];
    assert s.tables["t"].Keys == {Rid(1, 0)};
    hide StoreOk;
    AddIndexIff(s, "t", 0, C);
    assert Rid(1, 0) in s.tables["t"] && IsNull(s.schema["t"], s.tables["t"][Rid(1, 0)], 0);
  }
}
