/** The open table and index files of a database (src/record/record_manager.cpp, src/index/index_manager.cpp), and the
    steps that its operations take on them. */
module FileSteps {
  import opened Wrappers
  import opened Sizes
  import opened Rows
  import opened TableFiles
  import opened RecordTable
  import opened Gather
  import opened JoinSpec
  import opened IntegritySpec
  import opened Integrity
  import BPlusIndex
  import BPlusTree

  datatype FileName = TableFile(table: string) | IndexFile(index: IndexName)

  ghost function TableParts(t: Table): set<object>
    reads t
  {
    {t} + t.repr
  }

  ghost function IndexParts(i: BPlusIndex.Index): set<object>
    reads i
  {
    {i} + i.repr
  }

  ghost function AllParts(tables: map<string, Table>, indexes: map<IndexName, BPlusIndex.Index>): set<object>
    reads tables.Values, indexes.Values
  {
    (set n, o | n in tables && o in TableParts(tables[n]) :: o) +
        (set i, o | i in indexes && o in IndexParts(indexes[i]) :: o)
  }

  lemma AllIn(tables: map<string, Table>, indexes: map<IndexName, BPlusIndex.Index>)
    ensures forall n :: n in tables ==> TableParts(tables[n]) <= AllParts(tables, indexes)
    ensures forall i :: i in indexes ==> IndexParts(indexes[i]) <= AllParts(tables, indexes)
    ensures forall n :: n in tables ==> tables[n] in TableParts(tables[n])
    ensures forall i :: i in indexes ==> indexes[i] in IndexParts(indexes[i])
    ensures forall o :: o in AllParts(tables, indexes) ==> allocated(o)
  {
  }

  /** The open files of a database. */
  class Files {
    const tables: map<string, Table>
    const indexes: map<IndexName, BPlusIndex.Index>
    const schema: Schema

    ghost var store: Store           // what the files hold
    ghost var repr: set<object>

    ghost predicate IsOpen(f: FileName) {
      if f.TableFile? then f.table in tables else f.index in indexes
    }

    ghost function File(f: FileName): object
      requires IsOpen(f)
    {
      if f.TableFile? then tables[f.table] else indexes[f.index]
    }

    ghost function PartsOf(f: FileName): set<object>
      requires IsOpen(f)
      reads File(f)
    {
      if f.TableFile? then TableParts(tables[f.table]) else IndexParts(indexes[f.index])
    }

    /** The file holds what the store says of it. */
    ghost predicate Right(f: FileName, s: Store)
      requires IsOpen(f)
      reads File(f), PartsOf(f)
    {
      if f.TableFile? then
        f.table in s.tables && tables[f.table].Valid() && tables[f.table].Contents() == s.tables[f.table]
      else
        && f.index in s.indexes && f.index.table in s.schema && f.index.column < |s.schema[f.index.table]|
        && indexes[f.index].Valid() && indexes[f.index].unique == s.schema[f.index.table][f.index.column].unique
        && indexes[f.index].Contents() == s.indexes[f.index]
    }

    /** Two stores say the same of a file. */
    ghost predicate Alike(f: FileName, s: Store, s': Store) {
      && s'.schema == s.schema
      && (f.TableFile? && f.table in s.tables ==> f.table in s'.tables && s'.tables[f.table] == s.tables[f.table])
      && (f.IndexFile? && f.index in s.indexes ==> f.index in s'.indexes && s'.indexes[f.index] == s.indexes[f.index])
    }

    ghost predicate Inside()
      reads this, repr
    {
      this !in repr && forall f :: IsOpen(f) ==> File(f) in repr && PartsOf(f) <= repr
    }

    /** No two files share a page buffer. */
    ghost predicate Separate()
      reads this, repr
      requires Inside()
    {
      forall f, g :: IsOpen(f) && IsOpen(g) && f != g ==> PartsOf(f) !! PartsOf(g)
    }

    ghost predicate AllRight()
      requires Inside()
      reads this, repr
    {
      forall f :: IsOpen(f) ==> Right(f, store)
    }

    ghost predicate Valid()
      reads this, repr
    {
      && Inside() && Separate() && AllRight() && store.schema == schema
      && (forall n :: n in store.tables ==> n in tables) && forall i :: i in store.indexes ==> i in indexes
    }

    /** Files that are opened together and hold what the store says of them. */
    constructor (tables: map<string, Table>, indexes: map<IndexName, BPlusIndex.Index>, schema: Schema, ghost s: Store)
      requires s.schema == schema && s.tables.Keys == tables.Keys && s.indexes.Keys == indexes.Keys
      requires forall n :: n in tables ==> tables[n].Valid() && tables[n].Contents() == s.tables[n]
      requires forall i :: i in indexes ==>
                 && i.table in s.schema && i.column < |s.schema[i.table]| && indexes[i].Valid()
                 && indexes[i].unique == s.schema[i.table][i.column].unique && indexes[i].Contents() == s.indexes[i]
      requires forall n, m :: n in tables && m in tables && n != m ==> TableParts(tables[n]) !! TableParts(tables[m])
      requires forall n, i :: n in tables && i in indexes ==> TableParts(tables[n]) !! IndexParts(indexes[i])
      requires forall i, j :: i in indexes && j in indexes && i != j ==>
                 IndexParts(indexes[i]) !! IndexParts(indexes[j])
      ensures Valid() && store == s && this.tables == tables && this.indexes == indexes && this.schema == schema
    {
      hide *;
      AllIn(tables, indexes);
      this.tables, this.indexes, this.schema, store, repr := tables, indexes, schema, s, AllParts(tables, indexes);
      new;
      Opened(s);
    }

    lemma Opened(s: Store)
      requires s.tables.Keys == tables.Keys && s.indexes.Keys == indexes.Keys && store == s && s.schema == schema
      requires this !in repr
      requires forall n :: n in tables ==>
                 TableParts(tables[n]) <= repr && tables[n].Valid() && tables[n].Contents() == s.tables[n]
      requires forall i :: i in indexes ==>
                 && i.table in s.schema && i.column < |s.schema[i.table]| && IndexParts(indexes[i]) <= repr
                 && indexes[i].Valid()
                 && indexes[i].unique == s.schema[i.table][i.column].unique && indexes[i].Contents() == s.indexes[i]
      requires forall n, m :: n in tables && m in tables && n != m ==> TableParts(tables[n]) !! TableParts(tables[m])
      requires forall n, i :: n in tables && i in indexes ==> TableParts(tables[n]) !! IndexParts(indexes[i])
      requires forall i, j :: i in indexes && j in indexes && i != j ==>
                 IndexParts(indexes[i]) !! IndexParts(indexes[j])
      ensures Valid()
    {
      forall f | IsOpen(f) ensures File(f) in repr && PartsOf(f) <= repr && Right(f, store) {
        OpenedFile(f);
      }
    }

    lemma OpenedFile(f: FileName)
      requires IsOpen(f)
      ensures PartsOf(f) == if f.TableFile? then TableParts(tables[f.table]) else IndexParts(indexes[f.index])
    {
    }

    twostate lemma PartsStay(f: FileName)
      requires IsOpen(f) && forall o :: o in old(PartsOf(f)) ==> unchanged(o)
      ensures PartsOf(f) == old(PartsOf(f)) && File(f) in old(PartsOf(f))
    {
      assert File(f) in old(PartsOf(f));
    }

    twostate lemma RightStays(f: FileName, new s: Store)
      requires IsOpen(f) && old(Right(f, s)) && File(f) in old(PartsOf(f))
      requires forall o :: o in old(PartsOf(f)) ==> unchanged(o)
      ensures Right(f, s)
    {
      hide *;
    }

    /** When only the parts of one file change, and it holds what the store now says, the other files still do. */
    twostate lemma FileChanged(f: FileName)
      requires IsOpen(f) && old(Valid())
      requires forall o :: o in old(repr) && o !in old(PartsOf(f)) ==> unchanged(o)
      requires fresh(PartsOf(f) - old(PartsOf(f))) && repr == old(repr) + PartsOf(f)
      requires Right(f, store) && SameBut(f, old(store), store)
      ensures Valid()
    {
      hide PartsOf, Right, Alike, Inside, Separate, AllRight;
      OthersStay(f);
      PartsAgain(f);
      forall g | IsOpen(g) ensures Right(g, store) {
        if g != f { RightAlike(g, old(store), store); }
      }
      Gathered();
    }

    lemma Gathered()
      requires Inside() && forall f :: IsOpen(f) ==> Right(f, store)
      ensures AllRight()
    {
    }

    lemma RightAlike(f: FileName, s: Store, s': Store)
      requires IsOpen(f) && Right(f, s) && Alike(f, s, s')
      ensures Right(f, s')
    {
    }

    lemma FileIn(f: FileName)
      requires IsOpen(f)
      ensures File(f) in PartsOf(f)
    {
    }

    twostate lemma PartsAgain(f: FileName)
      requires IsOpen(f) && old(Inside()) && old(Separate())
      requires forall g :: IsOpen(g) && g != f ==> PartsOf(g) == old(PartsOf(g))
      requires fresh(PartsOf(f) - old(PartsOf(f))) && repr == old(repr) + PartsOf(f)
      ensures Inside() && Separate()
    {
      hide PartsOf, File;
      FileIn(f);
      assert this !in PartsOf(f);
      forall g | IsOpen(g) ensures File(g) in repr && PartsOf(g) <= repr {
        FileIn(g);
      }
    }

    ghost predicate SameBut(f: FileName, s: Store, s': Store) {
      && s'.schema == s.schema && (forall g :: g != f ==> Alike(g, s, s')) && s'.tables.Keys == s.tables.Keys
      && s'.indexes.Keys == s.indexes.Keys
    }

    twostate lemma OthersStay(f: FileName)
      requires IsOpen(f) && old(Valid())
      requires forall o :: o in old(repr) && o !in old(PartsOf(f)) ==> unchanged(o)
      ensures old(Inside()) && old(Separate())
      ensures forall g :: IsOpen(g) && g != f ==>
                PartsOf(g) == old(PartsOf(g)) && File(g) in old(PartsOf(g)) && Right(g, old(store))
    {
      hide PartsOf, Right;
      forall g | IsOpen(g) && g != f
        ensures PartsOf(g) == old(PartsOf(g)) && File(g) in old(PartsOf(g)) && Right(g, old(store))
      {
        PartsStay(g);
        RightStays(g, old(store));
      }
    }

    lemma IndexHere(name: IndexName)
      requires Valid() && name in indexes
      ensures IsOpen(IndexFile(name)) && PartsOf(IndexFile(name)) == {indexes[name]} + indexes[name].repr <= repr
      ensures this !in repr
      ensures name in store.indexes && name.table in store.schema && name.column < |store.schema[name.table]|
      ensures indexes[name].Valid() && indexes[name].Contents() == store.indexes[name]
      ensures indexes[name].unique == store.schema[name.table][name.column].unique
    {
      assert IsOpen(IndexFile(name)) && Right(IndexFile(name), store);
      assert PartsOf(IndexFile(name)) == {indexes[name]} + indexes[name].repr;
    }

    lemma IndexRight(name: IndexName)
      requires name in indexes && indexes[name].Valid()
      requires name in store.indexes && name.table in store.schema && name.column < |store.schema[name.table]|
      requires indexes[name].Contents() == store.indexes[name]
      requires indexes[name].unique == store.schema[name.table][name.column].unique
      ensures PartsOf(IndexFile(name)) == {indexes[name]} + indexes[name].repr && Right(IndexFile(name), store)
    {
    }

    lemma TableHere(t: string)
      requires Valid() && t in tables
      ensures IsOpen(TableFile(t)) && PartsOf(TableFile(t)) == {tables[t]} + tables[t].repr <= repr && this !in repr
      ensures t in store.tables && tables[t].Valid() && tables[t].Contents() == store.tables[t]
      ensures tables[t].slotCountPerPage <= MAX_SLOTS
    {
      assert IsOpen(TableFile(t)) && Right(TableFile(t), store);
      assert PartsOf(TableFile(t)) == {tables[t]} + tables[t].repr;
    }

    lemma TableRight(t: string)
      requires t in tables && tables[t].Valid() && t in store.tables && tables[t].Contents() == store.tables[t]
      ensures PartsOf(TableFile(t)) == {tables[t]} + tables[t].repr && Right(TableFile(t), store)
    {
    }

    lemma IndexesBut(name: IndexName, s: Store, entries: map<int, BPlusTree.Slot>)
      requires name in s.indexes
      ensures SameBut(IndexFile(name), s, s.(indexes := s.indexes[name := entries]))
    {
    }

    lemma TablesBut(t: string, s: Store, rows: RowMap)
      requires t in s.tables
      ensures SameBut(TableFile(t), s, s.(tables := s.tables[t := rows]))
    {
    }

    // ------------------------------------------------------------ steps

    method InsertIndexEntry(name: IndexName, key: int, rid: Rid) returns (ok: bool)
      requires Valid() && name in indexes
      modifies this, repr
      ensures Valid() && fresh(repr - old(repr)) && name in old(store).indexes
      ensures ok <==> key !in old(store).indexes[name]
      ensures ok ==>
                store ==
                old(store).(indexes := old(store).indexes[name := old(store).indexes[name][key := SlotOf(rid)]])
      ensures !ok ==> store == old(store)
    {
      hide *;
      IndexHere(name);
      var i := indexes[name];
      var o := i.InsertIndexEntry(key, SlotOf(rid));
      ok := o.Done?;
      repr := repr + i.repr;
      assert store.indexes[name := store.indexes[name]] == store.indexes;
      store := store.(indexes := store.indexes[name := i.Contents()]);
      IndexRight(name);
      IndexesBut(name, old(store), i.Contents());
      FileChanged(IndexFile(name));
    }

    method DeleteIndexEntry(name: IndexName, key: int) returns (ok: bool)
      requires Valid() && name in indexes
      modifies this, repr
      ensures Valid() && repr == old(repr) && name in old(store).indexes
      ensures ok <==> key in old(store).indexes[name]
      ensures ok ==> store == old(store).(indexes := old(store).indexes[name := old(store).indexes[name] - {key}])
      ensures !ok ==> store == old(store)
    {
      hide *;
      IndexHere(name);
      var i := indexes[name];
      var o := i.DeleteIndexEntry(key);
      ok := o.Done?;
      assert store.indexes[name := store.indexes[name]] == store.indexes;
      store := store.(indexes := store.indexes[name := i.Contents()]);
      IndexRight(name);
      IndexesBut(name, old(store), i.Contents());
      FileChanged(IndexFile(name));
    }

    method InsertRow(t: string, row: Row) returns (rid: Rid)
      requires Valid() && t in tables
      modifies this, repr
      ensures Valid() && fresh(repr - old(repr)) && t in old(store).tables
      ensures rid !in old(store).tables[t]
      ensures store == old(store).(tables := old(store).tables[t := old(store).tables[t][rid := row]])
      ensures 1 <= rid.page <= old(tables[t].pageCount) && 0 <= rid.slot < MAX_SLOTS
    {
      hide *;
      TableHere(t);
      var file := tables[t];
      var r := file.InsertRecord(row);
      rid := r.value;
      repr := repr + file.repr;
      store := store.(tables := store.tables[t := file.Contents()]);
      TableRight(t);
      TablesBut(t, old(store), file.Contents());
      FileChanged(TableFile(t));
    }

    method DeleteRow(t: string, rid: Rid)
      requires Valid() && t in tables && t in store.tables && rid.page != 0 && rid in store.tables[t]
      modifies this, repr
      ensures Valid() && repr == old(repr) && t in old(store).tables
      ensures store == old(store).(tables := old(store).tables[t := old(store).tables[t] - {rid}])
    {
      hide *;
      TableHere(t);
      var file := tables[t];
      var e := file.DeleteRecord(rid);
      store := store.(tables := store.tables[t := file.Contents()]);
      TableRight(t);
      TablesBut(t, old(store), file.Contents());
      FileChanged(TableFile(t));
    }

    method UpdateRow(t: string, rid: Rid, update: Row -> Row) returns (ok: bool)
      requires Valid() && t in tables && t in store.tables && rid.page != 0
      modifies this, repr
      ensures Valid() && repr == old(repr) && t in old(store).tables
      ensures ok <==> rid in old(store).tables[t]
      ensures ok ==>
                var rows := old(store).tables[t];
                store == old(store).(tables := old(store).tables[t := rows[rid := update(rows[rid])]])
      ensures !ok ==> store == old(store)
    {
      hide *;
      TableHere(t);
      var file := tables[t];
      var e := file.UpdateRecord(rid, update);
      ok := e.Ok?;
      assert store.tables[t := store.tables[t]] == store.tables;
      store := store.(tables := store.tables[t := file.Contents()]);
      TableRight(t);
      TablesBut(t, old(store), file.Contents());
      FileChanged(TableFile(t));
    }

    /** Adds one to the count of a record; fails when records of the table are not counted or there is no such record.
        */
    method AddReference(t: string, desc: Descriptor, rid: Rid) returns (ok: bool)
      requires Valid() && t in tables && t in store.tables && rid.page != 0
      modifies this, repr
      ensures Valid() && repr == old(repr) && t in old(store).tables
      ensures ok <==> ReferenceCounted(desc) && rid in old(store).tables[t]
      ensures ok ==>
                var row := old(store).tables[t][rid];
                store ==
                old(store).(tables := old(store).tables[t := old(store).tables[t][rid := row.(refs := row.refs + 1)]])
      ensures !ok ==> store == old(store)
    {
      ok := ReferenceCounted(desc);
      hide *;
      if ok {
        ok := UpdateRow(t, rid, (row: Row) => row.(refs := row.refs + 1));
      }
    }

    method DropReference(t: string, desc: Descriptor, rid: Rid) returns (ok: bool)
      requires Valid() && t in tables && t in store.tables && rid.page != 0
      modifies this, repr
      ensures Valid() && repr == old(repr) && t in old(store).tables
      ensures ok <==> ReferenceCounted(desc) && rid in old(store).tables[t] && old(store).tables[t][rid].refs != 0
      ensures ok ==>
                var row := old(store).tables[t][rid];
                store ==
                old(store).(tables := old(store).tables[t := old(store).tables[t][rid := row.(refs := row.refs - 1)]])
      ensures !ok ==> store == old(store)
    {
      ok := ReferenceCounted(desc);
      hide *;
      if ok {
        var row := GetRow(t, rid);
        ok := row.Some? && row.value.refs != 0;
        if ok {
          ok := UpdateRow(t, rid, (row: Row) => if row.refs != 0 then row.(refs := row.refs - 1) else row);
        }
      }
    }

    method GetRow(t: string, rid: Rid) returns (row: Option<Row>)
      requires Valid() && t in tables && t in store.tables && rid.page != 0
      ensures row == if rid in store.tables[t] then Some(store.tables[t][rid]) else None
    {
      hide *;
      TableHere(t);
      var r := tables[t].GetRecord(rid);
      row := if r.Ok? then Some(r.value) else None;
    }

    /** The record that a unique index finds for a key. */
    method Lookup(name: IndexName, key: int) returns (r: Option<Rid>)
      requires Valid() && name in indexes && indexes[name].unique
      ensures name in store.indexes
      ensures r == if key in store.indexes[name] then Some(RidOf(store.indexes[name][key])) else None
    {
      hide *;
      IndexHere(name);
      var found := indexes[name].SearchUniqueIndexEntry(key);
      r := if found.Found? then Some(RidOf(found.rid)) else None;
    }

    lemma IndexOpen(name: IndexName)
      requires Valid() && name in store.indexes
      ensures name in indexes && name.table in store.schema && name.column < |store.schema[name.table]|
      ensures indexes[name].unique == store.schema[name.table][name.column].unique
    {
      assert IsOpen(IndexFile(name)) && Right(IndexFile(name), store);
    }

    lemma TableOpen(t: string)
      requires Valid() && t in store.tables
      ensures t in tables && store.schema == schema
    {
    }
  }
}
