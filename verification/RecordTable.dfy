/** The table file of src/record/table.cpp: data pages with slot bitmaps, changed in place. */
module RecordTable {
  import opened Wrappers
  import opened Sizes
  import opened Rows
  import opened TableFiles

  datatype TableError = RecordOffsetOutOfRange | RecordNotFound | RecordSlotUsageBitmapCorrupt

  const BITS_PER_PACK := 64
  const PACKS := 8

  /** One data page: header with the slot usage bitmap, and the record slots. */
  class DataPage {
    var recordCount: int
    var nextFreePage: int
    const bitmap: array<bool>
    const data: array<Row>

    /** A newly allocated page with unspecified contents. */
    constructor (slots: nat, filler: Row)
      ensures bitmap.Length == MAX_SLOTS && data.Length == slots
      ensures fresh(bitmap) && fresh(data)
    {
      recordCount, nextFreePage := 0, 0;
      bitmap := new bool[MAX_SLOTS](_ => true);
      data := new Row[slots](_ => filler);
    }

    ghost function View(): PageView<Row>
      reads this, bitmap, data
    {
      PageView(recordCount, nextFreePage, bitmap[..], data[..])
    }

    /** Makes this page hold x in slot 0 and nothing else. */
    method Start(x: Row)
      requires bitmap.Length == MAX_SLOTS && data.Length > 0
      modifies this, bitmap, data
      ensures View() == FreshPage(old(View()).data, x)
    {
      recordCount := 1;
      forall i | 0 <= i < bitmap.Length {
        bitmap[i] := false;
      }
      bitmap[0] := true;
      nextFreePage := -1;
      data[0] := x;
      assert bitmap[..] == seq(MAX_SLOTS, i => i == 0);
      assert data[..] == old(data[..])[0 := x];
    }

    predicate PackFull(pack: nat)
      requires bitmap.Length == MAX_SLOTS && pack < PACKS
      reads bitmap
    {
      forall j :: pack * BITS_PER_PACK <= j < (pack + 1) * BITS_PER_PACK ==> bitmap[j]
    }

    /** Scans the bitmap, pack by pack, for the first clear bit; |bitmap| when all are set. */
    method FindSlot() returns (slot: nat)
      requires bitmap.Length == MAX_SLOTS
      ensures slot == FirstClear(bitmap[..])
    {
      var pack := 0;
      while pack < PACKS
        invariant 0 <= pack <= PACKS
        invariant forall j :: 0 <= j < pack * BITS_PER_PACK ==> bitmap[j]
      {
        if !PackFull(pack) {
          var bit := 0;
          while bit < BITS_PER_PACK
            invariant 0 <= bit <= BITS_PER_PACK
            invariant forall j :: 0 <= j < pack * BITS_PER_PACK + bit ==> bitmap[j]
          {
            slot := pack * BITS_PER_PACK + bit;
            if !bitmap[slot] {
              FirstClearUnique(bitmap[..], slot);
              return;
            }
            bit := bit + 1;
          }
        }
        pack := pack + 1;
      }
      slot := MAX_SLOTS;
      FirstClearUnique(bitmap[..], slot);
    }

    method Fill(slot: nat, x: Row)
      requires slot < bitmap.Length && slot < data.Length
      modifies this`recordCount, bitmap, data
      ensures View() == FilledPage(old(View()), slot, x)
    {
      bitmap[slot] := true;
      data[slot] := x;
      recordCount := recordCount + 1;
      assert bitmap[..] == old(bitmap[..])[slot := true] && data[..] == old(data[..])[slot := x];
    }

    method Clear(slot: nat, slots: nat, first: int)
      requires slot < bitmap.Length
      modifies this, bitmap
      ensures View() == ClearedPage(old(View()), slot, slots, first)
    {
      if recordCount == slots {
        nextFreePage := first;
      }
      bitmap[slot] := false;
      recordCount := recordCount - 1;
      assert bitmap[..] == old(bitmap[..])[slot := false];
    }
  }

  /** Every page has its own bitmap and data. */
  ghost predicate Owned(pages: map<int, DataPage>, repr: set<object>, slots: nat) {
    && (forall p :: p in pages ==>
          && pages[p] in repr && pages[p].bitmap in repr && pages[p].data in repr
          && pages[p].bitmap.Length == MAX_SLOTS && pages[p].data.Length == slots)
    && (forall p, q :: p in pages && q in pages && p != q ==>
          pages[p] != pages[q] && pages[p].bitmap != pages[q].bitmap && pages[p].data != pages[q].data)
  }

  twostate lemma ViewFrame(page: DataPage)
    requires unchanged(page) && unchanged(page.bitmap) && unchanged(page.data)
    ensures page.View() == old(page.View())
  {
  }

  lemma AddOwned(pages: map<int, DataPage>, repr: set<object>, slots: nat, p: int, page: DataPage)
    requires Owned(pages, repr, slots) && p !in pages
    requires page !in repr && page.bitmap !in repr && page.data !in repr
    requires page.bitmap.Length == MAX_SLOTS && page.data.Length == slots
    ensures Owned(pages[p := page], repr + {page, page.bitmap, page.data}, slots)
  {
  }

  class Table {
    var pages: map<int, DataPage>   // the data pages of the file
    var pageCount: int                 // header: pages in the file, the header page included
    var recordCount: nat               // header: live records
    var firstFreePage: int             // header: first page with a free slot, -1 when there is none
    const slotCountPerPage: nat

    ghost var file: PageFile<Row>
    ghost var free: seq<int>
    ghost var repr: set<object>

    ghost predicate FileOk()
      reads `pages, `repr, `file, repr
    {
      && this !in repr
      && Owned(pages, repr, slotCountPerPage)
      && (forall p :: p in file <==> p in pages)
      && forall p :: p in pages ==> file[p] == pages[p].View()
    }

    ghost predicate Valid()
      reads this, repr
    {
      FileOk() && Consistent(file, firstFreePage, pageCount, recordCount, slotCountPerPage, free)
    }

    /** The map from record offset to record that the table stands for. */
    ghost function Contents(): map<Rid, Row>
      reads this
    {
      Records(file)
    }

    constructor (slots: nat)
      requires 2 <= slots <= 512
      ensures Valid() && Contents() == map[] && repr == {} && slotCountPerPage == slots
    {
      hide *;
      pages, pageCount, recordCount, firstFreePage := map[], 1, 0, -1;
      slotCountPerPage := slots;
      file, free, repr := map[], [], {};
      new;
      NoRecords<Row>();
      NoPages();
    }

    lemma NoPages()
      requires pages == map[] && pageCount == 1 && recordCount == 0 && firstFreePage == -1
      requires 2 <= slotCountPerPage <= 512
      requires file == map[] && free == [] && repr == {}
      requires Records<Row>(map[]) == map[]
      ensures Valid() && Contents() == map[]
    {
      hide Records, Live, Record, LiveFrom;
    }

    // What Valid says of page p and its record slots.
    lemma PageFacts(p: int)
      requires Valid()
      ensures p in pages <==> 1 <= p < pageCount
      ensures p in pages ==>
                && p in file && pages[p] in repr && pages[p].bitmap in repr && pages[p].data in repr
                && pages[p].bitmap.Length == MAX_SLOTS && pages[p].data.Length == slotCountPerPage <= MAX_SLOTS
                && file[p] == pages[p].View()
                && |file[p].bits| == MAX_SLOTS && |file[p].data| == slotCountPerPage
                && forall s :: 0 <= s < slotCountPerPage ==>
                     && (Live(file, Rid(p, s)) <==> pages[p].bitmap[s])
                     && (Rid(p, s) in Contents() <==> pages[p].bitmap[s])
                     && (pages[p].bitmap[s] ==> Contents()[Rid(p, s)] == pages[p].data[s])
      ensures FileOk() && Consistent(file, firstFreePage, pageCount, recordCount, slotCountPerPage, free)
      ensures Contents() == Records(file)
    {
      if p in pages {
        forall s | 0 <= s < slotCountPerPage
          ensures Live(file, Rid(p, s)) <==> pages[p].bitmap[s]
          ensures Rid(p, s) in Contents() <==> pages[p].bitmap[s]
          ensures pages[p].bitmap[s] ==> Contents()[Rid(p, s)] == pages[p].data[s]
        {
          RecordsAre(file, Rid(p, s));
        }
      }
    }

    lemma OutOfRangeIsDead(r: Rid)
      requires Valid() && (r.page < 1 || r.page >= pageCount || r.slot < 0 || r.slot >= slotCountPerPage)
      ensures r !in Contents()
    {
      RecordsAre(file, r);
    }

    /** Range and liveness checks shared by reading, updating and deleting.  The source compares
        signed offsets with unsigned counts, so that negative offsets are out of range too. */
    method Check(r: Rid) returns (e: Result<(), TableError>)
      requires Valid() && r.page != 0
      ensures e.Ok? <==> r in Contents()
      ensures e.Ok? ==> r.page in pages && 0 <= r.slot < slotCountPerPage
      ensures e == Err(RecordNotFound) <==>
                1 <= r.page < pageCount && 0 <= r.slot < slotCountPerPage && r !in Contents()
      ensures e.Err? ==> e.error != RecordSlotUsageBitmapCorrupt
    {
      hide *;
      PageFacts(r.page);
      if r.page < 0 || r.page >= pageCount || r.slot < 0 || r.slot >= slotCountPerPage {
        OutOfRangeIsDead(r);
        return Err(RecordOffsetOutOfRange);
      }
      assert r == Rid(r.page, r.slot);
      if !pages[r.page].bitmap[r.slot] {
        return Err(RecordNotFound);
      }
      return Ok(());
    }

    method GetRecord(r: Rid) returns (x: Result<Row, TableError>)
      requires Valid() && r.page != 0
      ensures r in Contents() ==> x == Ok(Contents()[r])
      ensures r !in Contents() ==> x.Err? && x.error != RecordSlotUsageBitmapCorrupt
      ensures x == Err(RecordNotFound) <==>
                1 <= r.page < pageCount && 0 <= r.slot < slotCountPerPage && r !in Contents()
    {
      hide *;
      var e := Check(r);
      if e.Err? {
        return Err(e.error);
      }
      PageFacts(r.page);
      assert r == Rid(r.page, r.slot);
      x := Ok(pages[r.page].data[r.slot]);
    }

    /** Stores x at an offset that was free and returns it; no other record moves or changes.  It is the first free slot
        of a page that has one; a page is added exactly when no slot is free. */
    method InsertRecord(x: Row) returns (r: Result<Rid, TableError>)
      requires Valid()
      modifies this, repr
      ensures Valid() && fresh(repr - old(repr))
      ensures r.Ok? && r.value !in old(Contents()) && 1 <= r.value.page <= old(pageCount)
      ensures 0 <= r.value.slot < slotCountPerPage
      ensures Contents() == old(Contents())[r.value := x]
      ensures recordCount == old(recordCount) + 1
      ensures pageCount == if r.value.page == old(pageCount) then old(pageCount) + 1 else old(pageCount)
      ensures r.value.page == old(pageCount) <==>
                forall q: Rid :: 1 <= q.page < old(pageCount) && 0 <= q.slot < slotCountPerPage ==> q in old(Contents())
      ensures forall s :: 0 <= s < r.value.slot ==> Rid(r.value.page, s) in old(Contents())
    {
      if firstFreePage == -1 {  // no available pages
        var p := InsertFresh(x);
        return Ok(Rid(p, 0));
      }
      r := InsertFree(x);
    }

    method InsertFresh(x: Row) returns (p: int)
      requires Valid() && firstFreePage == -1
      modifies this, repr
      ensures Valid() && fresh(repr - old(repr))
      ensures 1 <= p == old(pageCount) && 0 < slotCountPerPage && Rid(p, 0) !in old(Contents())
      ensures Contents() == old(Contents())[Rid(p, 0) := x]
      ensures recordCount == old(recordCount) + 1 && pageCount == old(pageCount) + 1
      ensures forall q: Rid :: 1 <= q.page < old(pageCount) && 0 <= q.slot < slotCountPerPage ==> q in old(Contents())
    {
      hide *;
      p := pageCount;
      PageFacts(p);
      AllTaken();
      NoFreePages();
      ghost var f := file;
      var page := new DataPage(slotCountPerPage, x);
      ghost var d := page.View().data;
      PageData(page);
      page.Start(x);
      AttachPage(p, page);
      firstFreePage, pageCount, recordCount, free := p, pageCount + 1, recordCount + 1, [p];
      InsertFreshConsistent(f, p, old(recordCount), slotCountPerPage, d, x);
      Restored();
    }

    lemma PageData(page: DataPage)
      ensures |page.View().data| == page.data.Length
    {
    }

    lemma AllTaken()
      requires Valid() && firstFreePage == -1
      ensures forall q: Rid :: 1 <= q.page < pageCount && 0 <= q.slot < slotCountPerPage ==> q in Contents()
    {
      forall q: Rid | 1 <= q.page < pageCount && 0 <= q.slot < slotCountPerPage ensures q in Contents() {
        FullWithoutFree(file, pageCount, recordCount, slotCountPerPage, free, q);
      }
    }

    lemma TakenFirst(p: int)
      requires Valid() && p in file
      ensures forall s :: 0 <= s < FirstClear(file[p].bits) && s < slotCountPerPage ==> Rid(p, s) in Contents()
    {
      forall s | 0 <= s < FirstClear(file[p].bits) && s < slotCountPerPage ensures Rid(p, s) in Contents() {
        TakenBelow(file, p, pageCount, recordCount, firstFreePage, slotCountPerPage, free, s);
      }
    }

    lemma NoFreePages()
      requires Valid() && firstFreePage == -1
      ensures free == [] && pageCount !in file && pageCount >= 1 && 2 <= slotCountPerPage <= MAX_SLOTS == 512
    {
      FirstIsFree(file, firstFreePage, free, slotCountPerPage);
    }

    lemma Restored()
      requires FileOk() && Consistent(file, firstFreePage, pageCount, recordCount, slotCountPerPage, free)
      ensures Valid() && Contents() == Records(file)
    {
    }

    method AttachPage(p: int, page: DataPage)
      requires FileOk() && p !in pages && page !in repr && page.bitmap !in repr && page.data !in repr
      requires page.bitmap.Length == MAX_SLOTS && page.data.Length == slotCountPerPage
      modifies `pages, `repr, `file
      ensures FileOk() && repr == old(repr) + {page, page.bitmap, page.data}
      ensures file == old(file)[p := page.View()]
    {
      AddOwned(pages, repr, slotCountPerPage, p, page);
      pages := pages[p := page];
      repr := repr + {page, page.bitmap, page.data};
      file := file[p := page.View()];
      ViewFrame(page);
      forall q | q in pages && q != p ensures file[q] == pages[q].View() {
        ViewFrame(pages[q]);
      }
    }

    method FillPage(p: int, slot: nat, x: Row)
      requires FileOk() && p in pages && slot < MAX_SLOTS && slot < slotCountPerPage
      modifies `file, repr
      ensures FileOk() && slot < |old(file)[p].bits| && slot < |old(file)[p].data|
      ensures file == old(file)[p := FilledPage(old(file)[p], slot, x)]
    {
      hide FilledPage;
      pages[p].Fill(slot, x);
      label Written:
      file := file[p := pages[p].View()];
      ViewFrame@Written(pages[p]);
      forall q | q in pages && q != p ensures file[q] == pages[q].View() {
        ViewFrame(pages[q]);
      }
    }

    method InsertFree(x: Row) returns (r: Result<Rid, TableError>)
      requires Valid() && firstFreePage != -1
      modifies this, repr
      ensures Valid() && repr == old(repr)
      ensures r.Ok? && r.value !in old(Contents()) && 1 <= r.value.page <= old(pageCount)
      ensures 0 <= r.value.slot < slotCountPerPage
      ensures Contents() == old(Contents())[r.value := x]
      ensures recordCount == old(recordCount) + 1 && pageCount == old(pageCount) && r.value.page < pageCount
      ensures forall s :: 0 <= s < r.value.slot ==> Rid(r.value.page, s) in old(Contents())
    {
      hide *;
      var p := firstFreePage;
      PageFacts(p);
      ghost var f := file;
      InsertFreeConsistent(f, p, pageCount, recordCount, slotCountPerPage, free, x);
      FilesHere(p);
      TakenFirst(p);
      var slot := pages[p].FindSlot();
      PageBits(p);
      if slot < MAX_SLOTS {
        FillPage(p, slot, x);
        recordCount := recordCount + 1;
        PageHere(p);
        FilledFields(f[p], slot, x);
        if pages[p].recordCount == slotCountPerPage {
          firstFreePage := pages[p].nextFreePage;
          free := free[1..];
        }
        Restored();
        return Ok(Rid(p, slot));
      }
      // not reached: a page of the free list has a clear slot
      return Err(RecordSlotUsageBitmapCorrupt);
    }

    lemma FilesHere(p: int)
      requires Valid() && p in file
      ensures p in pages && 1 <= p < pageCount
    {
    }

    lemma PageBits(p: int)
      requires FileOk() && p in pages && p in file
      ensures pages[p].bitmap[..] == file[p].bits
    {
    }

    lemma PageHere(p: int)
      requires FileOk() && p in pages
      ensures p in file && pages[p].recordCount == file[p].count && pages[p].nextFreePage == file[p].next
    {
    }

    lemma FilledFields(v: PageView<Row>, s: nat, x: Row)
      requires s < |v.bits| && s < |v.data|
      ensures FilledPage(v, s, x).next == v.next
    {
    }

    /** Removes a live record; fails otherwise, changing nothing. */
    method DeleteRecord(r: Rid) returns (e: Result<(), TableError>)
      requires Valid() && r.page != 0
      modifies this, repr
      ensures Valid() && repr == old(repr)
      ensures e.Ok? <==> r in old(Contents())
      ensures Contents() == if e.Ok? then old(Contents()) - {r} else old(Contents())
      ensures recordCount == (if e.Ok? then old(recordCount) - 1 else old(recordCount)) && pageCount == old(pageCount)
    {
      hide *;
      e := Check(r);
      if e.Err? {
        return;
      }
      PageFacts(r.page);
      assert r == Rid(r.page, r.slot);
      ghost var f := file;
      DeleteConsistent(f, firstFreePage, pageCount, recordCount, slotCountPerPage, free, r);
      SomeRecord(r);
      PageHere(r.page);
      var full := pages[r.page].recordCount == slotCountPerPage;
      ClearPage(r.page, r.slot);
      if full {
        firstFreePage := r.page;
        free := [r.page] + free;
      }
      recordCount := recordCount - 1;
      Restored();
    }

    lemma SomeRecord(r: Rid)
      requires Valid() && r in Contents()
      ensures recordCount >= 1
    {
      hide *;
      OffsetsExact();
      assert r in Offsets();
    }

    method ClearPage(p: int, slot: nat)
      requires FileOk() && p in pages && slot < MAX_SLOTS
      modifies `file, repr
      ensures FileOk() && slot < |old(file)[p].bits|
      ensures file == old(file)[p := ClearedPage(old(file)[p], slot, slotCountPerPage, firstFreePage)]
    {
      hide ClearedPage;
      pages[p].Clear(slot, slotCountPerPage, firstFreePage);
      label Written:
      file := file[p := pages[p].View()];
      ViewFrame@Written(pages[p]);
      forall q | q in pages && q != p ensures file[q] == pages[q].View() {
        ViewFrame(pages[q]);
      }
    }

    /** Rewrites a live record in place; fails otherwise, changing nothing. */
    method UpdateRecord(r: Rid, update: Row -> Row) returns (e: Result<(), TableError>)
      requires Valid() && r.page != 0
      modifies this, repr
      ensures Valid() && repr == old(repr)
      ensures e.Ok? <==> r in old(Contents())
      ensures Contents() == if r in old(Contents()) then old(Contents())[r := update(old(Contents())[r])]
          else old(Contents())
      ensures recordCount == old(recordCount)
    {
      hide *;
      e := Check(r);
      if e.Err? {
        return;
      }
      PageFacts(r.page);
      assert r == Rid(r.page, r.slot);
      UpdateConsistent(file, firstFreePage, pageCount, recordCount, slotCountPerPage, free, r,
          update(pages[r.page].data[r.slot]));
      WriteData(r.page, r.slot, update(pages[r.page].data[r.slot]));
      Restored();
    }

    method WriteData(p: int, slot: nat, x: Row)
      requires FileOk() && p in pages && slot < slotCountPerPage
      modifies `file, repr
      ensures FileOk() && slot < |old(file)[p].data|
      ensures file == old(file)[p := old(file)[p].(data := old(file)[p].data[slot := x])]
    {
      pages[p].data[slot] := x;
      assert pages[p].data[..] == old(pages[p].data[..])[slot := x];
      label Written:
      file := file[p := pages[p].View()];
      ViewFrame@Written(pages[p]);
      forall q | q in pages && q != p ensures file[q] == pages[q].View() {
        ViewFrame(pages[q]);
      }
    }

    /** The first live slot of a page from initSlot on, else the slot count or more. */
    method ScanPage(page: int, initSlot: nat) returns (slot: nat)
      requires Valid() && 1 <= page < pageCount
      ensures slot < slotCountPerPage ==> Live(file, Rid(page, slot))
      ensures LiveFrom(file, pageCount, slotCountPerPage, page, initSlot) ==
              if slot < slotCountPerPage
              then [Rid(page, slot)] + LiveFrom(file, pageCount, slotCountPerPage, page, slot + 1)
              else LiveFrom(file, pageCount, slotCountPerPage, page + 1, 0)
    {
      hide *;
      PageFacts(page);
      slot := initSlot;
      while slot < slotCountPerPage
        invariant LiveFrom(file, pageCount, slotCountPerPage, page, slot) ==
                  LiveFrom(file, pageCount, slotCountPerPage, page, initSlot)
        decreases slotCountPerPage - slot
      {
        LiveStep(file, pageCount, slotCountPerPage, page, slot);
        if pages[page].bitmap[slot] {
          return;
        }
        slot := slot + 1;
      }
      LiveStep(file, pageCount, slotCountPerPage, page, slot);
    }

    /** The first live record from the given place on. */
    method NextFrom(initPage: int, initSlot: nat) returns (r: Rid)
      requires Valid() && initPage >= 1
      ensures StepsTo(file, pageCount, slotCountPerPage, initPage, initSlot, r)
    {
      hide *;
      ghost var rest := LiveFrom(file, pageCount, slotCountPerPage, initPage, initSlot);
      var page, first := initPage, initSlot;
      while page < pageCount
        invariant page >= 1
        invariant LiveFrom(file, pageCount, slotCountPerPage, page, first) == rest
        decreases pageCount - page
      {
        var slot := ScanPage(page, first);
        if slot < slotCountPerPage {
          r := Rid(page, slot);
          StepTaken(file, pageCount, slotCountPerPage, initPage, initSlot, r);
          return;
        }
        first := 0;
        page := page + 1;
      }
      LiveStep(file, pageCount, slotCountPerPage, page, first);
      StepEnd(file, pageCount, slotCountPerPage, initPage, initSlot);
      r := Rid(-1, -1);
    }

    /** The next live record behind rid, in page and slot order. */
    method NextRecordOffset(rid: Rid) returns (r: Rid)
      requires Valid() && (rid == NO_RID || (rid.page >= 1 && rid.slot >= -1))
      ensures rid == NO_RID ==> r == NO_RID
      ensures rid != NO_RID ==> StepsTo(file, pageCount, slotCountPerPage, rid.page, rid.slot + 1, r)
    {
      if rid.page == -1 {
        return NO_RID;
      }
      r := StepOver(rid);
    }

    method StepOver(rid: Rid) returns (r: Rid)
      requires Valid() && rid.page >= 1 && rid.slot >= -1
      ensures StepsTo(file, pageCount, slotCountPerPage, rid.page, rid.slot + 1, r)
    {
      hide *;
      var initSlot := rid.slot + 1;
      var initPage := rid.page;
      if initSlot > slotCountPerPage {
        SlotsRunOut(initPage, initSlot);
        initSlot := 0;
        initPage := initPage + 1;
      }
      r := NextFrom(initPage, initSlot);
      SameStep(file, pageCount, slotCountPerPage, rid.page, rid.slot + 1, initPage, initSlot, r);
    }

    lemma SlotsRunOut(p: int, s: nat)
      requires s >= slotCountPerPage
      ensures LiveFrom(file, pageCount, slotCountPerPage, p, s) == LiveFrom(file, pageCount, slotCountPerPage, p + 1, 0)
    {
      LiveStep(file, pageCount, slotCountPerPage, p, s);
      LiveStep(file, pageCount, slotCountPerPage, p + 1, 0);
    }

    method RecordOffsetBegin() returns (r: Rid)
      requires Valid()
      ensures StepsTo(file, pageCount, slotCountPerPage, 1, 0, r)
    {
      r := NextRecordOffset(Rid(1, -1));
    }

    /** The live offsets in order: what iterating from the begin visits. */
    ghost function Offsets(): seq<Rid>
      reads this
    {
      LiveFrom(file, pageCount, slotCountPerPage, 1, 0)
    }

    /** What an iteration that stands at r has still to visit. */
    ghost function Rest(r: Rid): seq<Rid>
      reads this
    {
      if r.page < 1 || r.slot < 0 then [] else [r] + LiveFrom(file, pageCount, slotCountPerPage, r.page, r.slot + 1)
    }

    lemma RestFrom(p: int, s: nat, r: Rid)
      requires Valid() && StepsTo(file, pageCount, slotCountPerPage, p, s, r)
      ensures LiveFrom(file, pageCount, slotCountPerPage, p, s) == Rest(r)
      ensures r == NO_RID || (r in Contents() && r.page >= 1 && r.slot >= 0)
    {
      if r != NO_RID { RecordsAre(file, r); }
    }

    /** The iteration visits exactly the live records, each once, in page and slot order, and the
        header counts them. */
    lemma OffsetsExact()
      requires Valid()
      ensures recordCount == |Offsets()|
      ensures forall r :: r in Offsets() <==> r in Contents()
      ensures forall i, j :: 0 <= i < j < |Offsets()| ==> RidBefore(Offsets()[i], Offsets()[j])
    {
      LiveFromExact(file, pageCount, slotCountPerPage, 1, 0);
      RecordCountExact(file, firstFreePage, pageCount, recordCount, slotCountPerPage, free);
      forall r: Rid ensures r in Offsets() <==> r in Contents() {
        RecordsAre(file, r);
      }
    }
  }
}
