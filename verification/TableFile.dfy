/** The data pages of a table file (src/record/table.cpp) as values: slot bitmaps, record counts
    and the linked list of pages with free slots. */
module TableFiles {

  import opened Sizes

  /** A record offset; (-1, -1) is the end. */
  datatype Rid = Rid(page: int, slot: int)

  const NO_RID := Rid(-1, -1)

  datatype PageView<T> = PageView(count: int, next: int, bits: seq<bool>, data: seq<T>)

  type PageFile<T> = map<int, PageView<T>>

  function Ones(bits: seq<bool>): nat {
    if bits == [] then 0 else (if bits[0] then 1 else 0) + Ones(bits[1..])
  }

  lemma {:induction false} OnesSet(bits: seq<bool>, i: nat, b: bool)
    requires i < |bits|
    ensures Ones(bits[i := b]) == Ones(bits) + (if b then 1 else 0) - (if bits[i] then 1 else 0)
  {
    if i > 0 {
      OnesSet(bits[1..], i - 1, b);
      assert bits[i := b][1..] == bits[1..][i - 1 := b];
    } else {
      assert bits[i := b][1..] == bits[1..];
    }
  }

  lemma {:induction false} OnesAllSet(bits: seq<bool>, n: nat)
    requires n <= |bits| && forall i :: 0 <= i < n ==> bits[i]
    ensures Ones(bits) >= n
  {
    if n > 0 { OnesAllSet(bits[1..], n - 1); }
  }

  lemma {:induction false} OnesBound(bits: seq<bool>, n: nat)
    requires n <= |bits| && forall i :: n <= i < |bits| ==> !bits[i]
    ensures Ones(bits) <= n
  {
    if bits != [] {
      if n > 0 {
        OnesBound(bits[1..], n - 1);
      } else {
        OnesBound(bits[1..], 0);
      }
    }
  }

  /** The first clear bit, or |bits|. */
  function FirstClear(bits: seq<bool>): (i: nat)
    ensures i <= |bits|
    ensures forall j :: 0 <= j < i ==> bits[j]
    ensures i < |bits| ==> !bits[i]
  {
    if bits == [] || !bits[0] then 0 else 1 + FirstClear(bits[1..])
  }

  lemma FirstClearUnique(bits: seq<bool>, i: nat)
    requires i <= |bits| && (forall j :: 0 <= j < i ==> bits[j]) && (i < |bits| ==> !bits[i])
    ensures i == FirstClear(bits)
  {
  }

  // ---------------------------------------------------------------- invariant

  ghost predicate PageOk<T>(v: PageView<T>, slots: nat) {
    && |v.bits| == MAX_SLOTS && |v.data| == slots
    && v.count == Ones(v.bits)
    && forall s :: slots <= s < MAX_SLOTS ==> !v.bits[s]
  }

  ghost function Total<T>(f: PageFile<T>, n: int): int
    requires forall p :: 1 <= p < n ==> p in f
    decreases n
  {
    if n <= 1 then 0 else Total(f, n - 1) + f[n - 1].count
  }

  ghost function LinkAfter(free: seq<int>, i: nat): int
    requires i <= |free|
  {
    if i < |free| then free[i] else -1
  }

  /** The next links starting at `first` run through exactly the pages with a free slot, each once. */
  ghost predicate FreeList<T>(f: PageFile<T>, first: int, free: seq<int>, slots: nat) {
    && first == LinkAfter(free, 0)
    && (forall i :: 0 <= i < |free| ==> free[i] in f && f[free[i]].next == LinkAfter(free, i + 1))
    && (forall i, j :: 0 <= i < j < |free| ==> free[i] != free[j])
    && (forall p :: p in f ==> (p in free <==> f[p].count < slots))
  }

  ghost predicate Consistent<T>(f: PageFile<T>, first: int, pageCount: int, recordCount: int, slots: nat,
                                free: seq<int>) {
    && pageCount >= 1
    && 2 <= slots <= MAX_SLOTS
    && (forall p :: p in f <==> 1 <= p < pageCount)
    && (forall p :: p in f ==> PageOk(f[p], slots))
    && recordCount == Total(f, pageCount)
    && FreeList(f, first, free, slots)
  }

  predicate Live<T>(f: PageFile<T>, r: Rid) {
    r.page in f && 0 <= r.slot < |f[r.page].bits| && r.slot < |f[r.page].data| && f[r.page].bits[r.slot]
  }

  ghost function Record<T>(f: PageFile<T>, r: Rid): T
    requires Live(f, r)
  {
    f[r.page].data[r.slot]
  }

  /** The map from record offset to record that the file stands for. */
  ghost function Records<T>(f: PageFile<T>): map<Rid, T> {
    map p, s | p in f && 0 <= s < |f[p].data| && Live(f, Rid(p, s)) :: Rid(p, s) := f[p].data[s]
  }

  lemma RecordsAre<T>(f: PageFile<T>, r: Rid)
    ensures r in Records(f) <==> Live(f, r)
    ensures Live(f, r) ==> Records(f)[r] == Record(f, r)
  {
    if Live(f, r) { assert Rid(r.page, r.slot) == r; }
  }

  // ---------------------------------------------------------------- steps

  /** A new page with the record in slot 0; the other slots hold whatever was there. */
  function FreshPage<T>(data: seq<T>, x: T): PageView<T>
    requires |data| > 0
  {
    PageView(1, -1, seq(MAX_SLOTS, i => i == 0), data[0 := x])
  }

  function FilledPage<T>(v: PageView<T>, s: nat, x: T): PageView<T>
    requires s < |v.bits| && s < |v.data|
  {
    PageView(v.count + 1, v.next, v.bits[s := true], v.data[s := x])
  }

  /** A page after a deletion; a page that was full is put in front of the free list. */
  function ClearedPage<T>(v: PageView<T>, s: nat, slots: nat, first: int): PageView<T>
    requires s < |v.bits|
  {
    PageView(v.count - 1, if v.count == slots then first else v.next, v.bits[s := false], v.data)
  }

  lemma {:induction false} OnesOfFresh(n: nat)
    requires n > 0
    ensures Ones(seq(n, i => i == 0)) == 1
  {
    var b := seq(n, i => i == 0);
    OnesBound(b, 1);
    OnesAllSet(b, 1);
  }

  lemma {:induction false} TotalFrame<T>(f: PageFile<T>, g: PageFile<T>, n: int)
    requires forall p :: 1 <= p < n ==> p in f && p in g && g[p].count == f[p].count
    ensures Total(g, n) == Total(f, n)
    decreases n
  {
    if n > 1 { TotalFrame(f, g, n - 1); }
  }

  lemma {:induction false} TotalUpdate<T>(f: PageFile<T>, p: int, v: PageView<T>, n: int)
    requires (forall q :: 1 <= q < n ==> q in f) && 1 <= p < n
    ensures Total(f[p := v], n) == Total(f, n) + v.count - f[p].count
    decreases n
  {
    if p == n - 1 {
      TotalFrame(f, f[p := v], n - 1);
    } else {
      TotalUpdate(f, p, v, n - 1);
    }
  }

  /** A page that is not full has a clear slot, and the first one is a real slot. */
  lemma FreeSlotFound<T>(v: PageView<T>, slots: nat)
    requires PageOk(v, slots) && v.count < slots <= MAX_SLOTS
    ensures FirstClear(v.bits) < slots
  {
    if FirstClear(v.bits) >= slots { OnesAllSet(v.bits, slots); }
  }

  lemma CountBound<T>(v: PageView<T>, slots: nat)
    requires PageOk(v, slots) && slots <= MAX_SLOTS
    ensures 0 <= v.count <= slots
  {
    OnesBound(v.bits, slots);
  }

  lemma RecordsFrom<T>(f: PageFile<T>, m: map<Rid, T>)
    requires forall q :: q in m ==> Live(f, q) && m[q] == Record(f, q)
    requires forall q :: Live(f, q) ==> q in m
    ensures Records(f) == m
  {
    forall q: Rid ensures q in Records(f) <==> q in m {
      RecordsAre(f, q);
    }
    forall q | q in m ensures Records(f)[q] == m[q] {
      RecordsAre(f, q);
    }
    hide Records, Live, Record;
    assert Records(f).Keys == m.Keys;
  }

  lemma UpdatedRecords<T>(f: PageFile<T>, r: Rid, v: PageView<T>, x: T)
    requires r.page in f && 0 <= r.slot < |f[r.page].bits| && r.slot < |f[r.page].data|
    requires v.bits == f[r.page].bits[r.slot := true] && v.data == f[r.page].data[r.slot := x]
    ensures Records(f[r.page := v]) == Records(f)[r := x]
  {
    var g, m := f[r.page := v], Records(f)[r := x];
    forall q: Rid ensures (q in m <==> Live(g, q)) && (q in m ==> m[q] == Record(g, q)) {
      RecordsAre(f, q);
    }
    RecordsFrom(g, m);
  }

  lemma RemovedRecords<T>(f: PageFile<T>, r: Rid, v: PageView<T>)
    requires r.page in f && 0 <= r.slot < |f[r.page].bits|
    requires v.bits == f[r.page].bits[r.slot := false] && v.data == f[r.page].data
    ensures Records(f[r.page := v]) == Records(f) - {r}
  {
    var g, m := f[r.page := v], Records(f) - {r};
    forall q: Rid ensures (q in m <==> Live(g, q)) && (q in m ==> m[q] == Record(g, q)) {
      RecordsAre(f, q);
    }
    RecordsFrom(g, m);
  }

  lemma AddedRecords<T>(f: PageFile<T>, p: int, data: seq<T>, x: T)
    requires p !in f && |data| > 0
    ensures Records(f[p := FreshPage(data, x)]) == Records(f)[Rid(p, 0) := x]
  {
    hide *;
    var g, m := f[p := FreshPage(data, x)], Records(f)[Rid(p, 0) := x];
    forall q: Rid ensures (q in m <==> Live(g, q)) && (q in m ==> m[q] == Record(g, q)) {
      RecordsAre(f, q);
      FreshRecord(f, p, data, x, q);
    }
    RecordsFrom(g, m);
  }

  lemma NoRecords<T>()
    ensures Records<T>(map[]) == map[]
  {
    RecordsFrom<T>(map[], map[]);
  }

  lemma FreshRecord<T>(f: PageFile<T>, p: int, data: seq<T>, x: T, q: Rid)
    requires p !in f && |data| > 0
    ensures var g := f[p := FreshPage(data, x)];
            && (Live(g, q) <==> Live(f, q) || q == Rid(p, 0))
            && (Live(g, q) ==> Record(g, q) == if q == Rid(p, 0) then x else Record(f, q))
  {
  }

  lemma SetPage<T>(f: PageFile<T>, first: int, pageCount: int, recordCount: int, slots: nat, free: seq<int>,
                   p: int, v: PageView<T>, first': int, free': seq<int>)
    requires Consistent(f, first, pageCount, recordCount, slots, free) && p in f
    requires PageOk(v, slots) && FreeList(f[p := v], first', free', slots)
    ensures Consistent(f[p := v], first', pageCount, recordCount + v.count - f[p].count, slots, free')
  {
    hide FreeList, PageOk;
    TotalUpdate(f, p, v, pageCount);
  }

  lemma AddPage<T>(f: PageFile<T>, pageCount: int, recordCount: int, slots: nat, v: PageView<T>)
    requires Consistent(f, -1, pageCount, recordCount, slots, []) && PageOk(v, slots) && v.count < slots && v.next == -1
    ensures Consistent(f[pageCount := v], pageCount, pageCount + 1, recordCount + v.count, slots, [pageCount])
  {
    var g := f[pageCount := v];
    TotalFrame(f, g, pageCount);
    assert FreeList(g, pageCount, [pageCount], slots) by {
      forall p | p in g ensures p in [pageCount] <==> g[p].count < slots {
        if p != pageCount { assert p !in [] && p in f; }
      }
    }
    hide FreeList, PageOk;
  }

  /** Inserting into a new page, when no page has a free slot. */
  lemma InsertFreshConsistent<T>(f: PageFile<T>, pageCount: int, recordCount: int, slots: nat, data: seq<T>, x: T)
    requires Consistent(f, -1, pageCount, recordCount, slots, []) && |data| == slots
    ensures Consistent(f[pageCount := FreshPage(data, x)], pageCount, pageCount + 1, recordCount +
        1, slots, [pageCount])
    ensures Rid(pageCount, 0) !in Records(f)
    ensures Records(f[pageCount := FreshPage(data, x)]) == Records(f)[Rid(pageCount, 0) := x]
  {
    assert pageCount !in f && 2 <= slots <= MAX_SLOTS;
    RecordsAre(f, Rid(pageCount, 0));
    hide Records, FreshPage, PageOk, Consistent;
    FreshPageOk(data, x);
    AddPage(f, pageCount, recordCount, slots, FreshPage(data, x));
    AddedRecords(f, pageCount, data, x);
  }

  lemma FreshPageOk<T>(data: seq<T>, x: T)
    requires 0 < |data| <= MAX_SLOTS
    ensures var v := FreshPage(data, x); PageOk(v, |data|) && v.count == 1 && v.next == -1
  {
    OnesOfFresh(MAX_SLOTS);
  }

  lemma FreePage<T>(f: PageFile<T>, p: int, pageCount: int, recordCount: int, slots: nat, free: seq<int>)
    requires Consistent(f, p, pageCount, recordCount, slots, free) && p != -1
    ensures p in f && FirstClear(f[p].bits) < slots == |f[p].data| <= |f[p].bits| && free != [] && slots <= MAX_SLOTS
    ensures PageOk(f[p], slots) && FreeList(f, p, free, slots) && f[p].count < slots
    ensures Rid(p, FirstClear(f[p].bits)) !in Records(f)
  {
    assert free != [] && p == free[0];
    FreeSlotFound(f[p], slots);
    RecordsAre(f, Rid(p, FirstClear(f[p].bits)));
  }

  /** Inserting into the first page of the free list; the page leaves the list when it is full. */
  lemma InsertFreeConsistent<T>(f: PageFile<T>, p: int, pageCount: int, recordCount: int, slots: nat, free: seq<int>,
                                x: T)
    requires Consistent(f, p, pageCount, recordCount, slots, free) && p != -1
    ensures p in f && FirstClear(f[p].bits) < slots && slots == |f[p].data| <= |f[p].bits| && free != []
    ensures var s := FirstClear(f[p].bits);
            var v := FilledPage(f[p], s, x);
            && Consistent(f[p := v], if v.count == slots then v.next else p, pageCount, recordCount + 1, slots,
                          if v.count == slots then free[1..] else free)
            && Rid(p, s) !in Records(f)
            && Records(f[p := v]) == Records(f)[Rid(p, s) := x]
  {
    FreePage(f, p, pageCount, recordCount, slots, free);
    hide Records, FreeList, PageOk, Consistent;
    var s := FirstClear(f[p].bits);
    var v := FilledPage(f[p], s, x);
    FilledPageOk(f[p], s, x, slots);
    FillFreeList(f, p, v, slots, free);
    SetPage(f, p, pageCount, recordCount, slots, free, p, v, if v.count == slots then v.next else p,
            if v.count == slots then free[1..] else free);
    UpdatedRecords(f, Rid(p, s), v, x);
  }

  lemma FilledPageOk<T>(v: PageView<T>, s: nat, x: T, slots: nat)
    requires PageOk(v, slots) && s < slots <= MAX_SLOTS && !v.bits[s]
    ensures PageOk(FilledPage(v, s, x), slots)
  {
    OnesSet(v.bits, s, true);
  }

  lemma FillFreeList<T>(f: PageFile<T>, p: int, v: PageView<T>, slots: nat, free: seq<int>)
    requires FreeList(f, p, free, slots) && p != -1 && p in f && f[p].count < slots
    requires v.count == f[p].count + 1 && v.next == f[p].next
    ensures free != []
    ensures FreeList(f[p := v], if v.count == slots then v.next else p, if v.count == slots then free[1..]
        else free, slots)
  {
    var g := f[p := v];
    assert p == free[0];
    if v.count == slots {
      var rest := free[1..];
      forall i | 0 <= i < |rest| ensures rest[i] in g && g[rest[i]].next == LinkAfter(rest, i + 1) {
        assert rest[i] == free[i + 1] && free[0] != free[i + 1];
        assert LinkAfter(free, i + 2) == LinkAfter(rest, i + 1);
      }
      forall q | q in g ensures q in rest <==> g[q].count < slots {
        if q == p {
          assert p !in rest;
        } else {
          assert q in free <==> q in rest;
        }
      }
    } else {
      forall i | 0 <= i < |free| ensures free[i] in g && g[free[i]].next == LinkAfter(free, i + 1) {
        assert f[free[i]].next == LinkAfter(free, i + 1);
      }
    }
  }

  lemma LivePage<T>(f: PageFile<T>, first: int, pageCount: int, recordCount: int, slots: nat, free: seq<int>, r: Rid)
    requires Consistent(f, first, pageCount, recordCount, slots, free) && Live(f, r)
    ensures r.page in f && 0 <= r.slot < slots == |f[r.page].data| <= |f[r.page].bits| && slots <= MAX_SLOTS
    ensures f[r.page].bits[r.slot] && f[r.page].count <= slots
    ensures PageOk(f[r.page], slots) && FreeList(f, first, free, slots) && r in Records(f)
  {
    CountBound(f[r.page], slots);
    RecordsAre(f, r);
  }

  lemma ClearedPageOk<T>(v: PageView<T>, s: nat, slots: nat, first: int)
    requires PageOk(v, slots) && s < slots <= MAX_SLOTS && v.bits[s]
    ensures PageOk(ClearedPage(v, s, slots, first), slots)
  {
    OnesSet(v.bits, s, false);
  }

  /** Deleting a record; a page that was full joins the free list at its front. */
  lemma DeleteConsistent<T>(f: PageFile<T>, first: int, pageCount: int, recordCount: int, slots: nat, free: seq<int>,
                            r: Rid)
    requires Consistent(f, first, pageCount, recordCount, slots, free) && Live(f, r)
    ensures var v := ClearedPage(f[r.page], r.slot, slots, first);
            && Consistent(f[r.page := v], if f[r.page].count == slots then r.page
                 else first, pageCount, recordCount - 1, slots,
                          if f[r.page].count == slots then [r.page] + free else free)
            && r in Records(f)
            && Records(f[r.page := v]) == Records(f) - {r}
  {
    LivePage(f, first, pageCount, recordCount, slots, free, r);
    hide Records, FreeList, PageOk, Consistent;
    var v := ClearedPage(f[r.page], r.slot, slots, first);
    ClearedPageOk(f[r.page], r.slot, slots, first);
    ClearFreeList(f, first, r.page, v, slots, free);
    SetPage(f, first, pageCount, recordCount, slots, free, r.page, v, if f[r.page].count == slots then r.page
        else first,
            if f[r.page].count == slots then [r.page] + free else free);
    RemovedRecords(f, r, v);
  }

  lemma ClearFreeList<T>(f: PageFile<T>, first: int, p: int, v: PageView<T>, slots: nat, free: seq<int>)
    requires FreeList(f, first, free, slots) && p in f && f[p].count <= slots
    requires v.count == f[p].count - 1 && v.next == if f[p].count == slots then first else f[p].next
    ensures FreeList(f[p := v], if f[p].count == slots then p else first, if f[p].count == slots then [p] + free
        else free, slots)
  {
    var g := f[p := v];
    if f[p].count == slots {
      var more := [p] + free;
      forall i | 0 <= i < |more| ensures more[i] in g && g[more[i]].next == LinkAfter(more, i + 1) {
        if i > 0 {
          assert more[i] == free[i - 1] && free[i - 1] != p;
          assert LinkAfter(more, i + 1) == LinkAfter(free, i);
        }
      }
      assert p !in free;
    } else {
      forall i | 0 <= i < |free| ensures free[i] in g && g[free[i]].next == LinkAfter(free, i + 1) {
        assert f[free[i]].next == LinkAfter(free, i + 1);
      }
    }
  }

  /** Rewriting a record in place. */
  lemma UpdateConsistent<T>(f: PageFile<T>, first: int, pageCount: int, recordCount: int, slots: nat, free: seq<int>,
                            r: Rid, x: T)
    requires Consistent(f, first, pageCount, recordCount, slots, free) && Live(f, r)
    ensures var v := f[r.page].(data := f[r.page].data[r.slot := x]);
            && Consistent(f[r.page := v], first, pageCount, recordCount, slots, free)
            && r in Records(f)
            && Records(f[r.page := v]) == Records(f)[r := x]
  {
    var v := f[r.page].(data := f[r.page].data[r.slot := x]);
    LivePage(f, first, pageCount, recordCount, slots, free, r);
    assert PageOk(v, slots);
    SameFreeList(f, first, r.page, v, slots, free);
    hide Records, FreeList, PageOk, Consistent;
    SetPage(f, first, pageCount, recordCount, slots, free, r.page, v, first, free);
    assert v.bits == f[r.page].bits[r.slot := true];
    UpdatedRecords(f, r, v, x);
  }

  lemma SameFreeList<T>(f: PageFile<T>, first: int, p: int, v: PageView<T>, slots: nat, free: seq<int>)
    requires FreeList(f, first, free, slots) && p in f && v.count == f[p].count && v.next == f[p].next
    ensures FreeList(f[p := v], first, free, slots)
  {
    forall i | 0 <= i < |free| ensures free[i] in f[p := v] && f[p := v][free[i]].next == LinkAfter(free, i + 1) {
      assert f[free[i]].next == LinkAfter(free, i + 1);
    }
  }

  ghost predicate HasFreeList<T>(f: PageFile<T>, first: int, slots: nat) {
    exists free :: FreeList(f, first, free, slots)
  }

  lemma FirstHasRoom<T>(f: PageFile<T>, first: int, free: seq<int>, slots: nat)
    ensures FreeList(f, first, free, slots) && first in f && first >= 1 ==> f[first].count < slots
  {
    if free != [] { assert free[0] in free; }
  }

  /** With one slot per page the free list does not survive the insertion into a new page: the new page is full, yet
      the source puts it on the list, and the next insertion would take a slot that the page does not have.  In
      whatever state a page is added, the list stays right iff a page has two slots. */
  lemma NewPageKeepsFreeListIff<T>(f: PageFile<T>, n: int, slots: nat, data: seq<T>, x: T)
    requires FreeList(f, -1, [], slots) && n >= 1 && n !in f && 1 <= slots <= MAX_SLOTS && |data| == slots
    ensures HasFreeList(f[n := FreshPage(data, x)], n, slots) <==> slots >= 2
    ensures FirstClear(FreshPage(data, x).bits) < slots <==> slots >= 2
  {
    var g := f[n := FreshPage(data, x)];
    FirstClearUnique(FreshPage(data, x).bits, 1);
    if slots >= 2 {
      assert FreeList(g, n, [n], slots) by {
        forall p | p in g ensures p in [n] <==> g[p].count < slots {
          if p != n { assert p !in [] && p in f; }
        }
      }
    } else {
      forall free ensures !FreeList(g, n, free, slots) {
        FirstHasRoom(g, n, free, slots);
      }
    }
  }

  /** The first record of a table with one slot per page. */
  lemma OneSlotBreaks<T>(x: T)
    ensures FreeList<T>(map[], -1, [], 1) && !HasFreeList(map[1 := FreshPage([x], x)], 1, 1)
  {
    var f: PageFile<T> := map[];
    NewPageKeepsFreeListIff(f, 1, 1, [x], x);
    assert f[1 := FreshPage([x], x)] == map[1 := FreshPage([x], x)];
  }

  // ---------------------------------------------------------------- iteration

  predicate RidBefore(a: Rid, b: Rid) {
    a.page < b.page || (a.page == b.page && a.slot < b.slot)
  }

  /** The live records from (p, s) on, page by page and slot by slot. */
  ghost function LiveFrom<T>(f: PageFile<T>, n: int, slots: nat, p: int, s: nat): seq<Rid>
    decreases n - p, if p < n && s < slots then slots - s else 0
  {
    if p >= n then []
    else if s >= slots then LiveFrom(f, n, slots, p + 1, 0)
    else if Live(f, Rid(p, s)) then [Rid(p, s)] + LiveFrom(f, n, slots, p, s + 1)
    else LiveFrom(f, n, slots, p, s + 1)
  }

  /** LiveFrom lists every live record at or behind (p, s), each once, in order. */
  lemma {:induction false} LiveFromExact<T>(f: PageFile<T>, n: int, slots: nat, p: int, s: nat)
    requires forall q :: q in f <==> 1 <= q < n
    requires forall q :: q in f ==> |f[q].data| == slots
    requires s <= slots
    ensures var L := LiveFrom(f, n, slots, p, s);
            && (forall r :: r in L <==> Live(f, r) && (p < r.page || (p == r.page && s <= r.slot)))
            && (forall i, j :: 0 <= i < j < |L| ==> RidBefore(L[i], L[j]))
    decreases n - p, if p < n && s < slots then slots - s else 0
  {
    var L := LiveFrom(f, n, slots, p, s);
    if p >= n {
    } else if s >= slots {
      LiveFromExact(f, n, slots, p + 1, 0);
    } else {
      LiveFromExact(f, n, slots, p, s + 1);
      var M := LiveFrom(f, n, slots, p, s + 1);
      if Live(f, Rid(p, s)) {
        assert L == [Rid(p, s)] + M;
        forall i, j | 0 <= i < j < |L| ensures RidBefore(L[i], L[j]) {
          assert M[j - 1] in M;
          if i > 0 { assert RidBefore(M[i - 1], M[j - 1]); }
        }
      }
    }
  }

  /** From (p, s) on there are as many live records as set bits on that page and as the counts of
      the later pages say. */
  lemma {:induction false} LiveFromCount<T>(f: PageFile<T>, n: int, slots: nat, p: int, s: nat)
    requires (forall q :: q in f <==> 1 <= q < n) && (forall q :: q in f ==> PageOk(f[q], slots))
    requires 1 <= p < n && s <= slots <= MAX_SLOTS && |f[p].bits| == MAX_SLOTS
    ensures |LiveFrom(f, n, slots, p, s)| == Ones(f[p].bits[s..]) + Total(f, n) - Total(f, p + 1)
    decreases n - p, slots - s
  {
    var bits := f[p].bits;
    LiveStep(f, n, slots, p, s);
    if s == slots {
      OnesBound(bits[s..], 0);
      LiveStep(f, n, slots, p + 1, 0);
      if p + 1 < n {
        assert p + 1 in f && PageOk(f[p + 1], slots);
        LiveFromCount(f, n, slots, p + 1, 0);
        assert f[p + 1].bits[0..] == f[p + 1].bits;
      }
    } else {
      assert bits[s..][1..] == bits[s + 1..];
      LiveFromCount(f, n, slots, p, s + 1);
      assert bits[s..][0] == bits[s];
    }
  }

  /** The header count is the number of live records. */
  lemma RecordCountExact<T>(f: PageFile<T>, first: int, pageCount: int, recordCount: int, slots: nat, free: seq<int>)
    requires Consistent(f, first, pageCount, recordCount, slots, free)
    ensures recordCount == |LiveFrom(f, pageCount, slots, 1, 0)|
  {
    if pageCount > 1 {
      assert 1 in f && PageOk(f[1], slots);
      LiveFromCount(f, pageCount, slots, 1, 0);
      assert f[1].bits[0..] == f[1].bits;
      assert Total(f, 2) == f[1].count;
    }
  }

  /** The first live record from (p, s) on, and what follows it. */
  ghost predicate StepsTo<T>(f: PageFile<T>, n: int, slots: nat, p: int, s: nat, r: Rid) {
    if r == NO_RID then LiveFrom(f, n, slots, p, s) == []
    else Live(f, r) && r.slot >= 0 && LiveFrom(f, n, slots, p, s) == [r] + LiveFrom(f, n, slots, r.page, r.slot + 1)
  }

  lemma LiveStep<T>(f: PageFile<T>, n: int, slots: nat, p: int, s: nat)
    ensures p >= n ==> LiveFrom(f, n, slots, p, s) == []
    ensures p < n && s >= slots ==> LiveFrom(f, n, slots, p, s) == LiveFrom(f, n, slots, p + 1, 0)
    ensures p < n && s < slots && Live(f, Rid(p, s)) ==>
              LiveFrom(f, n, slots, p, s) == [Rid(p, s)] + LiveFrom(f, n, slots, p, s + 1)
    ensures p < n && s < slots && !Live(f, Rid(p, s)) ==>
              LiveFrom(f, n, slots, p, s) == LiveFrom(f, n, slots, p, s + 1)
  {
    if p + 1 >= n {
      assert LiveFrom(f, n, slots, p + 1, 0) == [];
    }
  }

  lemma StepTaken<T>(f: PageFile<T>, n: int, slots: nat, p: int, s: nat, r: Rid)
    requires Live(f, r) && r.slot >= 0
    requires LiveFrom(f, n, slots, p, s) == [r] + LiveFrom(f, n, slots, r.page, r.slot + 1)
    ensures StepsTo(f, n, slots, p, s, r)
  {
  }

  lemma StepEnd<T>(f: PageFile<T>, n: int, slots: nat, p: int, s: nat)
    requires LiveFrom(f, n, slots, p, s) == []
    ensures StepsTo(f, n, slots, p, s, Rid(-1, -1))
  {
  }

  lemma SameStep<T>(f: PageFile<T>, n: int, slots: nat, p: int, s: nat, q: int, t: nat, r: Rid)
    requires StepsTo(f, n, slots, q, t, r) && LiveFrom(f, n, slots, p, s) == LiveFrom(f, n, slots, q, t)
    ensures StepsTo(f, n, slots, p, s, r)
  {
  }

  lemma FirstIsFree<T>(f: PageFile<T>, first: int, free: seq<int>, slots: nat)
    requires FreeList(f, first, free, slots)
    ensures free == [] || first in f
  {
  }

  // ---------------------------------------------------------------- reuse of slots

  lemma AllSet(bits: seq<bool>, n: nat, i: nat)
    requires i < n <= |bits| && Ones(bits) >= n && forall j :: n <= j < |bits| ==> !bits[j]
    ensures bits[i]
  {
    if !bits[i] {
      OnesSet(bits, i, true);
      OnesBound(bits[i := true], n);
    }
  }

  /** With an empty free list, every slot of every page is taken: a page is added only then. */
  lemma FullWithoutFree<T>(f: PageFile<T>, pageCount: int, recordCount: int, slots: nat, free: seq<int>, r: Rid)
    requires Consistent(f, -1, pageCount, recordCount, slots, free)
    requires 1 <= r.page < pageCount && 0 <= r.slot < slots
    ensures r in Records(f)
  {
    FirstIsFree(f, -1, free, slots);
    assert r.page in f && PageOk(f[r.page], slots) && r.page !in free;
    AllSet(f[r.page].bits, slots, r.slot);
    RecordsAre(f, r);
  }

  /** The slots below the first clear one are taken. */
  lemma TakenBelow<T>(f: PageFile<T>, p: int, pageCount: int, recordCount: int, first: int, slots: nat,
                      free: seq<int>, s: nat)
    requires Consistent(f, first, pageCount, recordCount, slots, free) && p in f && s < FirstClear(f[p].bits)
    requires s < slots
    ensures Rid(p, s) in Records(f)
  {
    assert PageOk(f[p], slots);
    RecordsAre(f, Rid(p, s));
  }
}
