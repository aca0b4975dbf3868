/** The page cache of src/page/page_manager.cpp as a value: its tables, what it stands for, and
    what each step does to it. */
module CacheStates {
  import opened Wrappers
  import opened Sizes

  const MAX_OFFSET := 0x4_0000

  type Bytes = seq<int>

  datatype PageHandle = PageHandle(file: int, offset: int)

  datatype Descriptor = Descriptor(stamp: nat, page: PageHandle, dirty: bool)

  /** Where a page starts in its file: a 32-bit product. */
  function BytePosition(offset: int): int { offset * PAGE_SIZE % TWO32 }

  /** Below 2^18 pages, pages lie one behind the other in the file, from its start. */
  lemma PositionsDiffer(a: int, b: int)
    requires 0 <= a < MAX_OFFSET && 0 <= b < MAX_OFFSET
    ensures BytePosition(a) == 16384 * a
    ensures BytePosition(a) == BytePosition(b) <==> a == b
    ensures a < b ==> BytePosition(a) + PAGE_SIZE <= BytePosition(b)
  {
  }

  /** The first page that overlays page 0. */
  lemma PositionsWrap()
    ensures BytePosition(MAX_OFFSET) == BytePosition(0)
  {
  }

  lemma SomeMember(s: set<int>)
    ensures s == {} || exists h :: h in s
  {
    if forall h :: h !in s { assert s == {}; }
  }

  type Disk = map<string, map<int, Bytes>>

  datatype Cache = Cache(
    now: nat,                          // the next time stamp
    usage: map<nat, int>,              // cache handle by time stamp
    pages: map<PageHandle, int>,       // cache handle by cached page
    descs: seq<Descriptor>,            // descriptor of every cache handle
    data: seq<Bytes>,                  // cached page of every cache handle
    free: seq<int>,                    // stack of free cache handles
    sets: map<int, set<int>>,          // cache handles of every open file
    open: map<int, string>,            // name of every open file
    disk: Disk,                        // the files, by byte position
    pending: set<PageHandle>)          // pages allocated but not yet written

  // ---------------------------------------------------------------- invariant

  ghost predicate InUse(c: Cache, h: int) {
    0 <= h < |c.descs| && c.descs[h].page in c.pages && c.pages[c.descs[h].page] == h
  }

  /** Free handles and handles in use partition all handles. */
  ghost predicate HandlesOk(c: Cache) {
    && |c.descs| == |c.data| > 0
    && (forall i :: 0 <= i < |c.free| ==> 0 <= c.free[i] < |c.descs|)
    && (forall i, j :: 0 <= i < j < |c.free| ==> c.free[i] != c.free[j])
    && (forall p :: p in c.pages ==> 0 <= c.pages[p] < |c.descs| && c.descs[c.pages[p]].page == p)
    && (forall h :: 0 <= h < |c.descs| ==> (h in c.free <==> !InUse(c, h)))
  }

  /** Every handle in use has its own time stamp in the usage table, and no other is there. */
  ghost predicate StampsOk(c: Cache) {
    && (forall h :: 0 <= h < |c.descs| && InUse(c, h) ==> c.descs[h].stamp in c.usage && c.usage[c.descs[h].stamp] == h)
    && (forall t :: t in c.usage ==>
          t < c.now && 0 <= c.usage[t] < |c.descs| && InUse(c, c.usage[t]) && c.descs[c.usage[t]].stamp == t)
  }

  /** Cached pages belong to open files, whose sets hold exactly their handles. */
  ghost predicate FilesOk(c: Cache) {
    && (forall p :: p in c.pages ==> p.file in c.open && 0 <= p.offset < MAX_OFFSET)
    && (forall f :: f in c.open <==> f in c.sets)
    && (forall f, h :: f in c.sets ==> (h in c.sets[f] <==> InUse(c, h) && c.descs[h].page.file == f))
    && (forall f :: f in c.open ==> c.open[f] in c.disk)
    && (forall f, g :: f in c.open && g in c.open && c.open[f] == c.open[g] ==> f == g)
  }

  /** A cached page that is neither dirty nor pending agrees with its file. */
  ghost predicate CleanOk(c: Cache) {
    && (forall h :: 0 <= h < |c.descs| && !InUse(c, h) ==> !c.descs[h].dirty)
    && (forall p :: p in c.pending ==> p in c.pages && 0 <= c.pages[p] < |c.descs| && !c.descs[c.pages[p]].dirty)
    && (forall p :: p in c.pages && Clean(c, p) ==> OnDisk(c, p) == Some(c.data[c.pages[p]]))
  }

  ghost predicate Clean(c: Cache, p: PageHandle)
    requires p in c.pages
  {
    p !in c.pending && 0 <= c.pages[p] < |c.descs| && c.pages[p] < |c.data| && !c.descs[c.pages[p]].dirty
  }

  ghost predicate Ok(c: Cache) {
    HandlesOk(c) && StampsOk(c) && FilesOk(c) && CleanOk(c)
  }

  ghost function OnDisk(c: Cache, p: PageHandle): Option<Bytes> {
    if p.file in c.open && c.open[p.file] in c.disk && BytePosition(p.offset) in c.disk[c.open[p.file]]
    then Some(c.disk[c.open[p.file]][BytePosition(p.offset)]) else None
  }

  /** The last bytes written to a page. */
  ghost function Content(c: Cache, p: PageHandle): Option<Bytes> {
    if p in c.pages && p !in c.pending && 0 <= c.pages[p] < |c.data| then Some(c.data[c.pages[p]]) else OnDisk(c, p)
  }

  ghost predicate SameContents(c: Cache, d: Cache) {
    forall p: PageHandle :: p.file in c.open && 0 <= p.offset < MAX_OFFSET ==> Content(d, p) == Content(c, p)
  }

  // ---------------------------------------------------------------- steps

  /** Writes a dirty page back and frees its handle. */
  function Flushed(c: Cache, h: int): Cache
    requires 0 <= h < |c.descs| && h < |c.data|
    requires c.descs[h].dirty ==> c.descs[h].page.file in c.open && c.open[c.descs[h].page.file] in c.disk
    requires c.descs[h].page.file in c.sets
  {
    var d := c.descs[h];
    c.(disk := if d.dirty
               then c.disk[c.open[d.page.file] := c.disk[c.open[d.page.file]][BytePosition(d.page.offset) := c.data[h]]]
               else c.disk,
       pages := c.pages - {d.page},
       usage := c.usage - {d.stamp},
       descs := c.descs[h := d.(dirty := false)],
       free := c.free + [h],
       sets := c.sets[d.page.file := c.sets[d.page.file] - {h}],
       pending := c.pending - {d.page})
  }

  /** Gives the handle on top of the stack to page p, which is not yet loaded or written. */
  function Assigned(c: Cache, p: PageHandle): Cache
    requires c.free != [] && 0 <= c.free[|c.free| - 1] < |c.descs| && p.file in c.sets
  {
    var h := c.free[|c.free| - 1];
    c.(free := c.free[..|c.free| - 1],
       usage := c.usage[c.now := h],
       now := c.now + 1,
       descs := c.descs[h := c.descs[h].(stamp := c.now, page := p)],
       pages := c.pages[p := h],
       sets := c.sets[p.file := c.sets[p.file] + {h}],
       pending := c.pending + {p})
  }

  /** Replaces the time stamp of a handle in use. */
  function Touched(c: Cache, h: int): Cache
    requires 0 <= h < |c.descs|
  {
    c.(usage := (c.usage - {c.descs[h].stamp})[c.now := h],
       descs := c.descs[h := c.descs[h].(stamp := c.now)],
       now := c.now + 1)
  }

  /** The bytes of a handle, written by a caller or read from the file. */
  function Filled(c: Cache, h: int, bytes: Bytes, dirty: bool): Cache
    requires 0 <= h < |c.descs| && h < |c.data|
  {
    c.(data := c.data[h := bytes], descs := c.descs[h := c.descs[h].(dirty := dirty)],
        pending := c.pending - {c.descs[h].page})
  }

  lemma FlushedUses(c: Cache, h: int)
    requires Ok(c) && InUse(c, h)
    ensures c.descs[h].page.file in c.sets
    ensures var d := Flushed(c, h);
            && d.free == c.free + [h] && d.pages == c.pages - {c.descs[h].page} && d.data == c.data
            && |d.descs| == |c.descs|
            && (forall i :: 0 <= i < |c.descs| ==> d.descs[i].page == c.descs[i].page)
            && (forall i :: InUse(d, i) <==> InUse(c, i) && i != h)
  {
    assert c.descs[h].page.file in c.open;
    hide StampsOk, FilesOk, CleanOk;
  }

  lemma FlushedHandles(c: Cache, h: int)
    requires Ok(c) && InUse(c, h)
    ensures c.descs[h].page.file in c.sets && HandlesOk(Flushed(c, h))
    ensures forall i :: InUse(Flushed(c, h), i) <==> InUse(c, i) && i != h
  {
    FlushedUses(c, h);
    var d := Flushed(c, h);
    hide StampsOk, FilesOk, CleanOk, Flushed, InUse;
    assert h !in c.free;
    assert forall i :: i in d.free <==> i in c.free || i == h;
  }

  lemma UsedStamps(c: Cache, h: int)
    requires Ok(c)
    ensures InUse(c, h) ==> 0 <= h < |c.descs|
    ensures forall i :: 0 <= i < |c.descs| && InUse(c, i) ==>
              c.descs[i].stamp in c.usage && c.usage[c.descs[i].stamp] == i
    ensures forall t :: t in c.usage ==>
              t < c.now && 0 <= c.usage[t] < |c.descs| && InUse(c, c.usage[t]) && c.descs[c.usage[t]].stamp == t
  {
  }

  lemma StampsFrom(c: Cache)
    ensures (forall i :: 0 <= i < |c.descs| && InUse(c, i) ==>
        c.descs[i].stamp in c.usage && c.usage[c.descs[i].stamp] == i)
            && (forall t :: t in c.usage ==>
                  t < c.now && 0 <= c.usage[t] < |c.descs| && InUse(c, c.usage[t]) &&
                  c.descs[c.usage[t]].stamp == t) ==>
              StampsOk(c)
  {
  }

  lemma FlushedStamps(c: Cache, h: int)
    requires Ok(c) && InUse(c, h)
    ensures c.descs[h].page.file in c.sets && StampsOk(Flushed(c, h))
  {
    hide *;
    FlushedHandles(c, h);
    FlushedFields(c, h);
    var d := Flushed(c, h);
    UsedStamps(c, h);
    StampsFrom(d);
    forall i | 0 <= i < |d.descs| && InUse(d, i) ensures d.descs[i].stamp in d.usage && d.usage[d.descs[i].stamp] == i {
      assert c.usage[c.descs[i].stamp] == i;
    }
    forall t | t in d.usage
      ensures t < d.now && 0 <= d.usage[t] < |d.descs| && InUse(d, d.usage[t]) && d.descs[d.usage[t]].stamp == t
    {
      assert c.descs[c.usage[t]].stamp == t;
    }
  }

  lemma FlushedFields(c: Cache, h: int)
    requires Ok(c) && InUse(c, h)
    ensures c.descs[h].page.file in c.sets
    ensures 0 <= h < |c.descs| == |c.data|
    ensures c.descs[h].dirty ==> c.descs[h].page.file in c.open && c.open[c.descs[h].page.file] in c.disk
    ensures var d := Flushed(c, h);
            && d.now == c.now && d.usage == c.usage - {c.descs[h].stamp} && |d.descs| == |c.descs|
            && forall i :: 0 <= i < |c.descs| ==>
                 d.descs[i].stamp == c.descs[i].stamp && d.descs[i].page == c.descs[i].page
  {
  }

  lemma FlushedFiles(c: Cache, h: int)
    requires Ok(c) && InUse(c, h)
    ensures c.descs[h].page.file in c.sets && FilesOk(Flushed(c, h))
  {
    FlushedHandles(c, h);
    hide HandlesOk, StampsOk, CleanOk;
  }

  /** Freeing a handle keeps the tables consistent and loses no contents. */
  lemma FlushedOk(c: Cache, h: int)
    requires Ok(c) && InUse(c, h)
    ensures c.descs[h].page.file in c.sets
    ensures c.descs[h].page.file in c.open && c.open[c.descs[h].page.file] in c.disk
    ensures Ok(Flushed(c, h)) && SameContents(c, Flushed(c, h))
  {
    FlushedHandles(c, h);
    FlushedStamps(c, h);
    FlushedFiles(c, h);
    FlushedContents(c, h);
  }

  lemma FlushedDisk(c: Cache, h: int, p: PageHandle)
    requires Ok(c) && InUse(c, h) && p.file in c.open && 0 <= p.offset < MAX_OFFSET
    ensures c.descs[h].page.file in c.sets
    ensures OnDisk(Flushed(c, h), p) == if p == c.descs[h].page && c.descs[h].dirty then Some(c.data[h])
        else OnDisk(c, p)
  {
    PositionsDiffer(p.offset, c.descs[h].page.offset);
  }

  lemma FlushedClean(c: Cache, h: int)
    requires Ok(c) && InUse(c, h)
    ensures c.descs[h].page.file in c.sets
    ensures var d := Flushed(c, h); forall p :: p in d.pages && Clean(d, p) ==> OnDisk(d, p) == Some(d.data[d.pages[p]])
  {
    var d := Flushed(c, h);
    forall p | p in d.pages && Clean(d, p) ensures OnDisk(d, p) == Some(d.data[d.pages[p]]) {
      CachedInRange(c, p);
      CachedUse(c, p);
      FlushedDisk(c, h, p);
      hide OnDisk, StampsOk, FilesOk;
    }
  }

  lemma FlushedContent(c: Cache, h: int, p: PageHandle)
    requires Ok(c) && InUse(c, h) && p.file in c.open && 0 <= p.offset < MAX_OFFSET
    ensures c.descs[h].page.file in c.sets
    ensures Content(Flushed(c, h), p) == Content(c, p)
  {
    FlushedDisk(c, h, p);
    UseFacts(c, h);
    if p in c.pages { CachedUse(c, p); }
    var d := Flushed(c, h);
    assert d.pages == c.pages - {c.descs[h].page} && d.data == c.data && d.pending == c.pending - {c.descs[h].page};
    hide OnDisk, StampsOk, FilesOk, Flushed;
  }

  lemma FlushedContents(c: Cache, h: int)
    requires Ok(c) && InUse(c, h)
    ensures c.descs[h].page.file in c.sets
    ensures CleanOk(Flushed(c, h)) && SameContents(c, Flushed(c, h))
  {
    UseFacts(c, h);
    FlushedHandles(c, h);
    FlushedClean(c, h);
    forall p: PageHandle | p.file in c.open && 0 <= p.offset < MAX_OFFSET
      ensures Content(Flushed(c, h), p) == Content(c, p)
    {
      FlushedContent(c, h, p);
    }
    FlushedDirty(c, h);
    hide InUse, Content, HandlesOk, StampsOk, FilesOk, OnDisk, Flushed, Clean;
  }

  lemma FlushedDirty(c: Cache, h: int)
    requires Ok(c) && InUse(c, h)
    ensures c.descs[h].page.file in c.sets
    ensures var d := Flushed(c, h);
            && (forall i :: 0 <= i < |d.descs| && !InUse(d, i) ==> !d.descs[i].dirty)
            && (forall p :: p in d.pending ==>
                  p in d.pages && 0 <= d.pages[p] < |d.descs| && !d.descs[d.pages[p]].dirty)
  {
    FlushedHandles(c, h);
    var d := Flushed(c, h);
    hide StampsOk, FilesOk;
    forall i | 0 <= i < |d.descs| && !InUse(d, i) ensures !d.descs[i].dirty {
    }
  }

  lemma CachedInRange(c: Cache, p: PageHandle)
    requires FilesOk(c) && p in c.pages
    ensures p.file in c.open && 0 <= p.offset < MAX_OFFSET
  {
  }

  ghost predicate MayAssign(c: Cache, p: PageHandle) {
    c.free != [] && p !in c.pages && p.file in c.open && 0 <= p.offset < MAX_OFFSET
  }

  lemma AssignedFields(c: Cache, p: PageHandle)
    requires Ok(c) && MayAssign(c, p)
    ensures p.file in c.sets && 0 <= c.free[|c.free| - 1] < |c.descs| == |c.data|
    ensures var d, h := Assigned(c, p), c.free[|c.free| - 1];
            && !InUse(c, h) && !c.descs[h].dirty
            && |d.descs| == |c.descs| && d.data == c.data && d.open == c.open && d.disk == c.disk && d.now == c.now + 1
            && d.descs[h] == Descriptor(c.now, p, false) && d.pages == c.pages[p := h] && d.usage == c.usage[c.now := h]
            && d.pending == c.pending + {p} && d.sets == c.sets[p.file := c.sets[p.file] + {h}]
            && (forall i :: 0 <= i < |c.descs| && i != h ==> d.descs[i] == c.descs[i])
            && (forall i :: InUse(d, i) <==> InUse(c, i) || i == h)
  {
    var d, h := Assigned(c, p), c.free[|c.free| - 1];
    assert h in c.free;
    forall i ensures InUse(d, i) <==> InUse(c, i) || i == h {
    }
  }

  lemma AssignedHandles(c: Cache, p: PageHandle)
    requires Ok(c) && MayAssign(c, p)
    ensures p.file in c.sets && 0 <= c.free[|c.free| - 1] < |c.descs| && HandlesOk(Assigned(c, p))
  {
    AssignedFields(c, p);
    var d, h := Assigned(c, p), c.free[|c.free| - 1];
    assert d.free + [h] == c.free;
    hide StampsOk, FilesOk, CleanOk, InUse;
    assert forall i :: i in c.free <==> i in d.free || i == h;
    assert h !in d.free;
    forall q | q in d.pages ensures 0 <= d.pages[q] < |d.descs| && d.descs[d.pages[q]].page == q {
      if q != p { CachedUse(c, q); }
    }
  }

  lemma CachedUse(c: Cache, q: PageHandle)
    requires HandlesOk(c) && q in c.pages
    ensures InUse(c, c.pages[q]) && c.descs[c.pages[q]].page == q
  {
  }

  lemma AssignedStamps(c: Cache, p: PageHandle)
    requires Ok(c) && MayAssign(c, p)
    ensures p.file in c.sets && 0 <= c.free[|c.free| - 1] < |c.descs| && StampsOk(Assigned(c, p))
  {
    AssignedFields(c, p);
    hide HandlesOk, FilesOk, CleanOk, InUse, Assigned;
  }

  lemma AssignedFiles(c: Cache, p: PageHandle)
    requires Ok(c) && MayAssign(c, p)
    ensures p.file in c.sets && 0 <= c.free[|c.free| - 1] < |c.descs| && FilesOk(Assigned(c, p))
  {
    AssignedFields(c, p);
    hide HandlesOk, StampsOk, CleanOk, InUse, Assigned;
  }

  lemma AssignedContents(c: Cache, p: PageHandle)
    requires Ok(c) && MayAssign(c, p)
    ensures p.file in c.sets && 0 <= c.free[|c.free| - 1] < |c.descs|
    ensures CleanOk(Assigned(c, p)) && SameContents(c, Assigned(c, p))
  {
    AssignedFields(c, p);
    var d, h := Assigned(c, p), c.free[|c.free| - 1];
    assert p !in c.pending;
    hide StampsOk, FilesOk, Assigned;
    forall q | q in c.pages ensures c.pages[q] != h && d.pages[q] == c.pages[q] {
      CachedUse(c, q);
    }
    assert forall q :: OnDisk(d, q) == OnDisk(c, q);
    hide *;
    AssignedClean(c, d, p, h);
  }

  lemma AssignedClean(c: Cache, d: Cache, p: PageHandle, h: int)
    requires CleanOk(c) && p !in c.pages && p !in c.pending && |d.descs| == |c.descs| && 0 <= h < |c.descs|
    requires d.data == c.data
    requires d.pages == c.pages[p := h] && d.pending == c.pending + {p} && !d.descs[h].dirty
    requires forall i :: 0 <= i < |c.descs| && i != h ==> d.descs[i] == c.descs[i]
    requires forall i :: InUse(d, i) <==> InUse(c, i) || i == h
    requires forall q :: q in c.pages ==> c.pages[q] != h
    requires forall q :: OnDisk(d, q) == OnDisk(c, q)
    ensures CleanOk(d) && SameContents(c, d)
  {
    hide InUse, OnDisk;
  }

  /** Handing out a free handle keeps the tables consistent and loses no contents. */
  lemma AssignedOk(c: Cache, p: PageHandle)
    requires Ok(c) && MayAssign(c, p)
    ensures p.file in c.sets && 0 <= c.free[|c.free| - 1] < |c.descs|
    ensures Ok(Assigned(c, p)) && SameContents(c, Assigned(c, p))
    ensures InUse(Assigned(c, p), c.free[|c.free| - 1])
  {
    AssignedFields(c, p);
    AssignedHandles(c, p);
    AssignedStamps(c, p);
    AssignedFiles(c, p);
    AssignedContents(c, p);
  }

  lemma TouchedFields(c: Cache, h: int)
    requires Ok(c) && InUse(c, h)
    ensures var d := Touched(c, h);
            && d.free == c.free && d.pages == c.pages && |d.descs| == |c.descs| && d.data == c.data
            && d.now == c.now + 1
            && d.sets == c.sets && d.open == c.open && d.disk == c.disk && d.pending == c.pending
            && d.usage == (c.usage - {c.descs[h].stamp})[c.now := h]
            && d.descs[h] == c.descs[h].(stamp := c.now)
            && (forall i :: 0 <= i < |c.descs| && i != h ==> d.descs[i] == c.descs[i])
            && (forall i :: InUse(d, i) <==> InUse(c, i))
  {
  }

  lemma TouchedParts(c: Cache, h: int)
    requires Ok(c) && InUse(c, h)
    ensures 0 <= h < |c.descs| && Touched(c, h).open == c.open && Touched(c, h).data == c.data
  {
  }

  lemma TouchedStamps(c: Cache, h: int)
    requires Ok(c) && InUse(c, h)
    ensures StampsOk(Touched(c, h))
  {
    hide *;
    UsedStamps(c, h);
    TouchedFields(c, h);
    var d := Touched(c, h);
    StampsFrom(d);
    forall i | 0 <= i < |d.descs| && InUse(d, i) ensures d.descs[i].stamp in d.usage && d.usage[d.descs[i].stamp] == i {
      assert c.usage[c.descs[i].stamp] == i;
    }
  }

  // A step that leaves the page of every handle alone keeps the handle and file tables consistent.
  ghost predicate SamePlaces(c: Cache, d: Cache) {
    && d.free == c.free && d.pages == c.pages && |d.descs| == |c.descs| && |d.data| == |c.data|
    && d.sets == c.sets && d.open == c.open && d.disk == c.disk
    && (forall i :: 0 <= i < |c.descs| ==> d.descs[i].page == c.descs[i].page)
    && (forall i :: InUse(d, i) <==> InUse(c, i))
  }

  lemma SamePlacesHandles(c: Cache, d: Cache)
    requires HandlesOk(c) && SamePlaces(c, d)
    ensures HandlesOk(d)
  {
    hide InUse;
  }

  lemma SamePlacesFiles(c: Cache, d: Cache)
    requires FilesOk(c) && HandlesOk(c) && SamePlaces(c, d)
    ensures FilesOk(d)
  {
    forall f, h | f in d.sets ensures h in d.sets[f] <==> InUse(d, h) && d.descs[h].page.file == f {
      assert h in c.sets[f] <==> InUse(c, h) && c.descs[h].page.file == f;
      if InUse(c, h) { UseInRange(c, h); }
    }
    hide InUse;
  }

  lemma UseInRange(c: Cache, h: int)
    requires InUse(c, h)
    ensures 0 <= h < |c.descs|
  {
  }

  lemma SameStamps(c: Cache, d: Cache)
    requires StampsOk(c) && HandlesOk(c) && SamePlaces(c, d) && d.usage == c.usage && d.now == c.now
    requires forall i :: 0 <= i < |c.descs| ==> d.descs[i].stamp == c.descs[i].stamp
    ensures StampsOk(d)
  {
    hide InUse, HandlesOk;
  }

  lemma SameData(c: Cache, d: Cache)
    requires CleanOk(c) && HandlesOk(c) && SamePlaces(c, d) && d.data == c.data && d.pending == c.pending
    requires forall i :: 0 <= i < |c.descs| ==> d.descs[i].dirty == c.descs[i].dirty
    ensures CleanOk(d) && SameContents(c, d)
  {
    assert forall p :: OnDisk(d, p) == OnDisk(c, p);
    hide InUse, HandlesOk, OnDisk;
  }

  /** Touching a handle changes its time stamp only. */
  lemma TouchedOk(c: Cache, h: int)
    requires Ok(c) && InUse(c, h)
    ensures Ok(Touched(c, h)) && SameContents(c, Touched(c, h)) && InUse(Touched(c, h), h)
    ensures Touched(c, h).descs[h].page == c.descs[h].page
  {
    hide StampsOk, HandlesOk, FilesOk, CleanOk, InUse, Touched, SameContents;
    UseInRange(c, h);
    TouchedStamps(c, h);
    TouchedFields(c, h);
    var d := Touched(c, h);
    SamePlacesHandles(c, d);
    SamePlacesFiles(c, d);
    SameData(c, d);
  }

  /** Writing a page through its handle: that page now holds the bytes, every other page what it
      held before. */
  lemma WrittenOk(c: Cache, h: int, bytes: Bytes)
    requires Ok(c) && InUse(c, h)
    ensures var d := Filled(c, h, bytes, true);
            && Ok(d) && InUse(d, h)
            && forall p: PageHandle :: p.file in c.open && 0 <= p.offset < MAX_OFFSET ==>
                 Content(d, p) == if p == c.descs[h].page then Some(bytes) else Content(c, p)
  {
    var d := Filled(c, h, bytes, true);
    FilledFields(c, h, bytes, true);
    hide Filled, InUse, StampsOk, FilesOk;
    SamePlacesHandles(c, d);
    SamePlacesFiles(c, d);
    SameStamps(c, d);
    forall p | p in c.pages && c.pages[p] == h ensures p == c.descs[h].page {
      CachedUse(c, p);
    }
    WrittenContents(c, d, h);
  }

  lemma WrittenContents(c: Cache, d: Cache, h: int)
    requires HandlesOk(c) && CleanOk(c) && SamePlaces(c, d) && InUse(c, h)
    requires d.descs[h].dirty && d.pending == c.pending - {c.descs[h].page}
    requires forall i :: 0 <= i < |c.descs| && i != h ==> d.descs[i] == c.descs[i] && d.data[i] == c.data[i]
    requires forall p :: OnDisk(d, p) == OnDisk(c, p)
    requires forall p :: p in c.pages && c.pages[p] == h ==> p == c.descs[h].page
    ensures CleanOk(d)
    ensures forall p: PageHandle :: Content(d, p) == if p == c.descs[h].page then Some(d.data[h]) else Content(c, p)
  {
    hide OnDisk;
    assert c.pages[c.descs[h].page] == h;
    assert forall i :: InUse(d, i) <==> InUse(c, i);
    hide InUse;
  }

  lemma FilledFields(c: Cache, h: int, bytes: Bytes, dirty: bool)
    requires Ok(c) && InUse(c, h)
    ensures h < |c.data|
    ensures var d := Filled(c, h, bytes, dirty);
            && d.free == c.free && d.pages == c.pages && |d.descs| == |c.descs| && |d.data| == |c.data|
            && d.now == c.now
            && d.sets == c.sets && d.open == c.open && d.disk == c.disk && d.pending == c.pending - {c.descs[h].page}
            && d.usage == c.usage
            && d.descs[h] == c.descs[h].(dirty := dirty) && d.data[h] == bytes
            && (forall i :: 0 <= i < |c.descs| && i != h ==> d.descs[i] == c.descs[i] && d.data[i] == c.data[i])
            && (forall i :: InUse(d, i) <==> InUse(c, i))
            && (forall p :: OnDisk(d, p) == OnDisk(c, p))
  {
  }

  /** Reading an assigned page in from its file completes the load. */
  lemma LoadedOk(c: Cache, h: int, bytes: Bytes)
    requires Ok(c) && InUse(c, h) && c.descs[h].page in c.pending && OnDisk(c, c.descs[h].page) == Some(bytes)
    ensures var d := Filled(c, h, bytes, false); Ok(d) && SameContents(c, d) && InUse(d, h)
  {
    var d := Filled(c, h, bytes, false);
    FilledFields(c, h, bytes, false);
    hide Filled, InUse, StampsOk, FilesOk;
    SamePlacesHandles(c, d);
    SamePlacesFiles(c, d);
    SameStamps(c, d);
    forall p | p in c.pages && c.pages[p] == h ensures p == c.descs[h].page {
      CachedUse(c, p);
    }
    LoadedContents(c, d, h);
  }

  lemma LoadedContents(c: Cache, d: Cache, h: int)
    requires HandlesOk(c) && CleanOk(c) && SamePlaces(c, d) && InUse(c, h)
    requires !d.descs[h].dirty && d.pending == c.pending - {c.descs[h].page} && c.descs[h].page in c.pending
    requires forall i :: 0 <= i < |c.descs| && i != h ==> d.descs[i] == c.descs[i] && d.data[i] == c.data[i]
    requires forall p :: OnDisk(d, p) == OnDisk(c, p)
    requires forall p :: p in c.pages && c.pages[p] == h ==> p == c.descs[h].page
    requires OnDisk(c, c.descs[h].page) == Some(d.data[h])
    ensures CleanOk(d) && SameContents(c, d)
  {
    hide OnDisk;
    assert c.pages[c.descs[h].page] == h;
    assert forall i :: InUse(d, i) <==> InUse(c, i);
    hide InUse;
  }

  // ---------------------------------------------------------------- files

  function Closed(c: Cache, f: int): Cache {
    c.(open := c.open - {f}, sets := c.sets - {f})
  }

  function Opened(c: Cache, f: int, name: string): Cache {
    c.(open := c.open[f := name], sets := c.sets[f := {}])
  }

  lemma NoneCached(c: Cache, f: int)
    requires Ok(c) && f in c.sets && c.sets[f] == {}
    ensures forall p: PageHandle :: p.file == f ==> p !in c.pages
  {
    forall p | p in c.pages ensures p.file != f {
      CachedUse(c, p);
      assert c.pages[p] in c.sets[p.file];
    }
  }

  /** Closing a file with no cached page left. */
  lemma ClosedOk(c: Cache, f: int)
    requires Ok(c) && f in c.sets && c.sets[f] == {}
    ensures Ok(Closed(c, f))
    ensures forall p: PageHandle :: p.file != f ==> Content(Closed(c, f), p) == Content(c, p)
    ensures forall p: PageHandle :: p.file == f ==> p !in c.pages
  {
    var d := Closed(c, f);
    NoneCached(c, f);
    assert forall i :: InUse(d, i) <==> InUse(c, i);
    forall p: PageHandle | p.file != f ensures OnDisk(d, p) == OnDisk(c, p) {
    }
    hide InUse, OnDisk;
  }

  /** Opening a file that is not open yet. */
  lemma OpenedOk(c: Cache, f: int, name: string)
    requires Ok(c) && f !in c.open && name in c.disk && name !in c.open.Values
    ensures Ok(Opened(c, f, name))
    ensures forall p: PageHandle :: p.file != f ==> Content(Opened(c, f, name), p) == Content(c, p)
  {
    var d := Opened(c, f, name);
    forall p | p in c.pages ensures p.file != f {
    }
    assert forall i :: InUse(d, i) <==> InUse(c, i);
    forall p: PageHandle | p.file != f ensures OnDisk(d, p) == OnDisk(c, p) {
    }
    forall g | g in c.open ensures c.open[g] != name {
      assert c.open[g] in c.open.Values;
    }
    hide InUse, OnDisk;
    assert HandlesOk(d);
    assert StampsOk(d);
    OpenedFiles(c, f, name);
    assert CleanOk(d);
  }

  lemma OpenedFiles(c: Cache, f: int, name: string)
    requires Ok(c) && f !in c.open && name in c.disk && forall g :: g in c.open ==> c.open[g] != name
    ensures FilesOk(Opened(c, f, name))
  {
    var d := Opened(c, f, name);
    forall h ensures !(InUse(d, h) && d.descs[h].page.file == f) {
    }
    assert forall i :: InUse(d, i) <==> InUse(c, i);
    hide InUse, HandlesOk, StampsOk, CleanOk;
  }

  /** The cache at the start: every handle free, handle 0 on top. */
  lemma InitialOk(c: Cache, n: nat)
    requires n > 0 && |c.descs| == |c.data| == n && c.free == seq(n, i => n - 1 - i)
    requires c.usage == map[] && c.pages == map[] && c.sets == map[] && c.open == map[] && c.pending == {}
    requires forall h :: 0 <= h < n ==> !c.descs[h].dirty
    ensures Ok(c)
  {
    forall h | 0 <= h < n ensures h in c.free {
      assert c.free[n - 1 - h] == h;
    }
    assert forall h :: !InUse(c, h);
  }

  lemma UseFacts(c: Cache, h: int)
    requires Ok(c) && InUse(c, h)
    ensures 0 <= h < |c.descs| == |c.data|
    ensures var p := c.descs[h].page;
            p.file in c.open && p.file in c.sets && c.open[p.file] in c.disk && p in c.pages && c.pages[p] == h
  {
  }

  // ---------------------------------------------------------------- runs

  ghost function DiskContent(disk: Disk, name: string, o: int): Option<Bytes> {
    if name in disk && BytePosition(o) in disk[name] then Some(disk[name][BytePosition(o)]) else None
  }

  ghost predicate Named(c: Cache, f: int, name: string) { f in c.open && c.open[f] == name }

  ghost predicate NameOpen(c: Cache, name: string) { exists f :: Named(c, f, name) }

  /** The contents of a page by the name of its file: what the cache holds while the file is open, else the file. */
  ghost function FileContent(c: Cache, name: string, o: int): Option<Bytes> {
    if f :| Named(c, f, name) then Content(c, PageHandle(f, o)) else DiskContent(c.disk, name, o)
  }

  lemma FileContentIs(c: Cache, name: string, o: int)
    requires FilesOk(c)
    ensures forall f :: Named(c, f, name) ==> FileContent(c, name, o) == Content(c, PageHandle(f, o))
    ensures !NameOpen(c, name) ==> FileContent(c, name, o) == DiskContent(c.disk, name, o)
  {
    forall f, g | Named(c, f, name) && Named(c, g, name) ensures f == g {
    }
  }

  /** What an observer of the cache sees of a step. */
  datatype Event = Quiet | Wrote(name: string, offset: int, bytes: Bytes)

  /** Any step of the cache: a write-back of any handle in use, as for an eviction; handing out a
      handle; touching; completing a load; writing; opening a file under an unused handle; closing a file with no cached
      page left. */
  ghost predicate Step(c: Cache, d: Cache, e: Event) {
    || (exists h :: FlushStep(c, d, e, h))
    || (exists q :: AssignStep(c, d, e, q))
    || (exists h :: TouchStep(c, d, e, h))
    || (exists h, bytes :: LoadStep(c, d, e, h, bytes))
    || (exists h, bytes :: WriteStep(c, d, e, h, bytes))
    || (exists f, name :: OpenStep(c, d, e, f, name))
    || (exists f :: CloseStep(c, d, e, f))
  }

  /** The step keeps the invariant and the contents of every page, but for what it writes. */
  ghost predicate Keeps(c: Cache, d: Cache, e: Event, name: string, o: int) {
    && Ok(d)
    && (0 <= o < MAX_OFFSET ==>
          FileContent(d, name, o) == if e.Wrote? && e.name == name && e.offset == o then Some(e.bytes)
              else FileContent(c, name, o))
  }

  // Open files keep their handles and contents, files that are not open stay as they are on disk.
  lemma SameFiles(c: Cache, d: Cache, name: string, o: int)
    requires Ok(c) && Ok(d) && d.open == c.open && SameContents(c, d) && 0 <= o < MAX_OFFSET
    requires !NameOpen(c, name) ==> DiskContent(d.disk, name, o) == DiskContent(c.disk, name, o)
    ensures FileContent(d, name, o) == FileContent(c, name, o)
  {
    hide Content, DiskContent, FileContent;
    FileContentIs(c, name, o);
    FileContentIs(d, name, o);
    if f :| Named(c, f, name) {
      assert Named(d, f, name) && Content(d, PageHandle(f, o)) == Content(c, PageHandle(f, o));
    } else {
      assert forall g :: Named(d, g, name) <==> Named(c, g, name);
    }
  }

  ghost predicate FlushStep(c: Cache, d: Cache, e: Event, h: int) {
    InUse(c, h) && c.descs[h].page.file in c.sets && h < |c.data|
      && (c.descs[h].dirty ==> c.descs[h].page.file in c.open && c.open[c.descs[h].page.file] in c.disk)
      && d == Flushed(c, h) && e == Quiet
  }

  lemma FlushKeeps(c: Cache, d: Cache, e: Event, h: int, name: string, o: int)
    requires Ok(c) && FlushStep(c, d, e, h)
    ensures Keeps(c, d, e, name, o)
  {
    FlushedOk(c, h);
    UseFacts(c, h);
    assert d.open == c.open;
    assert Named(c, c.descs[h].page.file, c.open[c.descs[h].page.file]);
    assert !NameOpen(c, name) ==>
        (name in d.disk <==> name in c.disk) && (name in c.disk ==> d.disk[name] == c.disk[name]);
    hide Ok, InUse, Content, OnDisk, SameContents, Flushed;
    if 0 <= o < MAX_OFFSET { SameFiles(c, d, name, o); }
  }

  ghost predicate AssignStep(c: Cache, d: Cache, e: Event, q: PageHandle) {
    MayAssign(c, q) && q.file in c.sets && 0 <= c.free[|c.free| - 1] < |c.descs| && d == Assigned(c, q) && e == Quiet
  }

  lemma AssignKeeps(c: Cache, d: Cache, e: Event, q: PageHandle, name: string, o: int)
    requires Ok(c) && AssignStep(c, d, e, q)
    ensures Keeps(c, d, e, name, o)
  {
    AssignedOk(c, q);
    AssignedFields(c, q);
    hide Ok, InUse, Content, OnDisk, SameContents, Assigned;
    if 0 <= o < MAX_OFFSET { SameFiles(c, d, name, o); }
  }

  ghost predicate TouchStep(c: Cache, d: Cache, e: Event, h: int) {
    InUse(c, h) && d == Touched(c, h) && e == Quiet
  }

  lemma TouchKeeps(c: Cache, d: Cache, e: Event, h: int, name: string, o: int)
    requires Ok(c) && TouchStep(c, d, e, h)
    ensures Keeps(c, d, e, name, o)
  {
    TouchedOk(c, h);
    TouchedFields(c, h);
    hide Ok, InUse, Content, OnDisk, SameContents, Touched;
    if 0 <= o < MAX_OFFSET { SameFiles(c, d, name, o); }
  }

  ghost predicate LoadStep(c: Cache, d: Cache, e: Event, h: int, bytes: Bytes) {
    InUse(c, h) && h < |c.data| && c.descs[h].page in c.pending && OnDisk(c, c.descs[h].page) == Some(bytes)
      && d == Filled(c, h, bytes, false) && e == Quiet
  }

  lemma LoadKeeps(c: Cache, d: Cache, e: Event, h: int, bytes: Bytes, name: string, o: int)
    requires Ok(c) && LoadStep(c, d, e, h, bytes)
    ensures Keeps(c, d, e, name, o)
  {
    LoadedOk(c, h, bytes);
    FilledFields(c, h, bytes, false);
    hide Ok, InUse, Content, OnDisk, SameContents, Filled;
    if 0 <= o < MAX_OFFSET { SameFiles(c, d, name, o); }
  }

  ghost predicate WriteStep(c: Cache, d: Cache, e: Event, h: int, bytes: Bytes) {
    && InUse(c, h) && h < |c.data| && d == Filled(c, h, bytes, true)
    && c.descs[h].page.file in c.open && e == Wrote(c.open[c.descs[h].page.file], c.descs[h].page.offset, bytes)
  }

  lemma WriteKeeps(c: Cache, d: Cache, e: Event, h: int, bytes: Bytes, name: string, o: int)
    requires Ok(c) && WriteStep(c, d, e, h, bytes)
    ensures Keeps(c, d, e, name, o)
  {
    WrittenOk(c, h, bytes);
    FilledFields(c, h, bytes, true);
    assert FilesOk(c) && FilesOk(d);
    assert forall f, g :: f in c.open && g in c.open && c.open[f] == c.open[g] ==> f == g;
    hide Ok, FilesOk, InUse, Content, OnDisk, Filled, FileContent, DiskContent;
    FileContentIs(c, name, o);
    FileContentIs(d, name, o);
    if f :| Named(c, f, name) {
      assert Named(d, f, name);
    } else {
      assert forall g :: Named(d, g, name) <==> Named(c, g, name);
      assert Named(c, c.descs[h].page.file, c.open[c.descs[h].page.file]);
    }
  }

  ghost predicate OpenStep(c: Cache, d: Cache, e: Event, f: int, name: string) {
    f !in c.open && name in c.disk && name !in c.open.Values && d == Opened(c, f, name) && e == Quiet
  }

  lemma OpenKeeps(c: Cache, d: Cache, e: Event, f: int, file: string, name: string, o: int)
    requires Ok(c) && OpenStep(c, d, e, f, file)
    ensures Keeps(c, d, e, name, o)
  {
    OpenedOk(c, f, file);
    OpenedContent(c, f, file, o);
    assert FilesOk(c) && FilesOk(d) && d.open == c.open[f := file] && d.disk == c.disk;
    hide Ok, FilesOk, Content, OnDisk, FileContent, DiskContent;
    FileContentIs(c, name, o);
    FileContentIs(d, name, o);
    if g :| Named(c, g, name) {
      assert Named(d, g, name);
    } else if name == file {
      assert Named(d, f, name);
    } else {
      assert forall g :: Named(d, g, name) <==> Named(c, g, name);
    }
  }

  /** A file just opened has the contents it has on disk. */
  lemma OpenedContent(c: Cache, f: int, name: string, o: int)
    requires Ok(c) && f !in c.open
    ensures Content(Opened(c, f, name), PageHandle(f, o)) == DiskContent(c.disk, name, o)
  {
    var p := PageHandle(f, o);
    assert p !in c.pages;
  }

  ghost predicate CloseStep(c: Cache, d: Cache, e: Event, f: int) {
    f in c.sets && c.sets[f] == {} && d == Closed(c, f) && e == Quiet
  }

  lemma CloseKeeps(c: Cache, d: Cache, e: Event, f: int, name: string, o: int)
    requires Ok(c) && CloseStep(c, d, e, f)
    ensures Keeps(c, d, e, name, o)
  {
    ClosedOk(c, f);
    assert FilesOk(c) && FilesOk(d) && f in c.open && d.open == c.open - {f} && d.disk == c.disk;
    ClosedContent(c, f, o);
    assert forall g, h :: g in c.open && h in c.open && c.open[g] == c.open[h] ==> g == h;
    hide Ok, FilesOk, Content, OnDisk, FileContent, DiskContent;
    FileContentIs(c, name, o);
    FileContentIs(d, name, o);
    if g :| Named(d, g, name) {
      assert Named(c, g, name);
    } else if name == c.open[f] {
      assert Named(c, f, name);
    } else {
      assert forall g :: Named(d, g, name) <==> Named(c, g, name);
    }
  }

  lemma ClosedContent(c: Cache, f: int, o: int)
    requires Ok(c) && f in c.sets && c.sets[f] == {}
    ensures f in c.open && Content(c, PageHandle(f, o)) == DiskContent(c.disk, c.open[f], o)
  {
    ClosedOk(c, f);
    assert PageHandle(f, o) !in c.pages;
  }

  lemma StepKeeps(c: Cache, d: Cache, e: Event, name: string, o: int)
    requires Ok(c) && Step(c, d, e)
    ensures Keeps(c, d, e, name, o)
  {
    hide Ok, Keeps, FlushStep, AssignStep, TouchStep, LoadStep, WriteStep, OpenStep, CloseStep;
    if h :| FlushStep(c, d, e, h) {
      FlushKeeps(c, d, e, h, name, o);
    } else if q :| AssignStep(c, d, e, q) {
      AssignKeeps(c, d, e, q, name, o);
    } else if h :| TouchStep(c, d, e, h) {
      TouchKeeps(c, d, e, h, name, o);
    } else if h, bytes :| LoadStep(c, d, e, h, bytes) {
      LoadKeeps(c, d, e, h, bytes, name, o);
    } else if h, bytes :| WriteStep(c, d, e, h, bytes) {
      WriteKeeps(c, d, e, h, bytes, name, o);
    } else if f, file :| OpenStep(c, d, e, f, file) {
      OpenKeeps(c, d, e, f, file, name, o);
    } else {
      var f :| CloseStep(c, d, e, f);
      CloseKeeps(c, d, e, f, name, o);
    }
  }

  /** The last bytes written to a page in a run, given what it held at first. */
  ghost function LastWritten(es: seq<Event>, name: string, o: int, first: Option<Bytes>): Option<Bytes> {
    if es == [] then first
    else
      var e := es[|es| - 1];
      if e.Wrote? && e.name == name && e.offset == o then Some(e.bytes) else LastWritten(es[..|es| - 1], name, o, first)
  }

  /** Over any run, in which files are opened, closed and opened again, every page of every file holds the bytes last
      written to it, wherever they are by now; and the tables stay consistent. */
  lemma {:induction false} RunKeepsContents(cs: seq<Cache>, es: seq<Event>, name: string, o: int)
    requires |cs| == |es| + 1 && Ok(cs[0])
    requires forall i :: 0 <= i < |es| ==> Step(cs[i], cs[i + 1], es[i])
    ensures Ok(cs[|es|])
    ensures 0 <= o < MAX_OFFSET ==>
              FileContent(cs[|es|], name, o) == LastWritten(es, name, o, FileContent(cs[0], name, o))
  {
    hide Step, Ok, FileContent;
    if es != [] {
      var n := |es| - 1;
      RunKeepsContents(cs[..n + 1], es[..n], name, o);
      StepKeeps(cs[n], cs[n + 1], es[n], name, o);
    }
  }

  // ---------------------------------------------------------------- file handles

  /** The handles on the stack are different and not in use. */
  predicate FileHandlesOk(handles: seq<int>, open: map<int, string>) {
    && (forall i :: 0 <= i < |handles| ==> handles[i] !in open)
    && (forall i, j :: 0 <= i < j < |handles| ==> handles[i] != handles[j])
  }

  lemma HandleTaken(handles: seq<int>, open: map<int, string>, name: string)
    requires FileHandlesOk(handles, open) && handles != []
    ensures handles[|handles| - 1] !in open && FileHandlesOk(handles[..|handles| - 1], open)
    ensures FileHandlesOk(handles[..|handles| - 1], open[handles[|handles| - 1] := name])
  {
  }
}
