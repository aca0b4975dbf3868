/** The page manager of src/page/page_manager.cpp: a write-back cache of file pages, with its
    tables updated step by step. */
module PageCache {
  import opened Wrappers
  import opened CacheStates

  datatype PageError = WriteBackToClosedFile | LoadFromClosedFile | TooManyFiles | NoSuchFile

  class PageManager {
    var currentTimeStamp: nat
    var cacheUsage: map<nat, int>
    var cachedPages: map<PageHandle, int>
    const cacheDescriptors: array<Descriptor>
    const cache: array<Bytes>
    var availableCacheHandles: seq<int>       // a stack, its top last
    var fileAssociatedCacheSets: map<int, set<int>>
    var openFiles: map<int, string>
    var availableFileHandles: seq<int>        // a stack, its top last
    var disk: Disk                            // the files themselves
    ghost var pending: set<PageHandle>
    const fileHandles: nat                    // how many file handles there are
    ghost var lost: nat                       // how many of them failed openings have lost

    ghost function State(): Cache
      reads this, cacheDescriptors, cache
    {
      Cache(currentTimeStamp, cacheUsage, cachedPages, cacheDescriptors[..], cache[..], availableCacheHandles,
            fileAssociatedCacheSets, openFiles, disk, pending)
    }

    ghost predicate Valid()
      reads this, cacheDescriptors, cache
    {
      && CacheStates.Ok(State()) && FileHandlesOk(availableFileHandles, openFiles)
      && |availableFileHandles| + |openFiles| + lost == fileHandles
    }

    constructor (capacity: nat, files: nat, disk: Disk)
      requires capacity > 0
      ensures Valid() && openFiles == map[] && this.disk == disk && fileHandles == files && lost == 0
      ensures forall f :: f in availableFileHandles <==> 0 <= f < files
      ensures fresh(cacheDescriptors) && fresh(cache)
    {
      currentTimeStamp, cacheUsage, cachedPages := 0, map[], map[];
      cacheDescriptors := new Descriptor[capacity](_ => Descriptor(0, PageHandle(-1, -1), false));
      cache := new Bytes[capacity](_ => []);
      availableCacheHandles := seq(capacity, i => capacity - 1 - i);
      fileAssociatedCacheSets, openFiles := map[], map[];
      availableFileHandles := seq(files, i => files - 1 - i);
      fileHandles, lost := files, 0;
      this.disk := disk;
      pending := {};
      new;
      hide *;
      InitialOk(State(), capacity);
      Handles(availableFileHandles, files);
      Restored();
    }

    lemma Restored()
      requires CacheStates.Ok(State()) && FileHandlesOk(availableFileHandles, openFiles)
      requires |availableFileHandles| + |openFiles| + lost == fileHandles
      ensures Valid()
    {
    }

    /** Frees a handle in use, writing its page back if it is dirty; the file of a cached page is
        always open. */
    method FlushCache(h: int) returns (r: Result<(), PageError>)
      requires Valid() && InUse(State(), h)
      modifies this, cacheDescriptors
      ensures r.Ok? && State().descs == cacheDescriptors[..]
      ensures old(State()).descs[h].page.file in old(State()).sets
      ensures State() == Flushed(old(State()), h)
      ensures Valid() && SameContents(old(State()), State()) && openFiles == old(openFiles)
      ensures availableFileHandles == old(availableFileHandles)
    {
      hide HandlesOk, StampsOk, FilesOk, CleanOk, InUse, OnDisk, Content, SameContents, BytePosition;
      ghost var c := State();
      UseFacts(c, h);
      FlushedOk(c, h);
      var desc := cacheDescriptors[h];
      var f := desc.page.file;
      if desc.dirty {  // write back if the page is dirty
        if f !in openFiles {
          return Err(WriteBackToClosedFile);
        }
        disk := disk[openFiles[f] := disk[openFiles[f]][BytePosition(desc.page.offset) := cache[h]]];
      }
      cachedPages := cachedPages - {desc.page};
      cacheUsage := cacheUsage - {desc.stamp};
      cacheDescriptors[h] := desc.(dirty := false);
      availableCacheHandles := availableCacheHandles + [h];
      fileAssociatedCacheSets := fileAssociatedCacheSets[f := fileAssociatedCacheSets[f] - {h}];
      pending := pending - {desc.page};
      assert cacheDescriptors[..] == c.descs[h := desc.(dirty := false)];
      assert State() == Flushed(c, h);
      r := Result.Ok(());
    }

    /** A handle for page p: a free one, or that of any page in use, which is evicted. */
    method AssignCacheHandle(p: PageHandle) returns (h: int)
      requires Valid() && p !in cachedPages && p.file in openFiles && 0 <= p.offset < MAX_OFFSET
      modifies this, cacheDescriptors
      ensures Valid() && SameContents(old(State()), State()) && openFiles == old(openFiles)
      ensures availableFileHandles == old(availableFileHandles)
      ensures p in cachedPages && cachedPages[p] == h && p in pending && InUse(State(), h)
    {
      hide CacheStates.Ok, FileHandlesOk, InUse, OnDisk, Content;
      if availableCacheHandles == [] {
        Evict(p);
      }
      h := TakeHandle(p);
    }

    method Evict(p: PageHandle)
      requires Valid() && availableCacheHandles == [] && p !in cachedPages
      modifies this, cacheDescriptors
      ensures Valid() && SameContents(old(State()), State()) && openFiles == old(openFiles)
      ensures availableFileHandles == old(availableFileHandles)
      ensures availableCacheHandles != [] && p !in cachedPages
    {
      SomeoneToEvict();
      var stamp :| stamp in cacheUsage;
      VictimInUse(stamp);
      hide CacheStates.Ok, FileHandlesOk, InUse, OnDisk, Content, SameContents;
      var r := FlushCache(cacheUsage[stamp]);
    }

    lemma SomeoneToEvict()
      requires Valid() && availableCacheHandles == []
      ensures exists stamp :: stamp in cacheUsage
    {
      assert InUse(State(), 0);
      assert cacheDescriptors[0].stamp in cacheUsage;
    }

    lemma VictimInUse(stamp: nat)
      requires Valid() && stamp in cacheUsage
      ensures InUse(State(), cacheUsage[stamp])
    {
    }

    method TakeHandle(p: PageHandle) returns (h: int)
      requires Valid() && MayAssign(State(), p)
      modifies this, cacheDescriptors
      ensures Valid() && SameContents(old(State()), State()) && openFiles == old(openFiles)
      ensures availableFileHandles == old(availableFileHandles)
      ensures p in cachedPages && cachedPages[p] == h && p in pending && InUse(State(), h)
    {
      hide HandlesOk, StampsOk, FilesOk, CleanOk, InUse, OnDisk, Content, SameContents;
      ghost var c := State();
      AssignedOk(c, p);
      AssignedFields(c, p);
      h := availableCacheHandles[|availableCacheHandles| - 1];
      availableCacheHandles := availableCacheHandles[..|availableCacheHandles| - 1];
      var timeStamp := currentTimeStamp;
      currentTimeStamp := currentTimeStamp + 1;
      cacheUsage := cacheUsage[timeStamp := h];
      cacheDescriptors[h] := cacheDescriptors[h].(stamp := timeStamp, page := p);
      cachedPages := cachedPages[p := h];
      fileAssociatedCacheSets := fileAssociatedCacheSets[p.file := fileAssociatedCacheSets[p.file] + {h}];
      pending := pending + {p};
      assert cacheDescriptors[..] == c.descs[h := c.descs[h].(stamp := timeStamp, page := p)];
      assert State() == Assigned(c, p);
    }

    /** A handle for page p, which the caller is about to write. */
    method AllocatePage(p: PageHandle) returns (h: int)
      requires Valid() && p.file in openFiles && 0 <= p.offset < MAX_OFFSET
      modifies this, cacheDescriptors
      ensures Valid() && SameContents(old(State()), State()) && openFiles == old(openFiles)
      ensures availableFileHandles == old(availableFileHandles)
      ensures p in cachedPages && cachedPages[p] == h && InUse(State(), h)
      ensures p in old(cachedPages) ==> State() == old(State())
    {
      if p in cachedPages {  // already cached
        CachedUse(State(), p);
        return cachedPages[p];
      }
      h := AssignCacheHandle(p);
    }

    /** A handle for page p with its contents, or an error when its file is closed. */
    method LoadPage(p: PageHandle) returns (r: Result<int, PageError>)
      requires Valid() && 0 <= p.offset < MAX_OFFSET
      requires p.file in openFiles && p !in cachedPages ==> OnDisk(State(), p).Some?
      modifies this, cacheDescriptors, cache
      ensures Valid() && SameContents(old(State()), State()) && openFiles == old(openFiles)
      ensures availableFileHandles == old(availableFileHandles)
      ensures r.Ok? <==> p.file in openFiles
      ensures r.Ok? ==> p in cachedPages && cachedPages[p] == r.value && InUse(State(), r.value)
      ensures r.Ok? && p !in old(pending) ==> p !in pending
      ensures r.Err? ==> r.error == LoadFromClosedFile && State() == old(State())
    {
      if p in cachedPages {  // already cached
        CachedUse(State(), p);
        CachedInRange(State(), p);
        return Result.Ok(cachedPages[p]);
      }
      if p.file !in openFiles {
        return Err(LoadFromClosedFile);
      }
      var h := AssignCacheHandle(p);
      ReadIn(p, h);
      r := Result.Ok(h);
    }

    // Reads a newly assigned page from its file.
    method ReadIn(p: PageHandle, h: int)
      requires Valid() && InUse(State(), h) && cacheDescriptors[h].page == p && p in pending && OnDisk(State(), p).Some?
      modifies this`pending, cacheDescriptors, cache
      ensures Valid() && SameContents(old(State()), State())
      ensures p in cachedPages && cachedPages[p] == h && InUse(State(), h) && p !in pending
    {
      hide HandlesOk, StampsOk, FilesOk, CleanOk, Content, SameContents;
      ghost var c := State();
      UseFacts(c, h);
      var bytes := disk[openFiles[p.file]][BytePosition(p.offset)];
      LoadedOk(c, h, bytes);
      cache[h] := bytes;
      CleanPending(c, p);
      pending := pending - {p};
      assert cacheDescriptors[..] == c.descs[h := c.descs[h].(dirty := false)];
      assert cache[..] == c.data[h := bytes];
      assert State() == Filled(c, h, bytes, false);
    }

    lemma CleanPending(c: Cache, p: PageHandle)
      requires CacheStates.Ok(c) && p in c.pending
      ensures p in c.pages && 0 <= c.pages[p] < |c.descs| && !c.descs[c.pages[p]].dirty
    {
    }

    // Gives a handle in use a new time stamp.
    method Touch(h: int)
      requires Valid() && InUse(State(), h)
      modifies this, cacheDescriptors
      ensures Valid() && SameContents(old(State()), State()) && InUse(State(), h)
      ensures State() == Touched(old(State()), h) && availableFileHandles == old(availableFileHandles)
    {
      hide HandlesOk, StampsOk, FilesOk, CleanOk, InUse, Content, SameContents, OnDisk;
      ghost var c := State();
      UseFacts(c, h);
      TouchedOk(c, h);
      cacheUsage := cacheUsage - {cacheDescriptors[h].stamp};
      var stamp := currentTimeStamp;
      currentTimeStamp := currentTimeStamp + 1;
      cacheDescriptors[h] := cacheDescriptors[h].(stamp := stamp);
      cacheUsage := cacheUsage[stamp := h];
      assert cacheDescriptors[..] == c.descs[h := c.descs[h].(stamp := stamp)];
      assert State() == Touched(c, h);
    }

    /** The bytes of a handle, for reading: the last ones written to its page. */
    method AccessForReading(h: int) returns (bytes: Bytes)
      requires Valid() && InUse(State(), h)
      modifies this, cacheDescriptors
      ensures Valid() && SameContents(old(State()), State()) && openFiles == old(openFiles)
      ensures availableFileHandles == old(availableFileHandles)
      ensures State() == Touched(old(State()), h)
      ensures var p := old(State()).descs[h].page; p !in old(pending) ==> Content(old(State()), p) == Some(bytes)
    {
      hide HandlesOk, StampsOk, FilesOk, CleanOk, InUse, Content, SameContents, OnDisk, Touched;
      UseFacts(State(), h);
      ReadContent(State(), h);
      TouchedParts(State(), h);
      Touch(h);
      bytes := cache[h];
    }

    lemma ReadContent(c: Cache, h: int)
      requires CacheStates.Ok(c) && InUse(c, h)
      ensures h < |c.data|
      ensures c.descs[h].page !in c.pending ==> Content(c, c.descs[h].page) == Some(c.data[h])
    {
    }

    /** Marks a handle dirty and writes its bytes. */
    method AccessForWriting(h: int, bytes: Bytes)
      requires Valid() && InUse(State(), h)
      modifies this, cacheDescriptors, cache
      ensures Valid() && openFiles == old(openFiles) && cachedPages == old(cachedPages)
      ensures availableFileHandles == old(availableFileHandles)
      ensures forall p: PageHandle :: p.file in openFiles && 0 <= p.offset < MAX_OFFSET ==>
                Content(State(), p) == if p == old(State()).descs[h].page then Some(bytes) else Content(old(State()), p)
    {
      hide HandlesOk, StampsOk, FilesOk, CleanOk, InUse, Content, OnDisk;
      ghost var c := State();
      UseFacts(c, h);
      TouchedOk(c, h);
      Touch(h);
      ghost var d := State();
      WrittenOk(d, h, bytes);
      UseFacts(d, h);
      cacheDescriptors[h] := cacheDescriptors[h].(dirty := true);
      cache[h] := bytes;
      pending := pending - {cacheDescriptors[h].page};
      assert cacheDescriptors[..] == d.descs[h := d.descs[h].(dirty := true)];
      assert cache[..] == d.data[h := bytes];
      assert State() == Filled(d, h, bytes, true);
    }

    /** Flushes all cached pages of a file and closes it: the file then holds what was last
        written to each of its pages, and its handle can be given to the next file.  Nothing happens when it is not
        open. */
    method CloseFile(f: int)
      requires Valid()
      modifies this, cacheDescriptors
      ensures f !in old(openFiles) ==> State() == old(State()) && availableFileHandles == old(availableFileHandles)
      ensures f in old(openFiles) ==> availableFileHandles == old(availableFileHandles) + [f]
      ensures lost == old(lost)
      ensures |availableFileHandles| + |openFiles| == old(|availableFileHandles| + |openFiles|)
      ensures Valid() && openFiles == old(openFiles) - {f}
      ensures forall p: PageHandle :: p.file in openFiles && 0 <= p.offset < MAX_OFFSET ==>
                Content(State(), p) == Content(old(State()), p)
      ensures f in old(openFiles) ==> old(openFiles)[f] in disk
      ensures f in old(openFiles) ==> forall o :: 0 <= o < MAX_OFFSET ==>
                Content(old(State()), PageHandle(f, o)) ==
                (if BytePosition(o) in disk[old(openFiles)[f]] then Some(disk[old(openFiles)[f]][BytePosition(o)])
                    else None)
    {
      if f !in openFiles {
        return;
      }
      ghost var c := State();
      OpenHasSet(f);
      while fileAssociatedCacheSets[f] != {}
        invariant Valid() && SameContents(c, State()) && openFiles == old(openFiles) && f in fileAssociatedCacheSets
        invariant availableFileHandles == old(availableFileHandles)
        decreases fileAssociatedCacheSets[f]
      {
        SomeMember(fileAssociatedCacheSets[f]);
        var h :| h in fileAssociatedCacheSets[f];
        MemberInUse(f, h);
        var r := FlushCache(h);
        OpenHasSet(f);
      }
      CloseEmpty(f);
    }

    lemma OpenHasSet(f: int)
      requires Valid() && f in openFiles
      ensures f in fileAssociatedCacheSets
    {
    }

    lemma MemberInUse(f: int, h: int)
      requires Valid() && f in fileAssociatedCacheSets && h in fileAssociatedCacheSets[f]
      ensures InUse(State(), h) && State().descs[h].page.file == f
    {
    }

    method CloseEmpty(f: int)
      requires Valid() && f in openFiles && f in fileAssociatedCacheSets && fileAssociatedCacheSets[f] == {}
      modifies this
      ensures Valid() && openFiles == old(openFiles) - {f} && disk == old(disk)
      ensures availableFileHandles == old(availableFileHandles) + [f] && lost == old(lost)
      ensures forall p: PageHandle :: p.file != f ==> Content(State(), p) == Content(old(State()), p)
      ensures forall p: PageHandle :: p.file == f ==> Content(old(State()), p) == OnDisk(old(State()), p)
      ensures old(openFiles)[f] in disk
    {
      hide HandlesOk, StampsOk, CleanOk, OnDisk;
      ghost var c := State();
      ClosedOk(c, f);
      OneLess(openFiles, f);
      openFiles := openFiles - {f};
      fileAssociatedCacheSets := fileAssociatedCacheSets - {f};
      availableFileHandles := availableFileHandles + [f];
      assert State() == Closed(c, f);
    }

    /** Opens a file.  It fails when all handles are taken or lost, and when there is no such file: a failed open of a
        missing file loses the handle, as in the source.  So an existing file can be opened whenever fewer files are
        open than there are handles not lost. */
    method OpenFile(name: string) returns (r: Result<int, PageError>)
      requires Valid() && name !in openFiles.Values
      modifies this
      ensures Valid() && disk == old(disk)
      ensures r == Err(TooManyFiles) <==> |old(openFiles)| + old(lost) == fileHandles
      ensures r == Err(NoSuchFile) <==> |old(openFiles)| + old(lost) < fileHandles && name !in disk
      ensures r.Ok? <==> |old(openFiles)| + old(lost) < fileHandles && name in disk
      ensures lost == old(lost) + (if r == Err(NoSuchFile) then 1 else 0)
      ensures r.Ok? ==> openFiles == old(openFiles)[r.value := name] && r.value !in old(openFiles)
      ensures r.Ok? ==> availableFileHandles + [r.value] == old(availableFileHandles)
      ensures r == Err(NoSuchFile) ==> exists f :: availableFileHandles + [f] == old(availableFileHandles)
      ensures r == Err(TooManyFiles) ==> availableFileHandles == old(availableFileHandles) == []
      ensures r.Err? ==> State() == old(State())
      ensures r.Ok? ==> forall o :: Content(State(), PageHandle(r.value, o)) == DiskContent(disk, name, o)
      ensures forall p: PageHandle :: p.file in old(openFiles) ==> Content(State(), p) == Content(old(State()), p)
    {
      if availableFileHandles == [] {
        return Err(TooManyFiles);
      }
      ghost var c := State();
      var f := availableFileHandles[|availableFileHandles| - 1];
      availableFileHandles := availableFileHandles[..|availableFileHandles| - 1];
      HandleTaken(old(availableFileHandles), openFiles, name);
      assert State() == c;
      assert availableFileHandles + [f] == old(availableFileHandles);
      if name !in disk {
        lost := lost + 1;
        return Err(NoSuchFile);
      }
      OpenedOk(c, f, name);
      openFiles := openFiles[f := name];
      fileAssociatedCacheSets := fileAssociatedCacheSets[f := {}];
      forall o ensures Content(Opened(c, f, name), PageHandle(f, o)) == DiskContent(c.disk, name, o) {
        OpenedContent(c, f, name, o);
      }
      assert State() == Opened(c, f, name);
      r := Result.Ok(f);
    }
  }

  lemma Handles(stack: seq<int>, files: nat)
    requires |stack| == files && forall i :: 0 <= i < files ==> stack[i] == files - 1 - i
    ensures forall f :: f in stack <==> 0 <= f < files
  {
    forall f | 0 <= f < files ensures f in stack {
      assert stack[files - 1 - f] == f;
    }
  }

  lemma OneLess(m: map<int, string>, f: int)
    requires f in m
    ensures |m - {f}| == |m| - 1
  {
    assert (m - {f})[f := m[f]] == m;
  }
}
