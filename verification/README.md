# WaterySQL in Dafny

WaterySQL is a small single-user relational database. This project models the parts of it whose
properties reach across functions or whole runs, and proves those properties:

- **Index** (`src/index`). `IndexNode.dfy` has a node page with its key and pointer buffers, shifted in
  place as the source does. `BPlusTree.dfy` and `BPlusInvariant.dfy` say what insertion and deletion do to
  the tree, and prove that it stays sorted, balanced and filled, and refines a sorted map. `IndexFile.dfy`
  connects the pages of a file with the tree, `BPlusCursor.dfy` positions with the sequence of entries,
  `BPlusSeek.dfy` says when seeks are right, and `BPlusIndex.dfy` has the index with its loops over pages
  and the path stack.
- **Keys** (`KeyOrder.dfy`, `Dates.dfy`, `Layout.dfy`). Keys of the index are integers: the ranks of the
  source's keys, whose order is proved to be that of the comparator.
- **Record bits** (`RecordBits.dfy`). How an insertion assembles the bits of a record.
- **Table** (`TableFile.dfy`, `RecordTable.dfy`). The slot allocator with bitmaps and the linked list of
  free pages, refining a map from record offset to record.
- **Page cache** (`CacheState.dfy`, `PageCache.dfy`). The write-back cache as a value with its steps, and
  as an object that makes them; the victim of an eviction is any page in use.
- **Queries** (`Plans.dfy`, `RangeBounds.dfy`, `Gather.dfy`, `Reports.dfy`, `JoinSpec.dfy`, `Join.dfy`,
  `Answers.dfy`, `Traces.dfy`, `Selection.dfy`). Plans and costs, what the bounds of a range plan admit,
  gathering by full scans and by scans of real indexes and tables, what it reports under any plan, and the
  recursive join, whose answers are those of one run through the tables.
- **Integrity** (`IntegritySpec.dfy`, `Attach.dfy`, `FieldUpdates.dfy`, `Integrity.dfy`). The store: tables,
  index contents and reference counts as maps. Its invariant says that indexes agree with tables, that
  reference counts count live uses and that no foreign key dangles.
- **Modification** (`Files.dfy`, `UpdateConditions.dfy`, `Modification.dfy`, `Statements.dfy`). The open table
  and index files of a database, none of which shares a page with another, and insertion with its rollback,
  deletion and update on them, up to whole deletion and update statements. The files always hold the store,
  and every operation but a failed update, which has no rollback in the source, keeps its invariant.
- **Schema** (`SchemaChange.dfy`, `Integrity.dfy`). Creating and dropping tables and indexes, on the store.
- `Composition.dfy` hands the files to the query engine.

`Rows.dfy` has records and descriptors, `Sizes.dfy` the sizes of pages and integers, `Wrappers.dfy` optional values and results. `dafny verify dfyconfig.toml` checks the project.
Many proofs hide all definitions (`hide *`) and get the facts they need from small lemmas, often without a
body, that state what a definition says; this keeps every proof obligation small.

Where the code falls short of what one would expect, the exact condition is proved:

- A seek does not step on to the next leaf (`src/index/index.cpp:143-151`), so after deletions it can
  report the end too early (`BPlusInvariant.DeletionBreaksSeek`). A seek for k is right iff every separator
  at or above k that has entries above it has an entry from k up to itself (`BPlusSeek.SeekRightIff`); all
  seeks are right iff every separator with entries above it is still an entry (`BPlusSeek.AllSeeksRightIff`);
  and deleting a key breaks exact separators iff it is one (`BPlusSeek.DeleteTightIff`).
- An index scan reports every satisfying record exactly under the condition of `Gather.BetweenCompleteIff`;
  for `column >= v` that is the condition on separators (`Gather.LowerScanIff`).
- A range plan takes bounds from range predicates on any column (`src/query/query_engine.cpp:465-473`), so
  it can lose records (`Gather.MergedBoundsCutOff`). The bounds keep every record that satisfies the
  predicates iff the condition of `RangeBounds.AdmitsAllIff` holds.
- Assembling a record clears the null bit of every given field, also in a table without null bits
  (`src/query/query_engine.cpp:61`), where that bit belongs to a field. A field reads back as given iff no bit
  that is cleared from then on is a set bit of it (`RecordBits.AssembleBits`): always with null bits or a
  reference count (`RecordBits.HeaderSpares`), and not for a 1 in a table of one number
  (`RecordBits.OneReadsZero`).
- A failed update is not rolled back (`src/query/query_engine.cpp:346-382`): it always leaves an inconsistent
  database (`FieldUpdates.InterruptedBreaks`). One column of one record can be updated iff its bytes are the
  given ones already, the given field is null, or no other record has the value, if the column is unique,
  and the foreign key exists (`UpdateConditions.ReplaceableIff`). An update statement succeeds iff that holds of every
  record and column in the tables as they were, and no unique column changes to a value in two of the
  records (`Statements.UpdateRecords`; `UpdateConditions.SecondUpdateFails` is a failing one).
- An index added to a column later is filled with nulls too (`src/system/system_manager.cpp:240-245`). The
  database is consistent afterwards iff the column has none (`SchemaChange.AddIndexIff`,
  `SchemaChange.NullBreaksIndex`).
- A table with one slot per page leaves a full page on its free list, and its next insertion would write
  behind the page; with two or more the list is right (`TableFiles.NewPageKeepsFreeListIff`,
  `TableFiles.OneSlotBreaks`).
- Subtracting 32-bit numbers orders them iff their difference fits (`KeyOrder.NumbersComparedIff`).

## Model

| member | source | states |
|---|---|---|
| IndexNodes.IndexNode.Search | src/index/index.cpp:46-58 | Binary search in a node returns the number of keys below the given one. |
| IndexNodes.MoveTrailing | src/index/index.cpp:100-106 | A block move carries the entries from one position on, with the trailing slot, to another position and changes nothing else, also within one node. |
| IndexNodes.IndexNode.InsertEntry | src/index/index.cpp:240-246 | Direct insertion puts the entry at its place; all others keep their order. |
| IndexNodes.IndexNode.RemoveEntry | src/index/index.cpp:313-315 | Deletion takes out exactly the entry at its place. |
| IndexNodes.SplitInsert | src/index/index.cpp:254-278 | Both split branches leave the same two halves: the first cap/2+1 and the remaining cap/2 entries of the node with the new entry in place. |
| IndexNodes.GrowSplit | src/index/index.cpp:231-291 | A full page and its new sibling hold the two halves; leaves are linked in order, and an internal node gives up its last key, which separates the halves. |
| IndexNodes.GrowDirect | src/index/index.cpp:231-246 | With room left, the page holds the old entries and the new one, its neighbour pointing to the split child. |
| BPlusTree.DescentSeparates | src/index/index.cpp:35-44 | A descent ends in the one leaf that may hold the key: all keys in earlier leaves are below it, all keys in later leaves above it. |
| BPlusTree.InsertOrdered | src/index/index.cpp:187-304 | Insertion with split cascades keeps keys sorted, children between their separators, and all leaves at one depth. |
| BPlusTree.InsertFilled | src/index/index.cpp:240-291 | No node gets over capacity, and split internal nodes keep at least half of it. |
| BPlusTree.InsertPages | src/index/index.cpp:28-33 | Each page, old or newly allocated, is exactly one node of the tree. |
| BPlusTree.InsertLeaves | src/index/index.cpp:223-292 | Among the leaves from left to right, only the one the descent ends in is replaced, by itself with the entry or by its two halves. |
| BPlusTree.InsertChained | src/index/index.cpp:283-288 | The next links list the leaves from left to right through every split. |
| BPlusTree.HasIff | src/index/index.cpp:321-337 | The leaf a descent ends in holds a key iff the whole index does, in every reachable state. |
| BPlusTree.InsertEntries | src/index/index.cpp:187-304 | The entry sequence after an insertion is the old one with the new entry at its place. |
| BPlusTree.DeleteEntries | src/index/index.cpp:306-319 | The entry sequence after a deletion is the old one without the entry. |
| BPlusTree.DeleteOrdered | src/index/index.cpp:306-319 | Deletion without merging keeps the order and the depth. |
| BPlusInvariant.FirstLeafGood | src/index/index.cpp:190-197 | The first insertion makes page 1 a leaf that is a whole good index of one entry. |
| BPlusInvariant.InsertGood | src/index/index.cpp:187-304 | Insertion, root growth included, keeps the whole invariant (sorted, balanced, filled, pages 1 to page count - 1 used once, leaves chained) and adds exactly the given key and record to the map. |
| BPlusInvariant.DeleteGood | src/index/index.cpp:306-319 | Deletion keeps the whole invariant and removes exactly the given key from the map. |
| BPlusInvariant.HeightBound | src/index/index.cpp:240-302 | With node capacity 2m, an index of height d >= 1 has at least 2(m+1)^(d-1) leaves and at most as many as pages, deletions included: descent is logarithmic. |
| BPlusInvariant.InsertTight | src/index/index.cpp:280-291 | In an index that only grew, every separator is the largest key on its left. |
| BPlusInvariant.TightSeek | src/index/index.cpp:143-151 | In such an index a seek finds an entry iff there is one at or above the key. |
| BPlusInvariant.DeletionBreaksSeek | src/index/index.cpp:143-151 | After a deletion a seek can report the end although a later leaf has an entry: the index reached from an empty one by inserting 1, 2, 3 and deleting 2. |
| BPlusCursor.SeekRight | src/index/index.cpp:143-151 | Whatever entry a seek reports is the first at or above the key in the whole index, in every reachable state; with exact separators the report of the end is right too. |
| BPlusSeek.SeekRightIff | src/index/index.cpp:143-151 | A seek for k is right iff every separator at or above k that has entries above it has an entry from k up to itself. |
| BPlusSeek.AllSeeksRightIff | src/index/index.cpp:143-151 | All seeks in an index are right iff every separator that has entries above it is an entry itself. |
| BPlusSeek.DeleteTightIff | src/index/index.cpp:306-319 | A deletion from an index with exact separators keeps them exact iff the deleted key is no separator. |
| BPlusCursor.PlaceInjective | src/index/index.cpp:153-176 | Different entries have different positions, and the end is that of none. |
| IndexFiles.Round | src/index/index.cpp:223-292 | One round of the ascent along the saved path does to the file what the insertion does to the subtree of that level, and hands the right key and page to the next. |
| IndexFiles.NewRootStored | src/index/index.cpp:294-302 | The new root above a split root completes the insertion in the file. |
| IndexFiles.LeafDeleted | src/index/index.cpp:306-319 | Removing the entry from its page deletes it from the stored tree. |
| IndexFiles.Visit | src/index/index.cpp:202-213 | Every page on a descent is there and shows the node of the tree that the descent has reached. |
| BPlusIndex.Index.constructor | src/index/index_manager.cpp:38-39 | A new index stands for the empty map. |
| BPlusIndex.Index.FindPath | src/index/index.cpp:199-213 | The saved path is the descent for the key, and the conflict is reported iff the leaf at its end has the key, which by HasIff is iff the index has it. |
| BPlusIndex.Index.Ascend | src/index/index.cpp:223-292 | The loop over the path stores the grown tree and tells whether the root was split. |
| BPlusIndex.Index.InsertIndexEntry | src/index/index.cpp:187-304 | Adds exactly the given key and record, or fails with the conflict error exactly when the key is present, changing neither map nor pages; an index that only grew stays exact. |
| BPlusIndex.Index.DeleteIndexEntry | src/index/index.cpp:306-319 | Removes exactly the given key, or fails exactly when it is absent, changing nothing; separators stay, and an exact index stays exact iff the key is no separator. |
| BPlusIndex.Index.SearchUniqueIndexEntry | src/index/index.cpp:321-337 | Finds the record of a key iff it is in the map, after deletions too; with the three errors of the source. |
| BPlusIndex.Index.SearchEntryIn | src/index/index.cpp:35-44 | Ends at the leaf of the descent and the place of the key in it. |
| BPlusIndex.Index.SeekFacts | src/index/index.cpp:143-151 | The entries are those of the map in increasing key order; a reported entry is the first at or above the key; the end is rightly reported if the index only grew or holds the key. |
| BPlusIndex.Index.SearchIndexEntry | src/index/index.cpp:143-151 | Returns the position of the entry that the seek finds in its leaf, else the end. |
| BPlusIndex.Index.NextIndexEntryOffset | src/index/index.cpp:153-176 | Steps from the position of entry e to that of entry e + 1, over emptied leaves, and stays at the end. |
| BPlusIndex.Index.IndexEntryOffsetBegin | src/index/index.cpp:339-352 | Returns the position of the first entry, so that stepping visits every entry once in increasing order. |
| BPlusIndex.Index.RelatedRecordOffset | src/index/index.cpp:178-185 | Returns the record of the entry at a position, and no record at the end. |
| BPlusIndex.Index.PlacesDiffer | src/index/index.cpp:153-176 | Scans compare positions: different entries have different ones, and the end differs from all. |
| BPlusIndex.Index.SeeksRightIff | src/index/index.cpp:143-151 | In every reachable state of the index object, a seek for k is right iff every separator at or above k with entries above it has an entry from k up to itself. |
| BPlusIndex.Index.AllSeeksRightIff | src/index/index.cpp:143-151 | All seeks in the index object are right iff every separator with entries above it is still an entry. |
| Layout.CapacityLargest | src/index/index_manager.cpp:24-31 | The node capacity is the largest even number of entries that leaves room for the trailing slot; it is 0 or at least 2, and at least 2 iff two entries fit. |
| Layout.EntriesInPage | src/index/index.cpp:60-98 | Every pointer, key and link position of a node up to capacity lies inside the 16384-byte page. |
| Layout.MovesInPage | src/index/index.cpp:100-106 | Every block move that the node operations make stays inside both pages. |
| Layout.SlotsInPage | src/record/record_manager.cpp:23-29 | Every record slot has its bit in the bitmap and its own bytes inside the page. |
| Layout.SlotsIff | src/record/record_manager.cpp:23-29 | A page has n slots iff n records fit and n is at most 512. |
| Layout.FieldsInRecord | src/parsing/parser.cpp:241-251 | Fields lie one behind the other, behind the null bits and the reference count, and inside the record. |
| Layout.LayOutRecord | src/parsing/parser.cpp:241-251 | The loop over the declared fields computes their places and the record length. |
| RecordBits.HeaderApart | src/parsing/parser.cpp:240-251 | The null bits take the first 64 bits, if a column can be null, the reference count the next 32, if there is a primary key, and the fields follow one another behind both: nothing overlaps. |
| RecordBits.AssembleBits | src/query/query_engine.cpp:25-69 | Bit by bit, an assembled record has the null bit of a column set iff it is given no value, a zero reference count, and zeros in the fields not given; a given field reads back as it was given iff no null bit that is cleared from then on is a set bit of the field itself, which it is when the record has no null bits. |
| RecordBits.HeaderSpares | src/query/query_engine.cpp:38-43 | In a table with null bits or a reference count every given field reads back as it was given. |
| RecordBits.OneReadsZero | src/query/query_engine.cpp:54-66 | A table with one number, without nulls and keys: an inserted 1 reads back as 0. |
| KeyOrder.NumbersComparedIff | src/data/data_comparator.h:27-31 | The subtraction orders two numbers rightly iff their difference is a 32-bit number. |
| KeyOrder.FarNumbersMisordered | src/data/data_comparator.h:27-31 | Three numbers on which the comparison is no order. |
| KeyOrder.StrCmpRank | src/data/data_comparator.h:34-35 | String comparison of zero-padded strings of one length is a strict order whose equality is byte equality. |
| KeyOrder.KeyRankOrder | src/data/index_key_comparator.h:25-33 | The key comparator is the order of integer ranks, and two keys rank equal iff their compared bytes are equal: so comparable keys are strictly totally ordered. |
| KeyOrder.OffsetView | src/data/index_key_comparator.h:30-32 | The 64-bit view of record offsets is one-to-one and orders those of real pages by slot, then page. |
| KeyOrder.SentinelsBracket | src/data/index_key_comparator.h:25-33 | The search sentinels {-1,-1} and {max,max} bracket exactly the entries with a given value. |
| Dates.PackBitsIsPack | src/utility/memory/value_decoder.h:47 | Shifting and or-ing valid parts is adding their multiples, within 32 bits. |
| Dates.PackedChronological | src/utility/memory/value_decoder.h:34-48 | Packed valid dates compare as their day numbers do, and their difference never overflows. |
| Dates.YearStartClosed | src/utility/time/date_validator.h:15-20 | The years before year y have 365 y + ceil(y/4) - ceil(y/100) + ceil(y/400) days: the Gregorian rule, in closed form. |
| Dates.MonthStartClosed | src/utility/time/date_validator.h:15-20 | February starts after 31 days, month m from March on (153 (m - 3) + 2) / 5 days after March does, and March 306 days before the next year: the month lengths, in closed form. |
| Dates.ValidateIff | src/utility/time/date_validator.h:15-20 | A date is valid iff its year is 0 to 9999, its month 1 to 12, and its day from the start of the month to the start of the next. |
| Dates.EveryDay | src/utility/time/date_validator.h:15-20 | Every day of these years has a valid date. |
| TableFiles.InsertFreshConsistent | src/record/table.cpp:42-58 | Insertion into a new page keeps the free list the acyclic, duplicate-free chain of exactly the pages with a free slot, page counts equal to set bits, the header count their sum, and adds exactly one record. |
| TableFiles.InsertFreeConsistent | src/record/table.cpp:60-84 | The same for insertion into the first free page, which leaves the list when it gets full; the first clear bit is a slot of the page. |
| TableFiles.DeleteConsistent | src/record/table.cpp:101-108 | The same for deletion, which puts a full page back on the list and removes exactly one record. |
| TableFiles.UpdateConsistent | src/record/table.h:48-62 | The same for an update in place, which changes exactly one record. |
| TableFiles.NewPageKeepsFreeListIff | src/record/table.cpp:42-58 | In whatever state a page is added, some free list is right for the file afterwards iff a page has at least two slots, and iff the next insertion finds a slot that the page has. |
| TableFiles.OneSlotBreaks | src/record/table.cpp:42-58 | The first record of a table with one slot per page leaves no right free list. |
| TableFiles.LiveFromExact | src/record/table.cpp:114-138 | From a place on, the iteration order lists exactly the live records behind it, each once, by page and slot. |
| TableFiles.RecordCountExact | src/record/table.cpp:189-191 | The header count is the number of live records. |
| TableFiles.FullWithoutFree | src/record/table.cpp:42-58 | When the free list is empty, every slot of every page holds a record. |
| RecordTable.Table.constructor | src/record/record_manager.cpp:36-39 | A new table is empty. |
| RecordTable.Table.GetRecord | src/record/table.cpp:21-37 | Returns the record at an offset iff it is live; otherwise the two errors of the source. |
| RecordTable.Table.InsertRecord | src/record/table.cpp:39-88 | Returns an offset that was free, the first free slot of an existing page or the first slot of a new one, and adds exactly that record; a page is added iff no slot of any page is free; the bitmap-corrupt error is never reached. |
| RecordTable.Table.DeleteRecord | src/record/table.cpp:90-112 | Removes exactly the record, or fails iff it is not live, changing nothing. |
| RecordTable.Table.UpdateRecord | src/record/table.h:48-62 | Rewrites exactly the record, or fails iff it is not live, changing nothing. |
| RecordTable.Table.NextRecordOffset | src/record/table.cpp:114-138 | Returns the first live record behind the given place, or the end when there is none. |
| RecordTable.Table.OffsetsExact | src/record/table.cpp:197-203 | Iterating from the begin visits every live record exactly once in page and slot order, as many as the header counts. |
| CacheStates.PositionsDiffer | src/page/page_manager.cpp:51-52 | Below 2^18 pages, page o starts at byte 16384 o of its file, and pages do not overlap. |
| CacheStates.PositionsWrap | src/page/page_manager.cpp:51-52 | The first page whose 32-bit position falls on page 0. |
| CacheStates.FlushedOk | src/page/page_manager.cpp:43-59 | Writing back and freeing a handle keeps the tables consistent and no page loses its contents; the file of a cached page is open. |
| CacheStates.AssignedOk | src/page/page_manager.cpp:26-34 | Giving a free handle to a page keeps the tables consistent and no page loses its contents. |
| CacheStates.TouchedOk | src/page/page_manager.cpp:13-17 | A new time stamp keeps the tables consistent and the contents. |
| CacheStates.WrittenOk | src/page/page_manager.cpp:151-154 | Writing changes the contents of exactly one page. |
| CacheStates.ClosedOk | src/page/page_manager.cpp:94-110 | Closing a file whose pages are all flushed keeps the tables consistent and the contents of all other files. |
| CacheStates.RunKeepsContents | src/page/page_manager.cpp:13-158 | Over any run of opens, flushes, assignments, loads, reads, writes and closes, with any victim, a page of a named file holds the bytes last written to it, whether the file stays open or is closed and opened again. |
| PageCache.PageManager.FlushCache | src/page/page_manager.cpp:43-59 | Flushing any handle in use never meets the write-back-to-a-closed-file error and loses nothing. |
| PageCache.PageManager.AssignCacheHandle | src/page/page_manager.cpp:19-37 | Whichever page is evicted, the page gets a handle and all contents stay. |
| PageCache.PageManager.AllocatePage | src/page/page_manager.cpp:125-130 | Gives a page a handle; all contents stay. |
| PageCache.PageManager.LoadPage | src/page/page_manager.cpp:132-149 | Gives a page of an open file a handle with its contents; fails iff the file is closed. |
| PageCache.PageManager.AccessForReading | src/page/page_manager.cpp:156-158 | Returns the bytes last written to the page. |
| PageCache.PageManager.AccessForWriting | src/page/page_manager.cpp:151-154 | Replaces the contents of exactly that page. |
| PageCache.PageManager.CloseFile | src/page/page_manager.cpp:94-110 | After closing, the file itself holds what was last written to each of its pages; other files are untouched, and the handle is the next one to be given to a file. Closing a file that is not open changes nothing. Every handle is free, in use or lost. |
| PageCache.PageManager.OpenFile | src/page/page_manager.cpp:81-92 | Opens an existing file whenever fewer files are open than there are handles not lost, under the free handle given back last; its pages have the contents of the file on disk and no other contents change. Fails for too many files iff no handle is left, and for a missing file iff one is; only that loses the handle. |
| Plans.ReversedHolds | src/data/predicate_operator_helper.h:39-52 | A comparison holds iff the reversed one holds with its sides exchanged, and reversing twice gives it back. |
| Plans.RecordSatisfies | src/query/query_engine.cpp:235-276 | The filter passes a record iff it satisfies every predicate; comparisons are false of nulls. |
| Plans.NullOperandDrives | src/query/query_engine.cpp:163-186 | A comparison with a null gets the empty plan at cost 1 and so drives every non-empty table to the empty result; no plan looks at a missing operand. |
| Plans.EmptyPlanRight | src/query/query_engine.cpp:386-418 | The predicate behind a constant empty plan is false of every record. |
| Plans.PlannedIndex | src/query/query_engine.cpp:386-418 | An index is searched exactly for equality and scanned exactly for order comparisons, on an indexed column and with a value. |
| Plans.CostsOrdered | src/query/query_engine.cpp:163-186 | Searching an index is never dearer than scanning it and beats comparing all records from 4 records on; a scan of part of it does from 11 on; looking for nulls does in columns of more than two bytes. |
| Plans.BoundsAdmit | src/query/query_engine.cpp:465-473 | If all range predicates are on one column, every satisfying record has its value there within the merged bounds. |
| RangeBounds.AdmitsAllIff | src/query/query_engine.cpp:465-473 | The merged bounds keep every record that satisfies the predicates iff some column allows no field at all or no value that the driving column allows lies outside them; both tests try only values among and next to the operands. |
| RangeBounds.NoneSatisfiesIff | src/query/query_engine.cpp:235-276 | No record at all satisfies the predicates iff some column allows neither a null nor a value among or next to the operands. |
| Gather.FullScan | src/query/query_engine.cpp:438-446 | A full scan keeps exactly the records that satisfy the predicates, in offset order. |
| Gather.ScanIndex | src/query/query_engine.cpp:452-456 | The scan loop from one position to another keeps the satisfying records of exactly the entries between; it fails iff a missed seek starts it at the end while a real entry should stop it. |
| Gather.ComputeBounds | src/query/query_engine.cpp:465-473 | The loop computes the merged bounds. |
| Plans.MergedExtremes | src/query/query_engine.cpp:465-473 | The merged bounds are the greatest of the lower operands and the least of the upper ones, on whatever column, if there are any. |
| Gather.ScanReaches | src/query/query_engine.cpp:447-490 | With a right start, the scan between bounds meets the entry of every record whose value is within them. |
| Gather.BetweenSound | src/query/query_engine.cpp:447-490 | An index scan reports only satisfying records, each once, in every reachable state of the index. |
| Gather.BetweenComplete | src/query/query_engine.cpp:447-490 | An index scan by a safe plan reports all satisfying records. |
| Gather.SafePlans | src/query/query_engine.cpp:420-496 | With range predicates on the driving column only, a plan is safe when all seeks in the index are right, and in every state when it looks up a unique value or has no lower bound. |
| Gather.BetweenCompleteIff | src/query/query_engine.cpp:447-490 | Exactly when an index scan reports every satisfying record, for all operators, bounds and states of the index, said of separators and entries: with an empty range, if there is no such record; with a wrong lower seek, if there is none and nothing to stop at; else if each is at or above the lower bound and up to the first entry above the upper one, or the upper seek is wrong. |
| Gather.BelowLost | src/query/query_engine.cpp:465-488 | A satisfying record below the merged lower bound is never reported. |
| Gather.MergedBoundsCutOff | src/query/query_engine.cpp:465-488 | A range predicate on another column makes the engine lose a satisfying record: predicates that a table of 20 records gets planned and ordered this way, with the lost record. |
| Gather.LowerScanIff | src/query/query_engine.cpp:461-488 | The scan for a lone `column >= v` is complete iff every separator at or above the key of v with entries above it has an entry from that key up to itself. |
| Gather.GatherValidSingleTableRecordOffsets | src/query/query_engine.cpp:420-496 | For every plan, the gathered offsets are satisfying records, each once, and all of them when the plan is a full scan, the empty result or a safe index scan. |
| Reports.BetweenReported | src/query/query_engine.cpp:447-490 | For every index plan in every state of the index: a record is reported iff it satisfies the predicates, the range is not empty, the lower seek is right, and the record is at or above the lower bound and not behind the first entry above the upper one; the scan fails iff the lower seek is wrong and there is an entry to stop at; records come in the order of their keys. |
| JoinSpec.ExtractExact | src/query/query_engine.cpp:602-651 | A predicate holds of the extended choice iff it held before and the next record satisfies what is extracted from it; so a cross predicate is applied exactly when its second table is chosen, reversed if that is its left one, and a null makes it false. |
| JoinSpec.ExtractedExact | src/query/query_engine.cpp:602-651 | The same for all predicates: the extended choice fits iff the context fits and the record satisfies all extracted predicates. |
| Join.SortByCost | src/query/query_engine.cpp:652 | Sorting by cost permutes the predicates. |
| Join.ExtractContextualPredicates | src/query/query_engine.cpp:573-654 | The loops extract exactly those predicates, planned and sorted by cost. |
| Join.ReliableSure | src/query/query_engine.cpp:573-654 | If, on a table, range predicates share one indexed column and every index that can drive is unique, has no lower bound or has right seeks only, then whatever is extracted in any context has a sure plan. |
| Join.GatherFrom | src/query/query_engine.cpp:695-696 | Gathering for the next table reports exactly the satisfying records that its plan comes by, in the order of the plan, and fails exactly when its scan does; it reports all by a full scan, an empty result or a sure index plan. |
| Selection.ChooseTable | src/query/query_engine.cpp:678-691 | The table picked is not yet in the context and has the least score of all such, the cost of its first extracted predicate or of reading it all; it is the last one of several. |
| Selection.ReorderedOk | src/query/query_engine.cpp:692-694 | Reordering keeps the source tables, each once, with the picked one behind the context. |
| Selection.EncodeSelected | src/query/query_engine.cpp:711-737 | The encoded row has the selected columns of the chosen records, nulls marked. |
| Answers.ProjectShows | src/query/query_engine.cpp:727-731 | With all selected tables joined, a row has one field for each selected column: none iff the column can be null and the null bit of the chosen record is set, else the value of the chosen record. |
| Traces.RunExact | src/query/query_engine.cpp:656-709 | The choices that a run of the join makes are exactly the rows of the filtered cross product that extend its context and all of whose records the run comes by. |
| Selection.GatherNext | src/query/query_engine.cpp:695-696 | From any context, exactly the records that go with it and that the gathering comes by are gathered, each once, in the order of the plan; it fails exactly when its scan does. |
| Answers.GoalsAll | src/query/query_engine.cpp:695-707 | Every row of the filtered cross product that extends the context goes through one of the gathered records. |
| Selection.SelectFromMultipleTables | src/query/query_engine.cpp:656-709 | From any context, the recursion goes by one run: it answers, in the order of the run, exactly the rows of the filtered cross product that extend the context and whose records the run comes by, each once, and returns their number, or fails exactly where the run does; all of them, and no error, if the predicates can bring about only sure plans on the joined tables. |
| Selection.SelectRecords | src/query/query_engine.cpp:498-546 | Whatever the plans: the answers are exactly the rows of the filtered cross product whose records the run of the join comes by, each once, in its order, and the count is their number; an error means that a scan of the run fails. Each field is the null mark iff the column can be null and the null bit of the chosen record is set, else its value. All rows are answered, and there is no error, if the predicates can bring about only sure plans on the joined tables. |
| Integrity.AssembleRecord | src/query/query_engine.cpp:25-66 | A record is refused for too many columns iff there are more than the table has, else for a null iff one is given for a column without nulls; otherwise it has the given cells, and columns not given are null or zero. |
| Attach.AttachOk | src/query/query_engine.cpp:84-147 | Adding a record with all its index entries and uses of foreign keys keeps indexes, reference counts and foreign keys in step. |
| Attach.DetachOk | src/query/query_engine.cpp:188-233 | Taking a record away with all its index entries and uses keeps them in step but for uses of its own key, and attaching it again gives the old database back. |
| Attach.TargetLookup | src/query/query_engine.cpp:118-121 | Looking a foreign key up in the primary key index finds its record iff there is one, and it is the only one. |
| Attach.Unused | src/query/query_engine.cpp:196-200 | A record whose key is not used leaves no foreign key dangling. |
| Attach.UseHasTarget | src/query/query_engine.cpp:115-125 | In every consistent state each live foreign key has exactly one record that it refers to, with a count above zero. |
| Attach.CountAdded | src/record/table.cpp:216-226 | Adding one to the count of the record that a foreign key refers to accounts for exactly that use more. |
| Attach.CountDropped | src/record/table.cpp:228-242 | Taking one from it accounts for exactly that use less. |
| FileSteps.Files.InsertRow | src/query/query_engine.cpp:104 | Inserting into a table file puts exactly that row at a free offset; every other table and index file still holds what it held. |
| FileSteps.Files.InsertIndexEntry | src/query/query_engine.cpp:110-112 | Inserting into an index file adds exactly that entry or, iff the key is present, nothing; every other file still holds what it held. |
| FileSteps.Files.AddReference | src/record/table.cpp:216-226 | Counts one more use in the table file of exactly one record, or changes nothing iff the records of the table are not counted or there is no such record; every other file still holds what it held. |
| FileSteps.Files.DropReference | src/record/table.cpp:228-242 | Counts one use less, or changes nothing iff the records are not counted, the record is missing or its count is zero; every other file still holds what it held. |
| FieldUpdates.InterruptedBreaks | src/query/query_engine.cpp:346-382 | A column update that stops at a conflicting index entry or a missing foreign key always leaves an inconsistent database. |
| Modification.Rollback | src/query/query_engine.cpp:127-146 | Undoing a partial insertion restores all table and index files to what they held; none of its steps can fail. |
| Modification.InsertEverywhere | src/query/query_engine.cpp:98-147 | On the table and index files: succeeds iff every key is fresh and every foreign key exists; a failure at any column leaves all files holding what they held, and is at the first column that cannot be entered: a conflict iff its key is in the index, a missing foreign key iff its key is not and its target is missing. |
| Modification.InsertRecord | src/query/query_engine.cpp:84-147 | Keeps the invariant; succeeds iff the cells suit the table, unique values are fresh and foreign keys exist; otherwise nothing has changed, and the error is for too many cells iff there are more than columns, else for a null iff one is given for a column without nulls, else that of the first column that cannot be entered. |
| Modification.DeleteRecord | src/query/query_engine.cpp:188-233 | Keeps the invariant; refused iff the record is referenced; once past that check no step can fail, and exactly the record, its entries and its uses are gone. |
| Modification.UpdateColumn | src/query/query_engine.cpp:346-382 | Succeeds iff the bytes do not change, the given field is null, or no other record has the value, in a unique column, and the foreign key exists, all in the tables as they were; then exactly this field has changed and the invariant holds, index entry and use moved with it; a field with equal bytes stays as it is, null bit included. It fails for a conflict iff another record has the changed value in a unique column, else for a foreign key; the database is then halted at the entry or use that failed, and never consistent. |
| Modification.UpdateRecord | src/query/query_engine.cpp:340-384 | Several columns of a record are updated iff each of them can be updated in the tables as they were; then the invariant holds and exactly these have changed. A failed update has changed the columns before the first that cannot be updated, is halted there with the error of that column, and leaves an inconsistent database. |
| Modification.CheckColumns | src/query/query_engine.cpp:310-322 | The columns to update are refused at the first that is the primary key or named before, with the error for which of the two it is. |
| UpdateConditions.FreshIff | src/query/query_engine.cpp:110-112 | The key of a record that is not in the table is fresh in an index iff the column is not unique or no other record has the value. |
| UpdateConditions.ReplaceableIff | src/query/query_engine.cpp:346-382 | In a consistent database, the index lookups of a column update succeed iff a condition on the tables alone holds. |
| UpdateConditions.EnterableWithin | src/query/query_engine.cpp:345-383 | Updating some columns of a record changes nothing about whether its other columns can be updated. |
| UpdateConditions.EnterableAmong | src/query/query_engine.cpp:332-334 | After some records are updated, a column of another can be updated iff it could before and, if it is unique and changes to a value, none of them has changed to it. |
| UpdateConditions.SecondUpdateFails | src/query/query_engine.cpp:332-334 | A concrete failing update: each of two records can have a unique column set to 3, both together cannot. |
| Statements.GatherWhere | src/query/query_engine.cpp:278-303 | The predicates on the table alone are planned and sorted; exactly the records that satisfy all of them and that the plan comes by are gathered, each once, in its order, unless its scan fails; they are all satisfying records if the plans are sure. |
| Statements.DeleteAll | src/query/query_engine.cpp:156-158 | Deleting records from the last to the first succeeds iff none of them was referenced to begin with; then exactly these are gone; otherwise it stops at the last referenced one, and exactly those behind it are gone. The invariant holds in any case. |
| Statements.DeleteRecords | src/query/query_engine.cpp:149-161 | A whole deletion statement: exactly the matching records that the plan comes by are gathered, all of them if the predicates bring about sure plans only; it fails in gathering iff the scan of its plan does, and otherwise succeeds iff none of the gathered records is referenced, and then exactly these are gone. |
| Statements.UpdateRecords | src/query/query_engine.cpp:305-338 | A whole update statement: refused, changing nothing, with the error of the first refused column, or for an invalid null if there is none; otherwise exactly the matching records that the plan comes by are gathered, unless its scan fails. It succeeds iff every field can be entered in the tables as they were and no unique column changes to a value in two of the records; then exactly these have exactly these columns updated. The invariant holds afterwards iff it succeeded, was refused, or gathering failed. |
| SchemaChange.CreateOk | src/system/system_manager.cpp:98-160 | Adding an empty table whose foreign keys refer to primary keys keeps the invariant. |
| SchemaChange.DropOk | src/system/system_manager.cpp:162-214 | Dropping an empty table to which no other refers keeps the invariant. |
| SchemaChange.FilledAgreesIff | src/system/system_manager.cpp:234-245 | An index filled in later is in step with its table iff the column has no nulls. |
| SchemaChange.AddIndexIff | src/system/system_manager.cpp:216-246 | Adding the index of a column keeps the whole invariant iff the column has no nulls. |
| SchemaChange.NullBreaksIndex | src/system/system_manager.cpp:234-245 | A table with one null: the index added to its column leaves an inconsistent database. |
| Integrity.Database.CreateTable | src/system/system_manager.cpp:98-160 | Succeeds iff the name is free, every foreign key column refers to a primary key and keys and records, of the length that the declaration gives, fit their pages; a failure has the error of the first column that cannot be created, or of the record length if there is none, and leaves everything as it was; keeps the invariant. |
| Integrity.Database.UndoCreation | src/system/system_manager.cpp:147-159 | Undoing a failed creation restores the reference counts of other tables and the indexes. |
| Integrity.Database.DropUses | src/system/system_manager.cpp:182-197 | The loop over a record's columns drops exactly its uses; no lookup or count can fail. |
| Integrity.Database.DropColumns | src/system/system_manager.cpp:201-210 | Exactly the indexes of the table and its references to other tables are gone; no count can fail. |
| Integrity.Database.DropTable | src/system/system_manager.cpp:162-214 | Refused iff the table is missing or referred to; otherwise exactly the table, its indexes and its uses of other records are gone, and the invariant holds. |
| Integrity.Database.CreateIndex | src/system/system_manager.cpp:216-246 | Refused, changing nothing, iff the column is indexed already or else its key oversized; otherwise the index holds an entry for every record, and the invariant holds iff the column has no nulls. |
| Composition.AllReady | src/query/query_engine.cpp:420-709 | Files that hold a consistent database are what gathering and joining rely on. |
| Composition.OpenFilesHold | src/query/query_engine.cpp:149-153 | The files that insertions, deletions and updates work on are, after every one of them, files that hold the database as queries need it. |
| Composition.SelectFrom | src/query/query_engine.cpp:498-546 | A selection on the files of any consistent database answers exactly the rows of the filtered cross product whose records its run comes by, each once, with their number and with the fields of the chosen records, or fails where the run does; if the predicates can bring about only sure plans on the joined tables, it succeeds and reports all rows. |

## Left out

- Scanner, parser, actors, output and the command loop. What the parser guarantees of a table declaration is the precondition `SchemaChange.Declared`; column and table names in predicates are taken as resolved, so a missing column is not an error here, and neither is a comparison of columns of different types.
- KeyOrder.KeyRankOrder: requires comparable keys, that is no FLOAT values and no INTEGER keys whose difference leaves 32 bits, because on those the source's comparison is no order (`KeyOrder.FarNumbersMisordered`); `KeyOrder.NumbersComparedIff` is the exact condition for numbers.
- RecordTable.Table.constructor: requires two slots per page, because with one the second insertion writes behind its page in the source; `TableFiles.NewPageKeepsFreeListIff` shows that two are exactly what the free list needs.
- RecordTable.Table.GetRecord: requires an offset that is not on page 0, the header page, whose bytes the source would read as records; no offset that a table returns is on it.
- RecordTable.Table.DeleteRecord: the same; the source would clear bits of the header.
- RecordTable.Table.UpdateRecord: the same.
- RecordTable.Table.NextRecordOffset: requires the end or a place on a data page, for the same reason; iterations start at page 1.
- PageCache.PageManager.OpenFile: requires a file that is not open yet; the source would open it again under a second handle with its own cached pages, which the record and index managers, keeping one handle per name, never ask for.
- Integrity.Database.CreateTable: requires a positive record length, by which the source divides; only a declaration of nothing but CHAR(65535) columns without nulls and keys has length 0, since the length wraps around.
- PageCache.PageManager.LoadPage: requires that a page that is not cached was written to its file, since reading behind the end puts the source's stream into a failed state in which later reads and writes do nothing.
- Modification.InsertEverywhere: requires that the table file has fewer than 2^31 - 1 pages, the range of the source's page offsets.
- Modification.InsertRecord: the same, and it stores the cells that `Integrity.AssembleRecord` gives it.
- Integrity.AssembleRecord: stores the given values themselves, and so does every statement that uses it; the source stores them when `RecordBits.Spared` holds of every field, which is always so in a table with null bits or a reference count, and otherwise clears bits of them.
- File-system work: a file is a map from page position to bytes, an index or table file the pages themselves.
- Selection.SelectRecords: requires different source tables; the source tells tables apart by their names only, so that predicates cannot address the two occurrences of a table named twice.
- Raw memory: an operation on an index or table works on its pages as objects, as if no page were evicted within one operation. The page cache is verified by itself and not put underneath them.
- The `prev` link of leaves, which the source does not maintain (`src/index/index.cpp:283-288`) and never reads. A split copies it as the source does; nothing is claimed of it.
- Wrap-around of time stamps in the page cache and of 32-bit reference counts, and page offsets from 2^18 on. Costs and scores are unbounded integers here.
- The least-recently-used order of evictions that a comment announces (`src/page/page_manager.cpp:21`): the code takes the first entry of an unordered map (`src/page/page_manager.h:32`), so here any page in use can be the victim.
- Value decoding, except for dates, and bits written behind the end of a record. Outside `RecordBits.dfy`, null bits and reference counts are fields of a record, a value is the rank of its bytes, and the rank of a zeroed field is 0.
- Comparisons between two columns of one table, which the source never applies; `JoinSpec.Applies` says so.
- Foreign keys and cross-table comparisons between columns of different types or lengths: values are compared by rank, which is right for columns of one type and length.
- A failed open of a file loses its file handle, as in the source; `PageCache.PageManager.OpenFile` counts the lost ones.
- Integrity.Database: creates and drops tables and indexes on the store, as maps of records and entries; creating and deleting their files is not modelled, so runs that mix schema changes with modifications are linked by the invariant of the store only.
- Dropping an index, renaming, and the lists of open tables and databases: no more than map updates.
- Single-table selection and the record-by-record loop of insertion statements, which repeat the operations above.
