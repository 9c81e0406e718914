# nickdb, modelled and proved

nickdb keeps fixed-size pages in one file. `src/lib/fileio.c` hands pages out, takes them back
and reuses them first-in first-out: the free pages form a queue whose links are stored in the
free pages themselves, with the head, the tail and the size of the store in page 0.
`src/lib/buffer_manager.c` caches pages in frames; clean free frames and dirty frames waiting to
be written form two lists that run through one shared field, and a table leads from a page to the
frame that holds it. `src/lib/datastructures/linkedlist.h` has the intrusive lists.

The project models the three files over their own representations and proves them against what
those representations mean.

| file | what is in it |
|---|---|
| Words.dfy, Files.dfy | `ssize_t` words in pages; the store file as a flat run of bytes with `pread`/`pwrite` |
| Store.dfy | fileio.c: one function per call for what it leaves on disk, and the code as methods of `Backing` |
| StoreInvariant.dfy | what the bytes mean (queue of free pages, map of live ones), and every call as a step of that meaning |
| StoreRuns.dfy, StoreQueue.dfy | whole runs: replies, contents, growth, the queue, recovery after calls that fail half-way |
| StoreBytes.dfy | the same in bytes and numbers: the layout on disk, what each call writes and answers on any file |
| StoreFaults.dfy | where fileio.c departs from what it says, with the exact condition each time |
| Pool.dfy, BufferManager.dfy | buffer_manager.c: one function per call on a value, and the code as methods of `Manager` |
| PoolAnswers.dfy | what each call of buffer_manager.c answers on any pool, and what it leaves then |
| PoolInvariant.dfy | the two lists, the table, and how each call moves them |
| PoolRuns.dfy, PoolTheorems.dfy | pool and store together over whole runs |
| PoolClient.dfy, PoolClientRuns.dfy | the same for clients judged by their calls, the answers they got, and which flushes they trust |
| PoolFlush.dfy | the write-back loop as a fold |
| PoolFaults.dfy | where buffer_manager.c departs from buffer_manager.h, with the exact condition each time |
| Lists.dfy, HashLists.dfy | linkedlist.h over heap objects |
| Sequences.dfy, Wrappers.dfy | shared helpers |

## How to read it

**Bytes and meaning.** The implementation state of a store is its bytes only. `Means(f, m)` says
that the bytes `f` mean the model `m`: a size, a duplicate-free queue of free pages, a map from
live pages to contents, and `loose`, the free pages whose link is not known to be right. A page
becomes loose when a call fails half-way: the last free page in `free_page`, the first one in
`alloc_page`. `MeaningIsUnique` shows that the bytes of a store with no loose page leave no
choice. `MeansInBytes` spells the invariant out in bytes, so that every theorem about `Means` is
one about the words and zeros on disk.

**Failing I/O.** Each call takes `io`, the number of its reads and writes that the operating
system lets succeed. Every call gives up at the first failure, so `io` ranges over all the ways a
call can fail. A page read or write moves the whole page or nothing. Runs contain every failing
call, also those that fail half-way.

**What runs leave out.** Callers of the store name live pages, page 0, or, to read and write,
negative page numbers (`OpOk`). `AllocOk` excludes two calls, and no more: an `alloc_page` that would
pop a page which an earlier half-done call left loose, and one without a source page whose stray
blank write does harm (never in a store of at most PAGESIZE pages: `SmallStoresAreSafe`). The
first follows a failure of the machine that no caller can rule out, but every caller is told of
it: `RunTold` ties the loose pages to the answers, `FailedFreeRecovers` and
`FailedReuseRecovers` say how callers get out, `PopExact` when such a pop is right all the same,
and `FailedFreeDoubleAllocation` what happens when it is not.

**Departures kept as they are.** These are modelled as the code has them, and a lemma of the form
"if and only if" says when the code still does what it should:

- `fileio.c:230` takes the byte offset of a reused page for a page number: `StrayBlankExact`,
  `SmallStoresAreSafe`, `StrayBlankBoundIsTight`, `BlankPageExact`.
- `fileio.c:265` reports index 1 where every other failure reports -1: `FailedAllocIndex`.
- `fileio.c:221-242` writes the first contents of a reused page before the metadata:
  `FailedReuseExact`, `FailedReuseRecovers`.
- `fileio.c:293-374` checks neither that the page exists nor that it is live; -1, which a failed
  `alloc_page` reports, damages the list: `FreeExact`.
- `fileio.c:341-367` rewrites the old tail first, and the freed page before the metadata:
  `FailedFreeExact`, `FailedFreeRecovers`, `PopExact`, `FailedFreeDoubleAllocation`,
  `DoubleAllocationHappens`.
- `buffer_manager.c:73` starts the free list at the first frame even when there is none:
  `CreatedExact`.
- `buffer_manager.c:177` answers a table hit with the first free frame, and `:187` copies the
  second free frame over the first and does not move the list head; `:170-185` leaves a table
  entry behind when the read fails: `PinAsWrittenExact`, `HitAsWritten`, `PinTwiceAsWritten`,
  `PinTwiceHappens`.
- `buffer_manager.c:150-153` asks for a free frame before it looks into the table, so a page that
  is pinned already is refused when no frame is free: `PinExact`, `NoFrameHappens`.
- `buffer_manager.c:355-371` leaves cleaned frames on the writeback list: `FlushAsWrittenExact`,
  and `FlushTwiceHappens` for what that does to the free list on disk.
- `buffer_manager.c:364-370` answers STATUS_OK whichever writes fail, where the comment at
  351-353 says that all dirty pages are written: `FlushExact`.
- `buffer_manager.c:344` refuses to mark a frame in FS_UNPINNED_DIRTY, where the comment at
  328-329 says that marking works in all states but FS_UNPINNED; the code is the one that keeps
  the lists in order: `MarkExact`.
- `buffer_manager.c:312` fakes the state of a frame without looking at it: `FreeFrameExact`,
  `FreeFrameHappens`.
- `buffer_manager.c:217-223` drops the table entry of a page that still waits to be written:
  `RepinExact`, `RepinHappens`. Unpinning a changed frame that was not marked:
  `UnmarkedUnpinExact`.
- `buffer_manager.c:276-288` takes a page before it looks for a frame and reads the page:
  `AllocFrameExact`.

The lemmas whose names end in `Happens`, and `StrayBlankBoundIsTight`, reach the failing states
from a store or a pool just created.

**Repairs used for runs of the buffer manager.** As written, `buff_pin` and `buff_flush_all` break
the lists at their first success, so the theorems about whole runs use `Pin` (the list moves on, a
hit gives the page's own frame, a failed read leaves no entry) and `Flush` (the loop as it is
written, followed by the relinking that its TODO asks for). Everything else in those runs,
`alloc_page` with its stray blank write included, is the code as written.

**What clients owe.** `PoolOpOk` puts it in terms of the state: pages are pinned only while live
and not while they wait to be written; a pinned frame that is unpinned as clean equals its page on
disk; only pinned frames are changed or freed; and `AllocOk`. `ClientOk` puts it in terms of what
a client knows from its own calls and the answers: pin pages you have and have not just changed;
mark what you have written before you unpin it; touch only frames you have pinned; ask for a new
page only while there never were PAGESIZE at once, counting those that may be lost, and not after
a failed free until one has succeeded. `ClientStepAgrees` and `ServeIsPoolRun` show that the second implies the first over
every run. The answers do not tell whether the writes of `buff_flush_all` went through
(`FlushExact`), so a client chooses which flushes it trusts, and may pin again the pages it changed
before them. `AllDeserved` is what the machine then owes: to refuse no write of a trusted flush. A
client that trusts none is judged by calls and answers alone, and is owed nothing.

**Table keys.** The code keys the table on addresses of locals (`buffer_manager.c:90,161-170`).
The model uses a map from page number to frame number, which is the table that
`buffer_manager.h:63` describes, in `PinAsWritten` as well.

## Model

| member | source | states |
|---|---|---|
| Words.DecodeEncode | src/lib/fileio.h:35-37 | a word written into a page reads back as the same `ssize_t`, for all of them |
| Words.EncodeDecode | src/lib/fileio.h:35-37 | any eight bytes are exactly one `ssize_t`, and encode back to themselves |
| Words.FieldOfSetField | src/lib/fileio.h:43-55 | setting one field of the metadata page sets that one and leaves the other two |
| Words.FreeImageIsNotBlank | src/lib/fileio.h:30-37 | a page that holds a non-zero link is not blank |
| Files.WritePage | src/lib/fileio.c:221-237 | a page write changes that page, no other page of the old file, and extends the file exactly as far as needed |
| Store.Backing.CreateNewBacking | src/lib/fileio.c:61-79 | the code of the metadata set-up leaves the file and status of `Create`, whose bytes `CreateBytes` gives |
| Store.Backing.AllocPage | src/lib/fileio.c:177-287 | the code, with its early exits and for a NULL backing, leaves exactly the file, status and index of `Alloc`; `AllocAnswers`, `GrowPages` and `ReusePages` say which |
| Store.Backing.FreePage | src/lib/fileio.c:293-374 | the code leaves exactly the file and status of `Free`, checking the page number before the backing; `FreedBytes` and `FreeAnswers` say which |
| Store.Backing.GetPage | src/lib/fileio.c:381-404 | the code gives the status and bytes of `Get`, which `GetExact` pins on any file and page number |
| Store.Backing.PutPage | src/lib/fileio.c:409-429 | the code leaves exactly the file and status of `Put`, which `PutExact` pins on any file and page number |
| StoreInvariant.CreateMeansFresh | src/lib/fileio.c:61-79 | a created store means size 1, no free and no live page; creation succeeds iff its one write does |
| StoreInvariant.AllocMeans | src/lib/fileio.c:177-287 | outside its hazards, whichever I/O fails: the bytes after `alloc_page` mean the popped, the grown or the old model, or the old one with its first free page loose, with the model's status and index |
| StoreInvariant.FreeMeans | src/lib/fileio.c:293-374 | for a live page, whichever I/O fails: the bytes after `free_page` mean the model with the page queued last, or the one of a half-done call, with the old tail loose |
| StoreInvariant.GetMeans | src/lib/fileio.c:381-404 | a live page reads as its content in the model |
| StoreInvariant.PutMeans | src/lib/fileio.c:409-429 | writing a live page changes the content of that page in the model and nothing else |
| StoreRuns.RunRefines | src/lib/fileio.c:177-429 | over every run of calls, whichever I/O fails in each, short of popping a page that a half-done call left loose or a harmful stray write: the bytes keep their meaning and give the model's replies |
| StoreRuns.SameMeaningSameReplies | src/lib/fileio.c:177-429 | stores with the same meaning answer every later run alike |
| StoreRuns.FailedGrowthIsInvisible | src/lib/fileio.c:249-277 | a failed `alloc_page` that had to grow leaves the meaning, and every later run answers as if it had not been called |
| StoreRuns.ReadsWhatWasSupplied | src/lib/fileio.c:177-429 | from a fresh store, a page reads as the bytes that the calls and answers alone say were last supplied for it |
| StoreRuns.PagesAreConserved | src/lib/fileio.c:200-279 | free and live pages together number exactly size - 1 |
| StoreRuns.GrowthIsOptimal | src/lib/fileio.c:200-279 | from a fresh store, over every run, the size on disk is one more than the peak number of live pages |
| StoreQueue.FirstFreedFirstReused | src/lib/fileio.c:200-367 | frees, then allocations: pages queued before come first, then the freed ones in the order they were freed |
| StoreQueue.WalkIsQueue | src/lib/fileio.h:30-37 | with no loose page, following links through the bytes from the head on disk gives the queue, ends by itself, repeats no page and ends at the tail |
| StoreQueue.WalkReachesTail | src/lib/fileio.h:30-37 | with at most the last page loose, the links from the head still pass exactly the queue and reach the tail |
| StoreQueue.RunTold | src/lib/fileio.c:177-374 | over every run, calls and answers tell how many pages are free and which can be loose: the first, after a failed reuse with a source until a page is next taken off the list; the last, after a failed free (or a failed reuse of the only page) until the next good free; no other, and none after a failed growth |
| StoreQueue.EveryReachableStore | src/lib/fileio.c:177-374 | in every store a run from a fresh one reaches, pages are either free or live and head is -1 iff tail is; the answers tell how many pages are free; unless they leave the first free page in doubt, the links from the head on disk pass the queue and reach the tail; unless the last one too, the walk also ends there |
| StoreQueue.MeaningIsUnique | src/lib/fileio.h:30-55 | the bytes of a store have only one meaning with no loose page |
| StoreQueue.FailedFreeRecovers | src/lib/fileio.c:341-367 | after a free that failed past the old tail, allocations short of the tail come out in order and the next successful free restores the whole invariant |
| StoreQueue.FailedReuseRecovers | src/lib/fileio.c:220-242 | after a reuse of the only free page that failed between its two writes, the next successful free restores the whole invariant |
| StoreBytes.WordBytes | src/lib/fileio.h:35-37 | a `ssize_t` is eight bytes, two's complement, least significant first |
| StoreBytes.PwriteBytes | src/lib/fileio.c:221-237 | a `pwrite` changes the bytes it names, keeps all others and fills a gap with zeros |
| StoreBytes.FreeImageBytes | src/lib/fileio.c:325-328 | a page is a free page's image iff its first word is the link and all else is zero |
| StoreBytes.OffsetsAndIndexes | src/lib/fileio.c:163-175 | a page starts at its number times 4096, and any offset leads back to its page, rounding towards page 0 |
| StoreBytes.MeansInBytes | src/lib/fileio.h:30-55 | the invariant holds iff page 0 begins with the size, the offset of the first free page and that of the last, each free page that is not loose begins with the next one's and is zero behind it, -1 standing for none, and live pages hold their contents |
| StoreBytes.CreateBytes | src/lib/fileio.c:61-79 | a created store is one page: the words 1, -1, -1 and zeros |
| StoreBytes.AllocAnswers | src/lib/fileio.c:177-287 | on any file, which status and index each call answers |
| StoreBytes.GrowPages | src/lib/fileio.c:249-277 | on any file whose head is -1, whichever I/O fails: the page behind the last is blank and then the source page, the size goes up last, and no other page changes |
| StoreBytes.ReusePages | src/lib/fileio.c:200-246 | with a free page, whichever I/O fails: where the first contents go, how the metadata changes after them, and that no other page does |
| StoreBytes.FreeAnswers | src/lib/fileio.c:293-374 | on any file and any page number, which status each call answers |
| StoreBytes.FreedBytes | src/lib/fileio.c:320-367 | a freed page holds -1 and zeros, the old tail the freed page's offset and zeros, and the metadata ends the list with it |
| StoreBytes.GetExact | src/lib/fileio.c:381-404 | on any file and page number: success iff the page is positive, lies in the file and the read goes through; then its bytes, else the destination as it was and which status |
| StoreBytes.PutExact | src/lib/fileio.c:409-429 | on any file and page number: success iff the page is positive, can be written and the write goes through; then every byte of the file, else the file as it was and which status |
| StoreFaults.StrayBlankExact | src/lib/fileio.c:228-236 | a reuse with no source page does what it should to the store iff the page it really blanks can be written, and is past the end, or live and blank already |
| StoreFaults.SmallStoresAreSafe | src/lib/fileio.c:228-236 | with at most PAGESIZE pages it always does |
| StoreFaults.StrayBlankBoundIsTight | src/lib/fileio.c:228-236 | with 4097 pages and page 1 reused, page 4096 loses its contents |
| StoreFaults.BlankPageExact | src/lib/fileio.c:228-236 | a page asked for without a source is blank iff the store grew |
| StoreFaults.FailedAllocIndex | src/lib/fileio.c:261-268 | a failing call reports index 1 iff it is the data write into a new page that fails, else -1 |
| StoreFaults.FailedReuseExact | src/lib/fileio.c:220-242 | a reuse that fails at the metadata write leaves the store's meaning iff the source page equals the free page it replaced, and the chain of links iff its first word is that page's link; with no source page, the meaning iff the stray blank write was harmless |
| StoreFaults.FailedFreeExact | src/lib/fileio.c:320-374 | a free of a live page that fails leaves the store's meaning iff it failed before its first write, or no page was free and the freed one already held the end link and zeros; the links from the head pass the free pages and end iff it failed before its first write or no page was free |
| StoreFaults.PopExact | src/lib/fileio.c:200-242 | whichever pages are loose: an `alloc_page` with a source takes the first page off the list, and leaves all other free and live pages as they were, iff the link in that page is the right one |
| StoreFaults.FailedFreeDoubleAllocation | src/lib/fileio.c:341-359 | a failed free, then two allocations: the second hands out the page that is still live |
| StoreFaults.DoubleAllocationHappens | src/lib/fileio.c:341-359 | that from a fresh store, in six calls |
| StoreFaults.FreeExact | src/lib/fileio.c:289-374 | for every page number, also negative: a call on a machine that fails no I/O leaves a store in which just that page is no longer live iff the page is page 0, live, the tail of the free list, or one that cannot be written while the list is empty |
| BufferManager.Manager.Create | src/lib/buffer_manager.c:63-90 | the set-up loop leaves the pool `Created`, all frames on the free list in order |
| BufferManager.Manager.BuffPinAsWritten | src/lib/buffer_manager.c:139-199 | the code as written reads through NULL exactly where `PinAsWritten` says so, and else leaves its pool, status and frame; `PinAsWrittenLoads` and `PinAnswers` say which |
| BufferManager.Manager.BuffPin | src/lib/buffer_manager.c:139-199 | the repaired code leaves the pool, status and frame of `Pin` |
| BufferManager.Manager.BuffUnpin | src/lib/buffer_manager.c:207-261 | the code leaves the pool and status of `Unpin`, which `UnpinAnswers` pins for every state |
| BufferManager.Manager.BuffMarkPage | src/lib/buffer_manager.c:331-349 | the code leaves the pool and status of `Mark` |
| BufferManager.Manager.BuffAllocFrame | src/lib/buffer_manager.c:267-295 | the code leaves the pool and pair of `AllocFrame` |
| BufferManager.Manager.BuffFreeFrame | src/lib/buffer_manager.c:300-325 | the code leaves the pool and status of `FreeFrame`, and refuses a NULL frame |
| BufferManager.Manager.BuffFlushAll | src/lib/buffer_manager.c:356-371 | the loop as written ends, and equals the fold `FlushList` over the writeback list |
| BufferManager.Manager.ReclaimFlushed | src/lib/buffer_manager.c:355 | the relinking that the TODO asks for equals the fold `ReclaimList`, and ends although it rewrites the pointers it follows |
| BufferManager.Manager.BuffFlushAllRepaired | src/lib/buffer_manager.c:355-371 | the loop and then the relinking leave the pool of `Flush` |
| BufferManager.Manager.BuffDestroy | src/lib/buffer_manager.c:110-116 | the loop of `buff_destroy` has the same effect on the disk |
| PoolAnswers.CreatedFrames | src/lib/buffer_manager.c:63-90 | a created pool has zeroed frames for page 0, each pointing at the next, an empty writeback list and an empty table |
| PoolAnswers.PinAnswers | src/lib/buffer_manager.c:139-199 | on any pool and page number, which status `buff_pin` answers, as written or repaired; refused, the repaired one changes nothing; on a miss it puts the page's bytes on disk into the first free frame and changes no other |
| PoolAnswers.PinAsWrittenLoads | src/lib/buffer_manager.c:181-198 | as written, a miss with a second free frame reads the page into the first, whose place in the list becomes a copy of the second's; a failed read leaves the table entry and nothing else |
| PoolAnswers.UnpinAnswers | src/lib/buffer_manager.c:207-261 | success iff the frame is pinned, and then what changes; any other frame is refused with STATUS_ERR and left alone |
| PoolAnswers.MarkAnswers | src/lib/buffer_manager.c:331-349 | success iff the frame is pinned; any other is refused with STATUS_MARK_ERR and left alone |
| PoolAnswers.AllocFrameAnswers | src/lib/buffer_manager.c:275-293 | the status of `alloc_page` if that fails, else that of pinning the new page; no page and no frame unless it succeeds |
| PoolAnswers.FreeFrameAnswers | src/lib/buffer_manager.c:300-325 | for a frame in any state: status and file are those of `free_page` of its page, and the frame becomes unpinned and first on the free list |
| PoolInvariant.CreatedIsTidy | src/lib/buffer_manager.c:72-90 | a created pool with any frames has all frames on the free list, once each, and an empty table |
| PoolInvariant.PinTidy | src/lib/buffer_manager.c:139-199 | a pin takes the head off the free list and keeps lists and table in order, or changes nothing at all |
| PoolInvariant.UnpinTidy | src/lib/buffer_manager.c:207-261 | an unpin puts the frame at the head of the list for its state and keeps lists and table in order |
| PoolInvariant.FlushTidy | src/lib/buffer_manager.c:355-371 | a repaired flush moves exactly the cleaned frames to the free list and keeps the others waiting |
| PoolInvariant.FramesAreConserved | src/lib/buffer_manager.h:53-61 | pinned, free and waiting frames always add up to all frames |
| PoolInvariant.ListsAreWalked | src/lib/buffer_manager.h:53-61 | walking the pointers gives the two lists whole: neither runs in a circle |
| PoolRuns.PinSound | src/lib/buffer_manager.c:139-199 | pinning changes no page's content and no page gets a second holder |
| PoolRuns.UnpinSound | src/lib/buffer_manager.c:207-261 | unpinning changes no page's content |
| PoolRuns.MarkSound | src/lib/buffer_manager.c:331-349 | marking changes no page's content |
| PoolRuns.FreeFrameSound | src/lib/buffer_manager.c:300-325 | freeing a pinned frame ends its page, or leaves it as the failed `free_page` does, and touches no other content |
| PoolRuns.AllocFrameSound | src/lib/buffer_manager.c:267-295 | allocating a frame adds at most one page, that nobody had, and changes no other content |
| PoolRuns.FlushSound | src/lib/buffer_manager.c:355-371 | a flush, whichever writes fail, changes no content and leaves the allocator's meaning apart from what live pages hold on disk |
| PoolTheorems.CreatedIsSound | src/lib/buffer_manager.c:55-93 | a pool with frames created over any store that means something is sound |
| PoolTheorems.PoolStepSound | src/lib/buffer_manager.c:138-371 | every call keeps pool and store sound, with the content moved only by writes, allocations and frees |
| PoolTheorems.CrossLayerSafety | src/lib/buffer_manager.c:138-371 | over every run: held pages are live, off the free list and held once, and a flush from there leaves page 0 and every free page byte for byte |
| PoolTheorems.PinExact | src/lib/buffer_manager.c:139-199 | pinning a live page succeeds iff a frame is free and the page is in the table or its read goes through; a hit gives the page's own frame and changes nothing, but is refused iff no frame is free; a refused pin changes nothing |
| PoolTheorems.PinShowsContent | src/lib/buffer_manager.c:139-199 | under just those conditions, the pin of a live page that does not wait gives a pinned frame of that page that shows its content |
| PoolTheorems.FlushIsDurable | src/lib/buffer_manager.c:351-371 | after a flush whose writes go through nothing waits, and the disk holds the content of every page not pinned |
| PoolTheorems.AllocFrameGives | src/lib/buffer_manager.c:263-295 | when the store has a page, a frame is free and the read goes through, the call gives a page nobody had, in a pinned frame that shows it |
| PoolTheorems.UpdateReachesDisk | src/lib/buffer_manager.c:201-371 | write, mark, unpin, flush is always allowed on a pinned frame, and leaves the written bytes on disk |
| PoolFlush.LastWriterWins | src/lib/buffer_manager.c:363-369 | when all writes go through, each page ends with the bytes of the last frame in list order that holds it |
| PoolFlush.FlushOrderIsIrrelevant | src/lib/buffer_manager.c:363-369 | with no page held twice, any order of the list leaves the same pages |
| PoolFaults.CreatedExact | src/lib/buffer_manager.c:66-85 | a created pool is in order iff it has a frame |
| PoolFaults.PinAsWrittenExact | src/lib/buffer_manager.c:139-199 | `buff_pin` as written leaves lists and table in order iff it returns on page 0, without a free frame, or on a hit |
| PoolFaults.HitAsWritten | src/lib/buffer_manager.c:175-179 | on a hit it gives an unpinned frame that is not the page's |
| PoolFaults.PinTwiceAsWritten | src/lib/buffer_manager.c:181-198 | two pages pinned in a row get the same frame |
| PoolFaults.FlushAsWrittenExact | src/lib/buffer_manager.c:355-371 | `buff_flush_all` as written leaves the lists in order iff no write went through; if all do, iff there was nothing to write |
| PoolFaults.FlushExact | src/lib/buffer_manager.c:351-371 | of the frames that waited, exactly those whose write failed still wait after a repaired flush; none waits iff every write went through |
| PoolFaults.MarkExact | src/lib/buffer_manager.c:327-349 | the code marks a frame iff marking it keeps lists and table in order, and else changes nothing |
| PoolFaults.FreeFrameExact | src/lib/buffer_manager.c:300-325 | `buff_free_frame` leaves the lists in order iff the frame was pinned |
| PoolFaults.UnmarkedUnpinExact | src/lib/buffer_manager.c:234-254 | unpinning an unmarked frame keeps its page's content iff the frame equals the page on disk |
| PoolFaults.RepinExact | src/lib/buffer_manager.c:214-223 | pinning a live page that is not in the table is sound iff no waiting frame holds it; the new frame shows the disk |
| PoolFaults.AllocFrameExact | src/lib/buffer_manager.c:276-288 | the call succeeds iff `alloc_page` does, a frame is free and the read goes through; if only `alloc_page` did, the new page is live, no frame holds it and nobody was told of it |
| PoolFaults.PinTwiceHappens | src/lib/buffer_manager.c:181-198 | a created pool of three frames or more: two pages pinned in a row both get frame 0 |
| PoolFaults.FreeFrameHappens | src/lib/buffer_manager.c:300-325 | a created pool: freeing a frame that nobody pinned spoils the lists |
| PoolFaults.NoFrameHappens | src/lib/buffer_manager.c:150-153 | a created pool of one frame: the page it holds is refused when pinned again |
| PoolFaults.RepinHappens | src/lib/buffer_manager.c:214-223 | a created pool of two frames: a page pinned, written, marked, unpinned and pinned again shows its old bytes |
| PoolFaults.FlushTwiceHappens | src/lib/buffer_manager.c:355-371 | a created pool of two frames, with only `buff_pin` repaired: a page flushed, pinned again and freed is written over by the next flush, though no frame holds it, and no meaning with all links in place is left |
| PoolClientRuns.ClientStepAgrees | src/lib/buffer_manager.c:138-371 | a call that the protocol allows meets every obligation on the state, and what the client learns from the answer, and from trust in a flush that loses no write, is true of pool and store |
| PoolClientRuns.ServeIsPoolRun | src/lib/buffer_manager.c:138-371 | every run that obeys the protocol, judged by calls, answers and the flushes the client trusts, none of which loses a write, is a run that meets every obligation |
| PoolClientRuns.ClientsAreSafe | src/lib/buffer_manager.c:138-371 | under such a client, from a created pool, whatever other reads and writes fail: every call stays inside the arrays; the bytes mean a store in which the client's pages are live, with no more besides than it may have lost, and whose free pages are those that the links from the head on disk pass; held pages are live, off the free list and held once; and a flush spares page 0 and every free page, so that the links pass the same pages after it |
| PoolClientRuns.ClientsReadTheirWrites | src/lib/buffer_manager.c:138-371 | such a client reads what it last wrote through any frame that holds the page, and finds it on disk after a flush whose writes go through |
| Lists.ListAddBetween | src/lib/datastructures/linkedlist.h:87-95 | the four pointers between two neighbours and a new entry, also when the neighbours are one head |
| Lists.ListAdd | src/lib/datastructures/linkedlist.h:105-108 | the entry becomes the first of the list |
| Lists.ListAddTail | src/lib/datastructures/linkedlist.h:118-121 | the entry becomes the last of the list |
| Lists.Unlink | src/lib/datastructures/linkedlist.h:131-135 | bridging an entry leaves the ring without it, and the entry's own pointers as they were |
| Lists.ListDel | src/lib/datastructures/linkedlist.h:143-148 | the list without the entry, which is left poisoned |
| Lists.ListDelInit | src/lib/datastructures/linkedlist.h:156-160 | the list without the entry, which is left an empty ring |
| Lists.ListMove | src/lib/datastructures/linkedlist.h:167-171 | remove, then insert in front, within one list or from another, or from no list |
| Lists.ListMoveTail | src/lib/datastructures/linkedlist.h:178-183 | remove, then insert at the end, within one list or from another, or from no list |
| Lists.ListEmpty | src/lib/datastructures/linkedlist.h:189-192 | true iff the list has no entry |
| Lists.SpliceNonempty | src/lib/datastructures/linkedlist.h:194-206 | the entries of a non-empty list come to stand behind the target head, before its own entries |
| Lists.ListSplice | src/lib/datastructures/linkedlist.h:213-217 | the target list becomes the spliced entries followed by its own; the source head keeps its pointers |
| Lists.ListSpliceInit | src/lib/datastructures/linkedlist.h:226-233 | the same, and the source list is left empty |
| Lists.DeleteChosen | src/lib/datastructures/linkedlist.h:282-284 | the safe loop visits every entry once in order, leaves exactly the unchosen ones in order, and each deleted one an empty ring |
| Lists.RingIsUnique | src/lib/datastructures/linkedlist.h:68-70 | the pointers from a head determine its list |
| Lists.RingBackwards | src/lib/datastructures/linkedlist.h:68-70 | the walk along `prev` is the reverse of the walk along `next` |
| HashLists.HlistAddHead | src/lib/datastructures/linkedlist.h:429-437 | insertion at place 0 |
| HashLists.HlistAddBefore | src/lib/datastructures/linkedlist.h:442-449 | insertion at the place of the given node |
| HashLists.HlistAddAfter | src/lib/datastructures/linkedlist.h:451-460 | insertion of the second argument behind the first |
| HashLists.Unhash | src/lib/datastructures/linkedlist.h:404-411 | the list without the node's place, through whatever place held the node |
| HashLists.HlistDel | src/lib/datastructures/linkedlist.h:413-418 | removal at the node's place, the node is left poisoned, and so does not count as unhashed |
| HashLists.HlistDelInit | src/lib/datastructures/linkedlist.h:421-427 | removal at the node's place, or nothing for an unhashed node; it is unhashed afterwards |
| HashLists.HlistFlags | src/lib/datastructures/linkedlist.h:394-402 | `hlist_empty` iff no node; no node of a list is unhashed |
| HashLists.PprevHoldsNode | src/lib/datastructures/linkedlist.h:385-387 | the place that a node's `pprev` names holds that node |
| HashLists.HlistIsUnique | src/lib/datastructures/linkedlist.h:381-387 | the pointers from a head determine its list |

## Left out

- `open`, `close`, `remove`, file names and descriptors: the model starts with an open file. `buff_create` hands `open_backing` a NULL backing (`buffer_manager.c:57-58`); the model assumes an open store.
- Short reads and writes: a page moves whole or not at all.
- Overflow of `index * PAGESIZE`, which is undefined in C from page 2^51 on: products are exact, offsets that are no file offset fail as the operating system fails them, and a stored word keeps the low 64 bits.
- A NULL manager (`STATUS_NO_MANAGER`) and NULL out-pointers: a method has its object and its results.
- GLib's hash table, and the addresses it is keyed on: a map from page number to frame number.
- Frame pointers are frame numbers; the helpers that subtract pointers (`buffer_manager.c:33-44`) are not part of this model.
- BuffDestroy: the loop only, not the memory, table and file it gives back afterwards.
- BuffPinAsWritten: what follows the NULL dereference when there is no second free frame is not modelled; the method reports that case and gives no other result.
- RunRefines: runs end where an `alloc_page` would pop a page that a half-done call left loose, because whatever that page holds then becomes the head; `PopExact` says exactly when such a call is right, `FailedFreeDoubleAllocation` what happens when it is not.
- ListDel: the poison addresses are null, and `container_of` is not modelled.
- The traversal macros other than `list_for_each_safe`, which add nothing to it, and `list_entry`.
- The order in which the repaired flush relinks frames is a choice of this model: the source has only the TODO.
- `src/lib/datastructures/btree.c`: unfinished, with empty branches; there is no behaviour to state yet.
- A negative number of frames in `buff_create`.
- Concurrent use: the source has none.
