# Minirel: a verified model

Minirel is a small relational engine written in C++. This project models, in Dafny, the layers that keep
its data and the query operators on top of them, and proves what each layer promises to the next one.

| layer | files here | what it is refined to |
|---|---|---|
| files of pages with a free list | `Disk.dfy`, `Db.dfy` | the set of pages in use |
| buffer pool: clock, pins, dirty bits, hash index | `Clock.dfy`, `BufHash.dfy`, `Pool.dfy`, `BufMgr.dfy`, `PoolRun.dfy` | a map from page ids to page contents |
| slotted page, compacted in place | `SlottedPage.dfy`, `Page.dfy` | a map from slot numbers to records |
| heap file: chain of pages, scan, appender | `HeapFileSpec.dfy`, `HeapPool.dfy`, `HeapFile.dfy`, `CreateHeapFile.dfy`, `Scan.dfy` | a sequence of (record id, record) |
| select, delete, insert, nested loops | `HeapSession.dfy`, `Select.dfy`, `Delete.dfy`, `Insert.dfy`, `StoredJoin.dfy` | filters and pairs of such sequences |
| external sort with mark and rewind | `Sort.dfy`, `StoredSort.dfy` | a sorted permutation with two positions |
| three joins | `JoinHT.dfy`, `JoinSpec.dfy`, `JoinResult.dfy`, `NestedLoops.dfy`, `SortMerge.dfy`, `BlockHash.dfy`, `Join.dfy` | one reference join |

Most layers come in two parts. The classes (`Page`, `DiskFiles`, `BufHashTbl`, `BufMgr`, `HeapFile`, `SortedFile`,
`JoinHashTbl`) have the fields of the C++ classes and update them in place with the same loops and branches;
every method is proved equal to a function on values. The laws are then lemmas about those functions: an
invariant kept by every operation, a content that no operation disturbs, a round trip, an if-and-only-if.
`Bytes.dfy`, `Bags.dfy` and `Status.dfy` hold machine integers, multisets and status codes.
The storage layers are stacked: `HeapFile` runs on the real `BufMgr`, which runs on `BufHashTbl` and
`DiskFiles`, so that `QuDelete`, `ScanSelect`, `QuInsert`, `CreateHeapFile`, `StoredNlJoin` (three files open
at once) and `StoredSortedFile` (any number of runs open at once) are theorems about the whole stack, pins,
write-backs and the flush at the last close included. The phase 5 sources are modelled, with select, delete and insert
from phase 6 and the independent `allocBuf` of phase 3.

`dafny verify dfyconfig.toml` checks the whole project.

## How the model reads the source

- Pages. `DiskPage` names the five ways in which the source casts the 1024 bytes of a page. The pool holds pages
  as values; the class `Page` shows that the C++ operations on the bytes are the functions that the heap
  file applies to such a value. Slot `k` of the model is `slot[-k]`.
- `HeapFile`, `HeapFileScan` and `InsertFileScan` are one class, because they share all their fields.
  `curFrame == -1` stands for a null `curPage`. `MoveToLast` and `CloseAppender` are what the constructor and
  the destructor of `InsertFileScan` add.
- What lies ahead of a scan is a sequence of entries, and one step of it is `Skip`, `NextStatus`, `NextRest`.
  `HeapFile.ScanNext` is proved to take that step; sort and joins use the value `ScanSpec.Scan`, whose `Next`
  is the same step on an unchanged file.
- Integers. Every comparison of the source subtracts two C ints; `Diff32` wraps the difference to 32 bits.
  Equality is exact. Ordering results carry the condition that the differences fit.
- Sorts and the value forms of the joins take a relation as a sequence of entries. `StoredJoins.HeapIsSource` shows that
  every heap file gives such a sequence, and `StoredJoins.InsertResult` that a heap file behaves as the result
  relation of the joins does.
- Open counts of the file table are the parameter `others` of an operation: how often a file is open besides.
- Record ids of sorted runs are arbitrary positive page numbers, since nothing depends on where a run's records land.

## Where the code falls short, exactly

- `DiskSpec.DisposeOkIffNotFree`, `PoolSpec.DisposeOkIff`: `disposePage` does not look for the page on the free list; disk
  and pool stay well formed if and only if the page was not on it.
- `PoolSpec.RefusalSafeIffClean`: when the file refuses a page (its first), the frame has been dropped all the same. That is
  safe whatever the frame holds if and only if the page is in no frame or in one that is unpinned and clean.
- `PoolSpec.ReadOkIff`: `readPage` takes a frame before it asks the file. When the file does not have the page, the page that
  was in the frame is out of the index while its descriptor stays valid; and a page on the free list is read like
  any other. The pool invariant survives if and only if neither happens.
- `PoolSpec.UnPinOkIff`: `unPinPage` loses a change if and only if the last holder of a changed page gives it back clean.
- `SortMerge.SmRightIffEquality`: the sort-merge path ignores the operator; the merge is right on all sorted inputs whose keys
  are comparable within each relation if and only if the operator is equality.
- `SortMerge.SmRightIffRangeFits`: for equality the sort-merge join of all relations with keys from `lo` to `hi`, whatever the
  sorts deliver within their promise, is right if and only if `hi - lo` fits in 32 bits. `SortMerge.SmNeedsRange`: two
  inner keys 2^31 apart are each below the other for the source, so that in whatever order they come, the outer
  record that equals the second one of them loses its tuple.
- `Sorting.OpenSorted`: `generateRun` creates the file of a run, destroys it and then opens it (phase5/sort.C:234-245), and opening
  a missing file fails (phase5/db.C:191-210). The parameter `creates` says whether it creates the file instead, as the comment
  in the source supposes. The sort succeeds if and only if its parameters are good and the source is empty or `creates`
  holds; otherwise it returns UNIXERR, and so does the sort-merge join (`SortMerge.QuSmJoin`).
- `BlockHash.BlockHoldsTuples`: a block of the hash join holds a tuple, and its table has a bucket, if and only if the tuple
  width is at most 1004. Creation admits up to 1024 bytes (phase5/create.C:70). For wider tuples
  `BlockHash.BlockTurn` shows what happens: with an inner record the lookup divides by the number of buckets,
  zero; without one the turn changes nothing and the loop goes on for ever.
- `ScanSpec.MatchRecExact`: an ordering filter decides its comparison if and only if the difference fits in 32 bits.
- `HeapSpec.DeleteCountsIffLive`: `deleteRecord` decrements the record count in any case; the header still counts the records
  if and only if there was one to delete.
- `HeapFile.InsertRecord`: lengths 1001 to 1004 pass the length check, never fit, and leave exactly one empty page behind.
- `HeapFile.Trade`, `MoveToLast`, `ResetScan`, `GetRecord`: the current page is unpinned before the new one is read. The new page can
  be had if and only if it is in the pool, or some frame is not pinned, or the object's pin on its current page is the
  only one (`HeapPool.CanHave`, by `HeapPool.UnPinFullIff`). If not, `Trade`, `MoveToLast` and `ResetScan` leave a pointer to the old page under
  the number of the new one, and the object is not valid any more. `GetRecord` leaves the old page as the
  current one, where somebody else's pin holds it: the object has no pin on it, and its next release takes theirs.
- `HeapFile.Rest`: after `endScan` the next `scanNext` starts over, and reports the end of the file if the first
  page is empty.
- `HeapCreation.CreateHeapFile`: creating a new file fails if and only if fewer than two frames are unpinned, and then
  leaves the file behind, so that a second attempt finds it in existence. The page that found no frame stays allocated, and
  if it was the data page, the header page stays pinned (`HeapCreation.Abandoned`). Every failure, FILEEXISTS included, leaves the
  file open once more than before, so that no later close is the last.
- `HeapSessions.CanOpenIff`: a heap file whose pages nobody has pinned can be opened if and only if two frames are not pinned; otherwise
  the source goes on through a pointer that was never set.
- A record of length zero can be inserted but neither read nor deleted (`getRecord` and `deleteRecord` ask
  for a positive length); a scan stops at it with INVALIDSLOTNO, and `ScanSpec.Survivors` says what a deleting scan leaves.

## Model

| member | source | states |
|---|---|---|
| Bytes.Diff32Exact | phase5/heapfile.C:431-440 | the difference tested by every comparison is zero iff the ints are equal, and has the right sign iff it fits in 32 bits |
| Bytes.IntAtIsBytes | phase5/heapfile.C:431-437 | the int read at an offset of any record is v iff the four bytes there are those of v, whatever comes before and after |
| SlottedPage.InitValid | phase5/page.C:11-19 | a fresh page satisfies the page invariant and holds no record |
| SlottedPage.SlotArrayClear | phase5/page.h:37-46 | the data never reaches the slot array that grows down from the other end |
| SlottedPage.SpaceLaw | phase5/page.C:56-64 | the free space is what 1004 bytes leave beside the bytes of the records and the slots, so that the test for room is about record lengths |
| SlottedPage.InsertSlotIsFirst | phase5/page.C:66-75 | the slot taken is the least one that is not in use |
| SlottedPage.InsertLaw | phase5/page.C:56-106 | insertion uses a slot that was not in use, the record reads back, no other record changes, and the invariant (records tile the data, space adds up, last slot in use) is kept |
| SlottedPage.DeleteValid | phase5/page.C:112-190 | deletion with compaction and trimming keeps the page invariant and takes exactly one slot out of use |
| SlottedPage.DeleteKeeps | phase5/page.C:143-160 | after compaction every other slot still points at the same bytes |
| SlottedPage.DeleteLaw | phase5/page.C:112-190 | the map from slots to records loses exactly the deleted entry |
| SlottedPage.DeleteIsTrim | phase5/page.C:165-185 | the slot array after a deletion is the longest prefix that ends in a used slot |
| SlottedPage.EmptyIsInitial | phase5/page.C:166-177 | a reachable page without records has the slots, free pointer and free space of a fresh one |
| SlottedPage.DeleteAllRestores | phase5/page.C:112-190 | deleting all records in any order succeeds at every step and restores the initial layout |
| SlottedPage.InsertDeleteInverse | phase5/page.C:56-190 | deleting the record just inserted gives the page back up to bytes beyond its data |
| SlottedPage.LiveIffNonEmpty | phase5/page.C:247 | a used slot can be read and deleted iff its record is not empty |
| SlottedPage.NextSlot | phase5/page.C:193-239 | the first used slot after a given one, or none if there is none |
| Pages.Page.Init | phase5/page.C:11-19 | in place, the object becomes the fresh page value |
| Pages.Page.InsertRecord | phase5/page.C:56-106 | in place; NOSPACE iff the lengths of the page's records, that of the new one and four bytes for every slot and one more exceed 1004; otherwise the record goes to the least slot not in use |
| Pages.Page.CloseHole | phase5/page.C:152-153 | the byte-by-byte move equals cutting the hole out of the data |
| Pages.Page.ShiftSlots | phase5/page.C:158-160 | the loop moves exactly the offsets to the right of the hole |
| Pages.Page.TrimSlots | phase5/page.C:172-177 | the do loop trims exactly the unused slots at the end |
| Pages.Page.DeleteRecord | phase5/page.C:112-190 | in place, status and new page are those of the value operation; INVALIDSLOTNO iff the slot has no record of positive length |
| Pages.Page.FirstRecord | phase5/page.C:193-213 | finds the first used slot, NORECORDS iff there is none |
| Pages.Page.NextRecord | phase5/page.C:217-239 | finds the next used slot, ENDOFPAGE iff there is none |
| Pages.Page.GetRecord | phase5/page.C:242-255 | returns the bytes of a live slot, INVALIDSLOTNO iff it is not live |
| DiskSpec.CreateLaw | phase5/db.C:155-180 | a created file has a well-formed empty free list and puts no page in use |
| DiskSpec.AllocFileOk | phase5/db.C:238-285 | allocation keeps the nextFree chain acyclic, duplicate-free, in range and clear of the first page, and takes its head or a new page |
| DiskSpec.AllocLaw | phase5/db.C:238-285 | an allocated page was not in use, and every page in use stays in use with its content |
| DiskSpec.DisposeLaw | phase5/db.C:292-330 | disposal takes exactly one page out of use and changes no other |
| DiskSpec.DisposeThenAlloc | phase5/db.C:238-330 | the page disposed of last is allocated next and the free list is back where it was |
| DiskSpec.DisposeKeepsListIffNotFree | phase5/db.C:308-318 | among the pages it accepts, disposal leaves a well-formed list iff the page was not free already |
| DiskSpec.DisposeOkIffNotFree | phase5/db.C:308-318 | the whole disk stays well formed iff the page disposed of was not free already |
| Db.DiskFiles.Create | phase5/db.C:155-180 | header written for a new file, FILEEXISTS iff the file exists |
| Db.DiskFiles.AllocatePage | phase5/db.C:238-285 | the header and page updates amount to the allocation on the abstract disk |
| Db.DiskFiles.DisposePage | phase5/db.C:292-330 | BADPAGENO iff the number is below 1, not below the recorded number of pages, or that of the first page; otherwise the updates amount to the abstract disposal, and the disk is well formed afterwards iff the page was not free already |
| Db.DiskFiles.GetFirstPage | phase5/db.C:414-426 | page 1, which is in use, or -1 if the file has no page |
| Db.DiskFiles.ReadPage | phase5/db.C:333-382 | BADPAGENO below page 1, an I/O error exactly from the recorded number of pages on, and any page in between, free or not, otherwise |
| BufHash.BufHashTbl.Lookup | phase5/bufHash.C:81-94 | walking a linked chain finds exactly the mapping's value, HASHNOTFOUND iff there is none |
| BufHash.BufHashTbl.Insert | phase5/bufHash.C:51-72 | the chains then stand for the mapping with one more key; a key already there is refused |
| BufHash.BufHashTbl.Unlink | phase5/bufHash.C:110-113 | redirecting one pointer removes exactly one bucket from one chain |
| BufHash.BufHashTbl.Remove | phase5/bufHash.C:102-123 | the chains then stand for the mapping without the key, HASHTBLERROR iff it was not there |
| Clock.NoCandidateIffAllPinned | phase5/buf.C:74-114 | two rotations find no frame iff every frame is valid and pinned |
| Clock.VictimRotation | phase5/buf.C:74-108 | the first rotation succeeds iff some frame is invalid or unpinned with a clear reference bit; the second takes the first unpinned frame in clock order |
| Clock.SweepStep | phase5/buf.C:77-107 | one turn of the loop tests exactly the candidate condition and clears exactly one reference bit |
| Clock.InvalidFoundEarly | phase5/buf.C:110-114 | the count test after the loop never mistakes an invalid frame for a full pool |
| PoolSpec.VictimFree | phase5/buf.C:74-114 | the chosen frame is unpinned, indexed iff valid, and clean only if it agrees with the disk |
| PoolSpec.ReadLaw | phase5/buf.C:133-168 | readPage changes no page content, keeps every pinned page in place, adds one pin to one page and keeps the pool invariant |
| PoolSpec.ReadOkIff | phase5/buf.C:133-168 | whatever page is asked for, the pool invariant survives iff no free page is read and no valid frame is taken for a page that cannot be read |
| PoolSpec.UnPinLaw | phase5/buf.C:171-194 | unPinPage changes no content and removes one pin, provided the last holder of a changed page says dirty |
| PoolSpec.UnPinOkIff | phase5/buf.C:171-194 | the pool invariant survives iff it is not the last holder of a changed page who says clean |
| PoolSpec.AllocPageLaw | phase5/buf.C:253-274 | allocPage adds a page that was not in use and changes no other content or pin |
| PoolSpec.ReadGetsSecondChance | phase5/buf.C:77-159 | after readPage, hit or miss, and however many unpins, the clock takes the frame of the page only if every frame it could take holds a page with its reference bit set |
| PoolSpec.AllocGetsSecondChance | phase5/buf.h:66-74 | the same for a page that allocPage has just added |
| PoolSpec.SecondChanceKeeps | phase5/buf.C:74-108 | such a page is still in its frame after the next allocBuf if some frame not pinned is invalid or has a clear bit |
| PoolSpec.MarkDecides | phase5/buf.C:116-194 | what is written into a page read from disk goes to disk with its frame iff one of those who give it back says dirty |
| PoolSpec.PokeLaw | phase5/buf.C:133-168 | writing through the pointer of a pinned page changes that page and no other |
| PoolSpec.FlushedLaw | phase5/buf.C:196-231 | however far flushFile gets, no content and no pin changes, and frames passed hold no page of the file |
| PoolSpec.FlushFileDurable | phase5/buf.C:196-231 | a completed flush leaves every page of the file on disk as its clients last saw it |
| PoolSpec.DisposePageLaw | phase5/buf.C:235-250 | disposePage takes one page out of use and changes no other content or pin |
| PoolSpec.DisposeOkIff | phase5/buf.C:235-250 | for any page the pool invariant survives iff the page is not freed twice |
| PoolSpec.RefusalSafeIffClean | phase5/buf.C:235-250 | a refused disposal would keep the page whatever its frame holds iff the page is in no frame or in an unpinned, clean one |
| PoolSpec.ShutdownDurable | phase5/buf.C:44-63 | after shutdown a page is on disk as last seen iff no holder owes a dirty mark |
| PoolSpec.Phase3SamePool | phase3/buf.C:113-136 | the dirty bit that only phase 3 clears makes no difference once the frame is set up |
| Buffer.BufMgr.constructor | phase5/buf.C:22-41 | an empty pool satisfies the invariant |
| Buffer.BufMgr.Sweep | phase5/buf.C:74-108 | the clock loop ends at the first candidate with the reference bits of the frames passed cleared |
| Buffer.BufMgr.AllocBuf | phase5/buf.C:66-130 | BUFFEREXCEEDED iff all frames are pinned; otherwise the victim leaves the index (removal never fails) and is written back iff dirty |
| Buffer.BufMgr.ReadPage | phase5/buf.C:133-168 | hit, miss, full pool and failed read, for any page of an open file: status and new state are those of the value operation, the frame is the indexed one, and the invariant survives exactly as ReadOkIff says |
| Buffer.BufMgr.UnPinPage | phase5/buf.C:171-194 | HASHNOTFOUND and PAGENOTPINNED exactly when due; the dirty bit is set before the pin count is looked at; the invariant survives iff no change is lost |
| Buffer.BufMgr.AllocPage | phase5/buf.C:253-274 | the new page is pinned in the victim frame with that frame's old bytes |
| Buffer.BufMgr.FlushFile | phase5/buf.C:196-231 | PAGEPINNED at the first pinned page of the file with the earlier frames flushed; BADBUFFER is never reached |
| Buffer.BufMgr.DisposePage | phase5/buf.C:235-250 | for any page: the frame is forgotten before the file decides, and the invariant survives iff the page is not freed twice |
| Buffer.BufMgr.Shutdown | phase5/buf.C:44-63 | every valid dirty frame is written to disk |
| Buffer.BufMgr.SweepPhase3 | phase3/buf.C:103-140 | the independently written loop stops at the same frame with the same hand and reference bits |
| Buffer.BufMgr.AllocBufPhase3 | phase3/buf.C:98-141 | same status, frame, index and disk as phase 5, and the dirty bit cleared |
| PoolRuns.HoldsLastWrite | phase5/buf.C:66-274 | over any legal run of reads, unpins, allocations, writes, flushes and disposals a page that is not freed holds what was last written to it |
| PoolRuns.ReadsLastWrite | phase5/buf.C:133-168 | a readPage after any such run finds the last write in its frame |
| PoolRuns.FlushesLastWrite | phase5/buf.C:196-231 | a completed flush after any such run has put the last write on disk |
| PoolRuns.FramesAreInvisible | phase5/buf.C:66-274 | pools of different sizes and histories with the same writes to a page end with the same content of it |
| ScanSpec.MatchRecExact | phase5/heapfile.C:418-470 | a filter decides the comparison it stands for iff the operator is (in)equality or the difference fits |
| ScanSpec.Skip | phase5/heapfile.C:341-383 | a step passes exactly the records that neither match nor are empty |
| ScanSpec.Scan.Next | phase5/heapfile.C:291-384 | the scan value takes the step that HeapFile.ScanNext is proved to take |
| ScanSpec.DrainIsMatching | phase5/heapfile.C:291-384 | repeated scanNext returns every matching record once and in order, then FILEEOF for ever |
| ScanSpec.TakenIsMatching | phase5/heapfile.C:291-384 | a loop that stops at the first step that is not OK gets every matching record |
| ScanSpec.TakenIsSatisfying | phase6/select.C:143-153 | where the differences decide, such a loop gets exactly the records whose int stands to the value as the operator says |
| ScanSpec.TakenIsAll | phase5/heapfile.C:216-221 | without a filter it gets every record |
| ScanSpec.SurvivorsDoNotMatch | phase6/delete.C:77-91 | without empty records a scan-and-delete loop leaves exactly the records that do not match |
| ScanSpec.SurvivorsStop | phase6/delete.C:77-91 | where a step is not OK, at the end or at an empty record, the loop leaves all that is ahead |
| ScanSpec.SurvivorsFail | phase6/delete.C:77-91 | where the differences decide, what is left are exactly the records whose int does not stand to the value as the operator says |
| ScanSpec.SatisfyingOrFailing | phase5/heapfile.C:418-470 | every record is selected or survives a deletion, and none both |
| ScanSpec.SievedStep | phase6/delete.C:77-91 | deleting under the cursor keeps: passed records are exactly the non-matching ones, records ahead are untouched |
| HeapSpec.FromSlotNext | phase5/page.C:217-239 | nextRecord moves the cursor over exactly one entry of the page |
| HeapSpec.BehindAhead | phase5/heapfile.C:291-384 | at any cursor the file is what has been passed followed by what is ahead |
| HeapSpec.DeleteAtLaw | phase5/heapfile.C:396-408 | deletion removes one entry, keeps chain, count and invariant, and what is ahead of the cursor stays even when slots are trimmed |
| HeapSpec.InsertLastLaw | phase5/heapfile.C:529-537 | insertion on the last page adds one entry, keeps all others, and the header still counts the records |
| HeapSpec.InsertedLaw | phase5/heapfile.C:529-537 | the new record id was not in the file; without unused slots the entry goes to the end |
| HeapSpec.GrowLaw | phase5/heapfile.C:545-573 | linking a new page keeps the chain finite, duplicate-free, as long as pageCnt and ended by lastPage |
| HeapSpec.AheadNextPage | phase5/heapfile.C:348-369 | moving past an exhausted page loses and repeats no record |
| HeapSpec.RidLookup | phase5/heapfile.C:168-202 | a record id names at most one record of the file, the one in its slot |
| HeapSpec.DeleteCountsIffLive | phase5/heapfile.C:396-408 | after deleteRecord, which always decrements, the header counts the records iff there was one to delete |
| HeapSpec.HeapRids | phase5/heapfile.C:505-587 | the records of a heap file have different ids, on pages of its chain with positive numbers |
| HeapPool.OtherFileHolds | phase5/heapfile.C:74-120 | operations of one heap file leave an open heap file on another file as it was |
| HeapPool.ReleaseLaw | phase5/heapfile.C:354-357 | unpinning the current page with its dirty flag keeps the file's contents and the grip on the header |
| HeapPool.AcquireLaw | phase5/heapfile.C:359-365 | reading a page of the chain pins it and disturbs no other pin or content |
| HeapPool.UnPinFullIff | phase5/buf.C:66-194 | giving a pin back makes room in a full pool iff it was the last pin on its page |
| HeapPool.HaveLaw | phase5/heapfile.C:175-195 | after the current page has been given up another page can be read iff it is in the pool, or the pool is not full, or the pin given up was the only one |
| HeapPool.StaleHolds | phase5/heapfile.C:175-195 | when the other page cannot be had, the old page is still where the stale pointer says, by a pin of somebody else |
| HeapPool.OpenHeaderLaw | phase5/heapfile.C:74-101 | opening pins exactly the header page |
| HeapPool.CloseHeaderLaw | phase5/heapfile.C:123-154 | closing gives the header pin back and leaves the file settled |
| HeapPool.PokeDataLaw | phase5/heapfile.C:396-408 | a change of the current page through its frame changes that page of the file only |
| HeapPool.GrowPoolLaw | phase5/heapfile.C:545-573 | the writes to new page, header and old last page together extend the stored file by one page |
| HeapPool.LastCloseLaw | phase5/db.C:212-231 | with nobody on the file its flush meets no pinned page and puts header, chain and records on disk |
| HeapFiles.HeapFile.constructor | phase5/heapfile.C:74-120 | if both pages can be read, header and first page are pinned, the cursor is before the first record, nothing else has changed |
| HeapFiles.HeapFile.StartScan | phase5/heapfile.C:210-237 | BADSCANPARM iff a filter has a negative offset or is not of integer length |
| HeapFiles.HeapFile.NextRecord | phase5/heapfile.C:341-369 | the cursor moves to the next record over any number of empty pages, or to the end |
| HeapFiles.HeapFile.Restart | phase5/heapfile.C:302-337 | the first call after endScan starts over and gives up if the first page is empty |
| HeapFiles.HeapFile.ScanNext | phase5/heapfile.C:291-384 | takes exactly one step of the filtered scan; a full pool interrupts it only if somebody else holds a page of the file |
| HeapFiles.HeapFile.GetCurrent | phase5/heapfile.C:390-393 | the record under the cursor, INVALIDSLOTNO iff there is none, or none any more, or it is empty |
| HeapFiles.HeapFile.DeleteRecord | phase5/heapfile.C:396-408 | removes the entry under the cursor and nothing ahead; the count drops even if there was none, and the file stays valid iff the status is OK |
| HeapFiles.HeapFile.GetRecCnt | phase5/heapfile.C:158-161 | the recorded count is the number of records |
| HeapFiles.HeapFile.GrowFile | phase5/heapfile.C:540-573 | one empty page is linked at the end, BUFFEREXCEEDED iff no frame can be had |
| HeapFiles.HeapFile.InsertRecord | phase5/heapfile.C:505-587 | the exact status for every length and pool; OK adds one entry with a fresh id, in the least unused slot of the last page or in slot 0 of a new one; the chain grows by exactly one page when the records of the last page, the new one and their slots exceed 1004 bytes and a frame can be had |
| HeapFiles.HeapFile.Trade | phase5/heapfile.C:268-288 | giving up the current page for another one succeeds exactly as CanHave says beforehand, and otherwise leaves the object invalid |
| HeapFiles.HeapFile.MoveToLast | phase5/heapfile.C:472-488 | the appender starts on the last page with one page pinned, iff that page is the first one or can be had in exchange for it |
| HeapFiles.HeapFile.EndScan | phase5/heapfile.C:240-253 | the current page is unpinned and the scan will start over |
| HeapFiles.HeapFile.MarkScan | phase5/heapfile.C:260-266 | remembers the position, whatever it is |
| HeapFiles.HeapFile.ResetScan | phase5/heapfile.C:268-288 | what is ahead is again what was ahead at the mark, iff the marked page is the current one or can be had in exchange for it |
| HeapFiles.HeapFile.GetRecord | phase5/heapfile.C:168-202 | any record by its id, INVALIDSLOTNO iff the file has no such non-empty record; BUFFEREXCEEDED iff its page is not the current one and cannot be had, and then the object goes on with a page on which it has one pin less |
| HeapFiles.HeapFile.UnpinBoth | phase5/heapfile.C:123-154 | both pins are given back and the file is settled |
| HeapFiles.HeapFile.Close | phase5/heapfile.C:123-154 | both pins are given back, the file is settled, and the last close leaves it on disk |
| HeapFiles.HeapFile.CloseAppender | phase5/heapfile.C:490-502 | the same for the appender, which counts its page as changed |
| HeapFiles.EndSession | phase5/db.C:212-231 | closing ends a session with every pin as before, and on disk if it was the last close |
| HeapCreation.CreateHeapFile | phase5/heapfile.C:5-65 | FILEEXISTS iff the file exists; BUFFEREXCEEDED iff it is new and fewer than two frames are unpinned, with exactly the pages and pins that are left behind; otherwise the file is complete on disk with one empty page, in no frame, and nothing else has changed; every failure leaves the file open |
| HeapSessions.FullIffPins | phase5/buf.C:66-130 | allocBuf fails iff as many pages are pinned as there are frames |
| HeapSessions.CanOpenIff | phase5/heapfile.C:74-120 | a heap file that nobody has pinned can be opened iff two frames are not pinned |
| HeapSessions.ClosedSamePins | phase5/heapfile.C:74-154 | a session from opening to closing leaves every page with the pins it had |
| HeapSessions.RoomFromPins | phase5/buf.C:66-130 | two frames more than pinned pages are room to open a heap file |
| HeapSessions.SessionStep | phase5/heapfile.C:74-154 | any number of files open at once: a step of one of them keeps all pins accounted for and every other file as it was |
| HeapSessions.SessionPins | phase5/heapfile.C:74-154 | n open heap files pin at most 2n pages more than there were |
| HeapSessions.RoomToGrow | phase5/buf.C:66-130 | so with one frame more than that there is always one to grow a file |
| HeapSessions.SessionSettled | phase5/heapfile.C:74-154 | a file that is not part of a session is not disturbed by it |
| HeapSessions.OtherFileSettled | phase5/heapfile.C:74-154 | a heap file that is not open is not disturbed by one that is |
| DeleteOperator.QuDelete | phase6/delete.C:30-94 | on the whole stack exactly the records whose int stands to the value as the operator says disappear, if none is empty or too short and the differences decide (in general those that match up to an empty record, where the scan stops); all others keep id, bytes and order, the count is right, every pin is as before, and the last close leaves the file on disk |
| DeleteOperator.DeleteNext | phase6/delete.C:77-91 | one turn of the loop deletes the next matching record |
| SelectOperator.ScanSelect | phase6/select.C:114-179 | on the whole stack with two files open the result gains the chosen columns of exactly the records whose int stands to the value as the operator says, or of all records if unfiltered; the source and all other files are unchanged, every pin is as before, the last closes leave both files on disk, and it fails only for a bad filter, for tuples over 1000 bytes or without a fifth frame |
| SelectOperator.FilterMeans | phase6/select.C:143-144 | what the scan of ScanSelect returns, by the comparison itself |
| SelectOperator.SelectLoop | phase6/select.C:153-174 | the loop invariant of ScanSelect, also when an insertion fails half way |
| SelectOperator.OpenBoth | phase6/select.C:132-142 | both files open in one pool without disturbing each other |
| InsertOperator.RecordLen | phase6/insert.C:55-62 | every attribute counts as often as it is given |
| InsertOperator.CompleteLen | phase6/insert.C:55-62 | if every attribute is given once the length is the width of the relation |
| InsertOperator.FillRecord | phase6/insert.C:68-87 | the nested copy loops put every value at the offset of its attribute |
| InsertOperator.PlacedIsRow | phase6/insert.C:68-87 | a record with every value at its catalog offset is the concatenation in catalog order, whatever the order of the list |
| InsertOperator.PlacedIsLaidOut | phase6/insert.C:68-87 | the loops leave byte b of a value b bytes behind the offset of its attribute |
| InsertOperator.QuInsert | phase6/insert.C:30-100 | on the whole stack one record is appended that has every byte of every value at the catalog offset of its attribute, every pin is as before and the last close leaves the file on disk |
| Sorting.AfterIsGreater | phase5/sort.C:22-52 | reccmp compares as the integers do when the difference fits |
| Sorting.MergeIsPermutation | phase5/sort.C:302-357 | whatever the keys, the merge returns every record of every run exactly once |
| Sorting.BestIsLeast | phase5/sort.C:337-343 | the selected head is no larger than any other head |
| Sorting.MergeIsSorted | phase5/sort.C:302-357 | merging sorted runs gives a sorted sequence |
| Sorting.QSort | phase5/sort.C:204-209 | stands for the library sort: a permutation, sorted if the comparison is consistent |
| Sorting.FillBuffer | phase5/sort.C:150-168 | reads the next maxItems records or all that are left |
| Sorting.GenerateRun | phase5/sort.C:196-268 | UNIXERR iff opening the destroyed run file does not create it; otherwise the run file is a permutation of its records, sorted if keys are comparable |
| Sorting.SortFile | phase5/sort.C:131-189 | OK iff there is nothing to sort or run files can be opened, and then the runs together hold every record of the source once; the sticky end of file ends the loop |
| Sorting.SplitIsSorted | phase5/sort.C:131-189 | merging the runs of a source gives a sorted permutation of it |
| Sorting.PeekLaw | phase5/sort.C:321-332 | reading a run ahead changes nothing of what it has still to contribute |
| Sorting.SortedFile.FindSmallest | phase5/sort.C:316-343 | the loop selects the head that the merge takes next |
| Sorting.SortedFile.Next | phase5/sort.C:302-357 | returns the head of the remaining output, FILEEOF iff it is empty and then for ever |
| Sorting.SortedFile.SetMark | phase5/sort.C:363-378 | the marked output is the last record returned followed by what then remained |
| Sorting.SortedFile.GotoMark | phase5/sort.C:385-414 | for any number of runs the remaining output is exactly the marked output |
| Sorting.OpenSorted | phase5/sort.C:93-123 | BADSORTPARM, INSUFMEM and UNIXERR exactly when due; otherwise the output is a permutation of the source, sorted if keys are comparable |
| StoredSorts.CurrentAt | phase5/heapfile.C:260-288 | the record under the cursor of an open scan is the last one it has passed |
| StoredSorts.StartRuns | phase5/sort.C:277-296 | with two unpinned frames for every run, scans on all run files are open in one pool and next() will return the merge of their contents |
| StoredSorts.OneMoreRunIff | phase5/sort.C:277-296 | with n runs open on idle files one more can be opened iff the pool started with 2(n+1) frames not pinned |
| StoredSorts.StoredSortedFile.TwoPagesEach | phase5/sort.C:302-414 | between calls n runs hold exactly 2n pages |
| StoredSorts.StoredSortedFile.Next | phase5/sort.C:302-357 | for any number of heap files open in one pool, the head of the remaining output, FILEEOF iff it is empty; never a failure for want of frames |
| StoredSorts.StoredSortedFile.SetMark | phase5/sort.C:363-378 | markScan on every run remembers the last record returned and what then remained |
| StoredSorts.StoredSortedFile.GotoMark | phase5/sort.C:385-414 | resetScan and getRecord on every run bring the marked output back, for any number of runs and pages |
| StoredSorts.CloseRuns | phase5/sort.C:419-426 | closing all runs leaves every pin as it was before they were opened |
| JoinHash.ChainHasAllMatches | phase5/joinHT.C:36-54 | looking at one chain loses no pair with the key |
| JoinHash.JoinHashTbl.Insert | phase5/joinHT.C:56-87 | one more pair, with bucketCnt equal to the chain length |
| JoinHash.JoinHashTbl.Lookup | phase5/joinHT.C:89-133 | exactly the record ids inserted with the value, in an array that is never overrun |
| JoinSpecs.ProjectLength | phase5/join.C:74-79 | an output tuple is as long as the projected attributes together |
| JoinSpecs.ProjectIsBytes | phase5/join.C:137-153 | byte b of the k-th projected attribute is the byte at its offset plus b in the record of its relation, behind the attributes listed before |
| JoinSpecs.ProjectsOne | phase5/join.C:137-153 | no other tuple has these bytes |
| JoinSpecs.JoinOutPairs | phase5/join.C:114-162 | the join has one tuple for each pair of records whose ints satisfy the operator, and no other |
| JoinSpecs.JoinOfPermutations | phase5/join.C:168-318 | permuting the inputs of a join permutes its output |
| JoinSpecs.JoinOutInnerSplit | phase5/join.C:438-531 | a join with an inner relation in two parts is the two joins together |
| JoinResults.CopyAttrs | phase5/join.C:136-154 | the memcpy loop fills the buffer with the listed attributes in order: byte b of an attribute is the byte at its offset plus b in the record of its relation |
| StoredJoins.InsertResult | phase5/heapfile.C:505-587 | a heap file without unused slots on its last page and with a frame to spare gives the same status as the result relation of the joins and gains the same record in the same place |
| StoredJoins.HeapIsSource | phase5/heapfile.C:291-384 | every heap file whose records hold the attribute is a source as sorts and joins assume it, and no other |
| StoredJoins.HeapsAreInputs | phase5/join.C:80-164 | two heap files whose records hold their join attributes and the projected ones are inputs as all three joins assume them |
| StoredJoins.JoinInner | phase5/join.C:129-161 | on three open files the inner loop moves exactly the tuples of one outer record into the result, or the program gives up for a stated reason |
| StoredJoins.StoredNlJoin | phase5/join.C:80-164 | the nested loops join on the whole stack: the result gains the tuples of all pairs that the inner filters select, for decided keys those of the join; both relations and all other files are unchanged, pins are as before, last closes leave result and outer relation on disk, and ASSERT fails only for tuples over 1000 bytes or without a seventh frame |
| NestedLoops.FlippedFilter | phase5/join.C:104-112 | the inner filter with the flipped operator selects outer.key op inner.key iff the difference decides |
| NestedLoops.NlIsJoin | phase5/join.C:114-162 | for all six operators nested loops emits exactly the join, in order |
| NestedLoops.QuNlJoin | phase5/join.C:24-165 | the nested scan loops append what NlOut says; ASSERT ends the program iff there is a tuple that is too long |
| SortMerge.SeekLaw | phase5/join.C:270-280 | the mark is at the first inner record that is not below the outer key, or at the end |
| SortMerge.SkippedJoinsNone | phase5/join.C:270-281 | what lies before the mark joins neither this nor any later outer record, whatever the keys of the inner relation |
| SortMerge.GroupIsInnerOut | phase5/join.C:283-314 | on sorted input the run of equal records from the mark on is all that joins |
| SortMerge.SmIsJoin | phase5/join.C:256-315 | on sorted inputs whose keys are comparable within each relation, duplicates on both sides included, the merge is the equality join as a bag |
| SortMerge.SmRightIffEquality | phase5/join.C:168-318 | the merge is right on all such inputs iff the operator is equality |
| SortMerge.SmRightIffRangeFits | phase5/join.C:225-315 | for equality the join of all relations with keys from lo to hi is right, whatever the sorts deliver within their promise, iff hi - lo fits in 32 bits |
| SortMerge.SmNeedsRange | phase5/join.C:569-572 | with inner keys 2^31 apart a tuple is lost in whatever order the inner relation comes |
| SortMerge.SmIgnoresOperator | phase5/join.C:168-318 | the output of the merge does not depend on the operator |
| SortMerge.SeekInner | phase5/join.C:268-281 | going forward and marking, as a method on the sorted file |
| SortMerge.MergeOne | phase5/join.C:256-314 | going back to the mark, going forward and emitting the group for one outer record |
| SortMerge.QuSmJoin | phase5/join.C:168-318 | UNIXERR iff a relation cannot be sorted; otherwise the whole loop over two SortedFile objects appends what SmOut says of what the sorts deliver |
| SortMerge.SmBag | phase5/join.C:225-315 | sorting both relations and merging gives the equality join of the relations as a bag, for keys comparable within each relation |
| BlockHash.BlockHoldsTuples | phase5/join.C:396-441 | a block holds four times as many tuples as 1004 bytes take, and its table 1.15 times as many buckets rounded down; neither is zero iff the width is at most 1004 |
| BlockHash.ReadBlock | phase5/join.C:443-464 | the next block, empty or not, is in the hash table; the end is noticed iff the block could not be filled |
| BlockHash.BlockTurn | phase5/join.C:438-531 | one turn of the outer loop emits the tuples of one block; with empty blocks it divides by zero at the first inner record, and without one it changes nothing |
| BlockHash.FetchedIsJoin | phase5/join.C:481-523 | the outer records found for an inner record are exactly its join partners in the block |
| BlockHash.HashIsJoin | phase5/join.C:438-531 | whatever the keys and the block size, the blocks together emit the equality join as a bag |
| BlockHash.QuHashJoin | phase5/join.C:324-535 | for widths 1 to 1004 the loops over blocks, inner records and matches append what HashOut says, and end; for other widths the program divides by zero |
| Joining.QuJoin | phase5/join.C:537-555 | whichever algorithm is chosen the result relation gains the tuples of the reference join as a bag; only the hash join of tuples that no page holds fails, and the sort-merge join if run files cannot be opened |
| Joining.JoinsAgree | phase5/join.C:24-535 | for equality on keys comparable within each relation the three algorithms emit the same bag |

## Left out

- Unix calls and I/O errors other than reading past the end of a file: all results are for runs in which I/O succeeds.
- FLOAT and STRING attributes: filters, sort keys and join keys are INTEGER attributes of length 4, so the ATTRTYPEMISMATCH checks do not appear.
- The catalogs: attribute descriptions, tuple widths and decoded constants are parameters.
- Memory management, buffer statistics and the open-file table; how often a file is open besides is the parameter `others`.
- Self-joins: the projection tells the two sides apart by relation name, so the relations are distinct.
- HeapFiles.HeapFile.constructor: requires that its two pages can be read, because the source overwrites the status of a failed read and goes on through a pointer that was never set.
- HeapFiles.HeapFile.InsertRecord: requires that the current page, if any, is the last one, as one insert-only appender per file ensures. It marks a new page as changed when it is linked; the source does so after the insertion, and if that fails, in the destructor, which counts the page as changed in any case.
- HeapFiles.HeapFile.GetRecord: takes page numbers of the file; with another one the source casts whatever page it reads to a data page.
- StoredJoins.StoredNlJoin: requires six unpinned frames, as ScanSelect requires four and QuInsert two; with fewer an open goes on through a pointer that was never set, as CanOpenIff says. All three and QuDelete require that nobody else has pinned a data page of their relations.
- Sorting.QSort: is an insertion sort that stands for the library routine; callers see only its contract.
- BlockHash.QuHashJoin: requires an inner record for widths over 1004; without one the source does not terminate, of which BlockTurn shows one turn.
- BlockHash.TableSize: is a product of reals; the rounding of the float product changes only the number of buckets.
- SortMerge.QuSmJoin: runs on scan values, and so do QuHashJoin, OpenSorted and the writing of runs; StoredSorts and StoredJoins have the sorted files and the nested loops join on the pool.
- StoredSorts.StoredSortedFile.GotoMark: requires that setMark has been called; before that the source goes back to a position that was never set.
- StoredSorts.StartRuns: requires two unpinned frames for every run; by OneMoreRunIff the source goes on with a null page otherwise.
- Page bytes: a page is read as one of five structures; reading a page as another structure than was written is not modelled.
- phase4 is an earlier copy of the storage layers of phase5 with its own test program; catalog.C, create.C, destroy.C and load.C keep the catalog relations and bulk-load through insertRecord; print.C and help.C format output; parser and minirel.C turn text into calls of the operators; partition.C splits a file by a hash value for a join that join.C does not use.
