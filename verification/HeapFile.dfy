/** Heap file objects (heapfile.h, heapfile.C) on the buffer manager. The classes HeapFile, HeapFileScan and
    InsertFileScan of the source are one class here. */
module HeapFiles {
  import opened Bytes
  import opened Statuses
  import opened SlottedPage
  import opened DiskSpec
  import opened Clock
  import opened PoolSpec
  import opened Buffer
  import opened ScanSpec
  import opened HeapSpec
  import opened HeapPool
  import opened HeapSessions

  /** readPage for a page that is in use. */
  method PinPage(bm: BufMgr, id: PageId) returns (status: Status, frame: int)
    requires bm.Valid() && InUse(bm.View().disk, id)
    modifies bm.Repr()
    ensures bm.Valid() && fresh(bm.Repr() - old(bm.Repr()))
    ensures status == ReadStatus(old(bm.View()), id) && bm.View() == PoolSpec.ReadPage(old(bm.View()), id)
    ensures status == OK ==> id in bm.View().index && frame == bm.View().index[id]
  {
    hide BufMgr.Linked, PoolSpec.Ok, PoolSpec.ReadPage, ReadStatus;
    status, frame := bm.ReadPage(id);
  }

  class HeapFile {
    const bm: BufMgr
    const filePtr: int
    const headerPageNo: int
    var headerFrame: int   // headerPage, as a frame of the pool
    var hdrDirtyFlag: bool
    var curFrame: int      // curPage, as a frame of the pool, -1 for NULL
    var curPageNo: int
    var curDirtyFlag: bool
    var curRec: RID
    var filter: Filter
    var markedPageNo: int
    var markedRec: RID
    ghost var heap: Heap   // the file as its pages stand now
    ghost var ci: nat      // where the current page is on the chain
    ghost var mi: nat      // where the marked page is on the chain

    ghost function Hd(): Handle
      reads this
    {
      if curFrame >= 0 then Handle(filePtr, headerPageNo, headerFrame, hdrDirtyFlag, curPageNo, curFrame, curDirtyFlag)
      else Handle(filePtr, headerPageNo, headerFrame, hdrDirtyFlag, -1, -1, false)
    }

    ghost predicate CursorOk()
      reads this
    {
      && |heap.chain| == |heap.pages| > 0 && -1 <= curFrame && -1 <= curRec.slotNo
      && (curFrame >= 0 ==> ci < |heap.chain| && heap.chain[ci] == curPageNo)
    }

    ghost predicate Valid()
      reads this, bm, bm.bufTable, bm.bufPool, bm.hashTable, bm.hashTable.ht, bm.hashTable.buckets, bm.disk
      ensures Valid() ==> CursorOk() && PoolSpec.Ok(bm.View())
    {
      bm.Valid() && Inv(heap) && Holding(bm.View(), Hd(), heap) && CursorOk()
    }

    /** The records of the file in scan order. */
    ghost function Contents(): seq<Entry>
      reads this
    {
      Entries(heap.pages)
    }

    /** The records a scan has still ahead of it. Without a current page the next call starts over, but
        gives up if the first page is empty. */
    ghost function Rest(): seq<Entry>
      reads this
      requires CursorOk()
    {
      if curFrame >= 0 then Ahead(heap.pages, ci, curRec.slotNo)
      else if curPageNo < 0 || FromSlot(heap.pages[0], 0) == [] then []
      else Entries(heap.pages)
    }

    /** The cursor is on a record of the file. */
    ghost predicate OnRecord()
      reads this
      ensures OnRecord() ==> CursorOk() && curFrame >= 0 && 0 <= curRec.slotNo
    {
      CursorOk() && curFrame >= 0 && HasRec(heap.pages[ci], curRec.slotNo) && curRec.pageNo == curPageNo
    }

    /** The current page has no record after the cursor. */
    ghost predicate PageDone()
      reads this
      ensures PageDone() ==> ci < |heap.chain|
    {
      CursorOk() && curFrame >= 0 && NextSlot(heap.pages[ci], curRec.slotNo).None?
    }

    ghost function Current(): Entry
      reads this
      requires OnRecord()
    {
      Entry(curRec, RecAt(heap.pages[ci], curRec.slotNo))
    }

    /** Open a heap file: pin its header page and its first data page. When one of the reads fails the source goes on
        through a pointer that was never set. */
    constructor (bm: BufMgr, f: int, ghost h: Heap)
      requires bm.Valid() && Inv(h) && Settled(bm.View(), f, h) && f in bm.disk.free && h.hdrNo == 1
      requires CanOpen(bm.View(), f, h)
      modifies bm.Repr()
      ensures Valid() && this.bm == bm && filePtr == f && headerPageNo == 1 && heap == h && filter == NoFilter
      ensures curFrame >= 0 && Rest() == Entries(h.pages) && !MarkOk()
      ensures fresh(bm.Repr() - old(bm.Repr()))
      ensures Unseen(old(bm.View()), Closed(f, h.hdrNo), bm.View(), Hd())
    {
      hide BufMgr.Linked, PoolSpec.Ok, PoolSpec.ReadPage, HeapSpec.Inv, HeapPool.Holding, HeapPool.Settled,
           HeapPool.Unseen, HeapPool.CanOpen, HeapSpec.Entries;
      this.bm, filePtr, headerPageNo := bm, f, 1;
      curFrame, headerFrame, curPageNo, hdrDirtyFlag, curDirtyFlag := -1, -1, 1, false, false;
      curRec, markedRec, markedPageNo, filter := NULLRID, NULLRID, 1, NoFilter;
      heap, ci, mi := h, 0, 0;
      new;
      PinBoth();
    }

    /** The header page is no place to go back to. */
    lemma NoMark()
      requires Inv(heap) && mi == 0 && markedPageNo == heap.hdrNo
      ensures !MarkOk()
    {
      HeldParts(heap);
    }

    method PinBoth()
      requires bm.Valid() && Inv(heap) && Settled(bm.View(), filePtr, heap) && heap.hdrNo == headerPageNo
      requires Hd() == Closed(filePtr, headerPageNo) && curFrame == -1 && curRec == NULLRID
      requires CanOpen(bm.View(), filePtr, heap)
      requires mi == 0 && markedPageNo == headerPageNo
      modifies this`curFrame, this`headerFrame, this`curPageNo, this`curDirtyFlag, this`ci, bm.Repr()
      ensures Valid() && fresh(bm.Repr() - old(bm.Repr()))
      ensures curFrame >= 0 && Rest() == Entries(heap.pages) && !MarkOk()
      ensures Unseen(old(bm.View()), old(Hd()), bm.View(), Hd())
    {
      hide BufMgr.Linked, PoolSpec.Ok, HeapSpec.Inv, HeapPool.Holding, HeapPool.Settled, HeapPool.Unseen;
      NoMark();
      ghost var p, hd := bm.View(), Hd();
      PinHeader();
      ghost var q, hd' := bm.View(), Hd();
      var header := bm.bufPool[headerFrame];
      var status := Fetch(0, header.hdrFirst);
      UnseenCompose(p, hd, q, hd', bm.View(), Hd());
    }

    method PinHeader()
      requires bm.Valid() && Inv(heap) && Settled(bm.View(), filePtr, heap) && heap.hdrNo == headerPageNo
      requires Hd() == Closed(filePtr, headerPageNo) && curFrame == -1 && curRec == NULLRID
      requires CanOpen(bm.View(), filePtr, heap)
      modifies this`headerFrame, bm.Repr()
      ensures Valid() && headerFrame >= 0
      ensures fresh(bm.Repr() - old(bm.Repr()))
      ensures Unseen(old(bm.View()), old(Hd()), bm.View(), Hd())
      ensures heap.chain != [] && ReadStatus(bm.View(), PageId(filePtr, heap.chain[0])) == OK
      ensures headerFrame < bm.bufPool.Length && bm.bufPool[headerFrame] == Header(heap)
    {
      hide BufMgr.Linked, PoolSpec.Ok, HeapSpec.Inv, HeapPool.Holding,
           HeapPool.Quiet, HeapPool.Unseen, HeapPool.Exclusive;
      OpenHeaderLaw(bm.View(), filePtr, heap);
      var status;
      status, headerFrame := bm.ReadPage(PageId(filePtr, headerPageNo));
      FrameContents(bm.View(), Hd(), heap, 0);
    }

    /** Unpin the current page. */
    method Release()
      requires Valid() && curFrame >= 0
      modifies this`curFrame, bm.bufTable
      ensures Valid() && curFrame == -1
      ensures Unseen(old(bm.View()), old(Hd()), bm.View(), Hd())
      ensures Shrunk(old(bm.View()), bm.View())
      ensures old(Exclusive(bm.View(), Hd(), heap.chain)) ==> !PoolSpec.Exhausted(bm.View())
      ensures old(Hd().CurId() in bm.View().index ==> 0 <= bm.View().index[Hd().CurId()] < |bm.View().table|)
      ensures bm.View() == PoolSpec.UnPin(old(bm.View()), old(Hd().CurId()), old(curDirtyFlag))
    {
      hide PoolSpec.Ok, HeapSpec.Inv, HeapPool.Holding;
      HeldParts(heap);
      ReleaseLaw(bm.View(), Hd(), heap);
      var status := bm.UnPinPage(PageId(filePtr, curPageNo), curDirtyFlag);
      curFrame := -1;
    }

    /** Pin page i of the chain as the current page. */
    method Fetch(ghost i: nat, pageNo: int) returns (status: Status)
      requires Valid() && curFrame == -1 && i < |heap.chain| && heap.chain[i] == pageNo
      modifies this`curFrame, this`curPageNo, this`curDirtyFlag, this`ci, bm.Repr()
      ensures Valid() && fresh(bm.Repr() - old(bm.Repr()))
      ensures Unseen(old(bm.View()), old(Hd()), bm.View(), Hd())
      ensures InUse(old(bm.View()).disk, PageId(filePtr, pageNo))
      ensures status == ReadStatus(old(bm.View()), PageId(filePtr, pageNo))
      ensures (status == OK || status == BUFFEREXCEEDED)
      ensures bm.View() == PoolSpec.ReadPage(old(bm.View()), PageId(filePtr, pageNo))
      ensures if status == OK then curFrame >= 0 && ci == i else curFrame == -1 && ci == old(ci)
      ensures curPageNo == pageNo
    {
      hide BufMgr.Valid, BufMgr.View, PoolSpec.Ok, PoolSpec.ReadPage, HeapSpec.Inv, HeapPool.Holding, HeapPool.Unseen,
           AfterRead, ReadStatus;
      ghost var p, hd := bm.View(), Hd();
      AcquireLaw(p, hd, heap, i);
      AfterReadIs(p, hd, pageNo);
      var frame;
      curPageNo := pageNo;
      curDirtyFlag := false;
      status, frame := PinPage(bm, PageId(filePtr, pageNo));
      if status == OK {
        curFrame, ci := frame, i;
      }
      assert Hd() == AfterRead(p, hd, pageNo);
    }

    /** The page in the current frame. */
    method CurrentPage() returns (img: PageImage)
      requires Valid() && curFrame >= 0
      ensures img == heap.pages[ci]
      ensures SlottedPage.Valid(img) && img.curPage == curPageNo && img.nextPage == NextNo(heap.chain, ci)
    {
      FrameContents(bm.View(), Hd(), heap, ci);
      PageOfChain(heap, ci);
      img := bm.bufPool[curFrame].image;
    }

    /** firstRecord on the page just fetched; the cursor keeps its old value when there is none. */
    method FirstOnPage() returns (status: Status)
      requires Valid() && curFrame >= 0
      modifies this`curRec
      ensures Valid() && Hd() == old(Hd())
      ensures status == if NextSlot(heap.pages[ci], -1).Some? then OK else NORECORDS
      ensures status == OK ==> OnRecord() && [Current()] + Rest() == Ahead(heap.pages, ci, -1)
      ensures status == NORECORDS ==> curRec == old(curRec) && Rest() == Ahead(heap.pages, ci, -1)
      ensures status == NORECORDS ==> PageDone()
    {
      hide BufMgr.Valid, PoolSpec.Ok, HeapSpec.Inv, HeapPool.Holding;
      var img := CurrentPage();
      AheadNextSlot(heap.pages, ci, -1);
      var next := NextSlot(img, -1);
      if next.None? {
        EmptyPageAhead(heap.pages, ci, curRec.slotNo);
        return NORECORDS;
      }
      curRec := RID(img.curPage, next.value);
      return OK;
    }

    /** Leave a page that has no more records for the next page of the chain. */
    method AdvancePage(nextPageNo: int) returns (status: Status)
      requires Valid() && curFrame >= 0 && ci + 1 < |heap.chain| && nextPageNo == heap.chain[ci + 1]
      requires PageDone()
      modifies this`curFrame, this`curPageNo, this`curDirtyFlag, this`curRec, this`ci, bm.Repr()
      ensures Valid() && fresh(bm.Repr() - old(bm.Repr()))
      ensures Unseen(old(bm.View()), old(Hd()), bm.View(), Hd())
      ensures status == OK || status == NORECORDS || status == BUFFEREXCEEDED
      ensures status == OK ==> OnRecord() && [Current()] + Rest() == old(Rest())
      ensures status == NORECORDS ==> PageDone() && Rest() == old(Rest())
      ensures status == BUFFEREXCEEDED ==> curFrame == -1
      ensures curPageNo == nextPageNo
      ensures status != BUFFEREXCEEDED ==> ci == old(ci) + 1
      ensures old(Exclusive(bm.View(), Hd(), heap.chain)) ==> status != BUFFEREXCEEDED
    {
      hide BufMgr.Linked, PoolSpec.Ok, PoolSpec.ReadPage, PoolSpec.Logical, HeapSpec.Inv, HeapPool.Holding,
           HeapPool.Unseen, HeapPool.Quiet, HeapPool.Exclusive;
      AheadNextPage(heap.pages, ci, curRec.slotNo);
      ghost var p, hd, i := bm.View(), Hd(), ci;
      Release();
      ghost var q, hd' := bm.View(), Hd();
      status := Fetch(i + 1, nextPageNo);
      UnseenCompose(p, hd, q, hd', bm.View(), Hd());
      if status == OK {
        status := FirstOnPage();
      }
    }

    /** Leave an exhausted page, or find that it is the last one. */
    method LeavePage() returns (status: Status)
      requires Valid() && PageDone()
      modifies this`curFrame, this`curPageNo, this`curDirtyFlag, this`curRec, this`ci, bm.Repr()
      ensures Valid() && fresh(bm.Repr() - old(bm.Repr()))
      ensures Unseen(old(bm.View()), old(Hd()), bm.View(), Hd())
      ensures status == OK || status == NORECORDS || status == FILEEOF || status == BUFFEREXCEEDED
      ensures status == OK ==> OnRecord() && [Current()] + Rest() == old(Rest())
      ensures status == NORECORDS ==> PageDone() && old(ci) < ci && Rest() == old(Rest())
      ensures status == FILEEOF ==> old(Rest()) == [] == Rest()
      ensures if status == BUFFEREXCEEDED then curFrame == -1 else curFrame >= 0
      ensures old(Exclusive(bm.View(), Hd(), heap.chain)) ==> status != BUFFEREXCEEDED
    {
      hide BufMgr.Valid, BufMgr.View, PoolSpec.Ok, HeapSpec.Inv, HeapPool.Holding, HeapPool.Quiet, HeapPool.Unseen;
      var img := CurrentPage();
      var nextPageNo := img.nextPage;
      if nextPageNo == -1 {
        LastPage(heap, ci);
        AheadEnd(heap.pages, ci, curRec.slotNo);
        UnseenRefl(bm.View(), Hd());
        return FILEEOF;
      }
      NotLastPage(heap, ci);
      status := AdvancePage(nextPageNo);
    }

    /** Move the cursor to the next record of the file, over as many pages as it takes. */
    method NextRecord() returns (status: Status)
      requires Valid() && curFrame >= 0
      modifies this`curFrame, this`curPageNo, this`curDirtyFlag, this`curRec, this`ci, bm.Repr()
      ensures Valid() && fresh(bm.Repr() - old(bm.Repr()))
      ensures Unseen(old(bm.View()), old(Hd()), bm.View(), Hd())
      ensures status == OK || status == FILEEOF || status == BUFFEREXCEEDED
      ensures status == OK ==> OnRecord() && [Current()] + Rest() == old(Rest())
      ensures status == FILEEOF ==> old(Rest()) == [] == Rest()
      ensures if status == BUFFEREXCEEDED then curFrame == -1 else curFrame >= 0
      ensures old(Exclusive(bm.View(), Hd(), heap.chain)) ==> status != BUFFEREXCEEDED
    {
      hide HeapFile.Valid, HeapFile.Hd, HeapFile.CursorOk, HeapFile.Rest, HeapFile.Current, HeapFile.OnRecord,
           HeapFile.PageDone, BufMgr.View, PoolSpec.Ok, HeapPool.Unseen, HeapPool.Exclusive;
      ghost var p, hd := bm.View(), Hd();
      UnseenRefl(p, hd);
      status := SlotAfter();
      while status == ENDOFPAGE || status == NORECORDS
        invariant Valid() && fresh(bm.Repr() - old(bm.Repr()))
        invariant Unseen(p, hd, bm.View(), Hd())
        invariant status == OK || status == FILEEOF || status == BUFFEREXCEEDED || status == ENDOFPAGE
               || status == NORECORDS
        invariant status == OK ==> OnRecord() && [Current()] + Rest() == old(Rest())
        invariant status == FILEEOF ==> old(Rest()) == [] == Rest()
        invariant if status == BUFFEREXCEEDED then curFrame == -1 else curFrame >= 0
        invariant status == ENDOFPAGE || status == NORECORDS ==> PageDone() && Rest() == old(Rest())
        invariant Exclusive(p, hd, heap.chain) ==> status != BUFFEREXCEEDED
        decreases status == ENDOFPAGE || status == NORECORDS, |heap.chain| - ci
      {
        ghost var q, hd' := bm.View(), Hd();
        if Exclusive(p, hd, heap.chain) {
          UnseenExclusive(p, hd, q, hd', heap.chain);
        }
        status := LeavePage();
        UnseenCompose(p, hd, q, hd', bm.View(), Hd());
      }
    }

    /** nextRecord on the current page. */
    method SlotAfter() returns (status: Status)
      requires Valid() && curFrame >= 0
      modifies this`curRec
      ensures Valid() && Hd() == old(Hd())
      ensures status == OK || status == ENDOFPAGE
      ensures status == OK ==> OnRecord() && [Current()] + Rest() == old(Rest())
      ensures status == ENDOFPAGE ==> PageDone() && Rest() == old(Rest())
    {
      hide BufMgr.Valid, PoolSpec.Ok, HeapSpec.Inv, HeapPool.Holding;
      var img := CurrentPage();
      AheadNextSlot(heap.pages, ci, curRec.slotNo);
      var next := NextSlot(img, curRec.slotNo);
      if next.None? { return ENDOFPAGE; }
      curRec := RID(img.curPage, next.value);
      return OK;
    }

    /** The first page has no records: unpin it, and remember the end of the file. */
    method GiveUpScan()
      requires Valid() && curFrame >= 0
      modifies this`curFrame, this`curPageNo, bm.bufTable
      ensures Valid() && curFrame == -1 && Rest() == []
      ensures Unseen(old(bm.View()), old(Hd()), bm.View(), Hd())
    {
      hide BufMgr.Valid, BufMgr.View, PoolSpec.Ok, HeapSpec.Inv, HeapPool.Holding, HeapPool.Quiet, HeapPool.Unseen,
           HeapPool.Exclusive, CanHave;
      Release();
      curPageNo := -1;
    }

    /** Pin the first page of the file with the cursor before its first record. */
    method FetchFirst() returns (status: Status)
      requires Valid() && curFrame == -1 && 0 <= curPageNo
      modifies this`curFrame, this`curPageNo, this`curDirtyFlag, this`curRec, this`ci, bm.Repr()
      ensures Valid() && fresh(bm.Repr() - old(bm.Repr()))
      ensures Unseen(old(bm.View()), old(Hd()), bm.View(), Hd())
      ensures status == OK || status == BUFFEREXCEEDED
      ensures if status == OK then curFrame >= 0 && ci == 0 else curFrame == -1
      ensures 0 < |heap.pages| && Ahead(heap.pages, 0, -1) == Entries(heap.pages)
      ensures old(Rest()) == if NextSlot(heap.pages[0], -1).None? then [] else Entries(heap.pages)
    {
      hide BufMgr.Linked, PoolSpec.Ok, PoolSpec.ReadPage, HeapSpec.Inv, HeapPool.Holding, HeapPool.Unseen, ReadStatus,
           HeapSpec.Ahead, HeapSpec.Entries, FromSlot, NextSlot;
      FirstPageAhead(heap);
      var firstPage := FirstPageNo();
      curRec := NULLRID;
      status := Fetch(0, firstPage);
    }

    /** The first call after endScan: go back to the first page and give up if it has no records. */
    method Restart() returns (status: Status)
      requires Valid() && curFrame == -1 && 0 <= curPageNo
      modifies this`curFrame, this`curPageNo, this`curDirtyFlag, this`curRec, this`ci, bm.Repr()
      ensures Valid() && fresh(bm.Repr() - old(bm.Repr()))
      ensures Unseen(old(bm.View()), old(Hd()), bm.View(), Hd())
      ensures status == OK || status == FILEEOF || status == BUFFEREXCEEDED
      ensures status == OK ==> OnRecord() && [Current()] + Rest() == old(Rest())
      ensures status == FILEEOF ==> old(Rest()) == [] == Rest()
      ensures status != OK <==> curFrame == -1
    {
      hide HeapFile.Valid, HeapFile.Hd, HeapFile.CursorOk, HeapFile.Rest, HeapFile.Current, HeapFile.OnRecord,
           HeapFile.PageDone, BufMgr.View, PoolSpec.Ok, HeapPool.Unseen, HeapPool.Exclusive;
      ghost var p, hd := bm.View(), Hd();
      status := FetchFirst();
      if status != OK { return; }
      ghost var q, hd' := bm.View(), Hd();
      status := FirstOnPage();
      if status == NORECORDS {
        GiveUpScan();
        UnseenCompose(p, hd, q, hd', bm.View(), Hd());
        status := FILEEOF;
      }
    }

    method FirstPageNo() returns (pageNo: int)
      requires Valid()
      ensures 0 < |heap.chain| == |heap.pages| && pageNo == heap.chain[0]
    {
      FrameContents(bm.View(), Hd(), heap, if curFrame >= 0 then ci else 0);
      var header := bm.bufPool[headerFrame];
      pageNo := header.hdrFirst;
    }

    // ----- scanning -----

    /** startScan with no filter, or with a filter on an INTEGER attribute. */
    method StartScan(unfiltered: bool, offset: int, length: int, op: Operator, value: int) returns (status: Status)
      requires Valid()
      modifies this`filter
      ensures Valid() && Hd() == old(Hd()) && Rest() == old(Rest())
      ensures status == if unfiltered || (0 <= offset && length == 4) then OK else BADSCANPARM
      ensures filter == if status != OK then old(filter)
                        else if unfiltered then NoFilter else IntFilter(offset, op, value)
    {
      hide BufMgr.Valid, BufMgr.View, PoolSpec.Ok, HeapSpec.Inv, HeapPool.Holding;
      if unfiltered {
        filter := NoFilter;
        return OK;
      }
      if offset < 0 || length != 4 { return BADSCANPARM; }
      filter := IntFilter(offset, op, value);
      return OK;
    }

    /** HeapFileScan::getRecord: the record under the cursor. There may be none, or none any more. */
    method GetCurrent() returns (status: Status, rec: Record)
      requires Valid() && curFrame >= 0 && 0 <= curRec.slotNo
      ensures status == if HasRec(heap.pages[ci], curRec.slotNo) && RecAt(heap.pages[ci], curRec.slotNo) != [] then OK
                        else INVALIDSLOTNO
      ensures rec == if HasRec(heap.pages[ci], curRec.slotNo) then RecAt(heap.pages[ci], curRec.slotNo) else []
      ensures OnRecord() ==> status == (if Current().rec == [] then INVALIDSLOTNO else OK) && rec == Current().rec
    {
      var img := CurrentPage();
      if HasRec(img, curRec.slotNo) {
        LiveIffNonEmpty(img, curRec.slotNo);
      }
      if !Live(img, curRec.slotNo) { return INVALIDSLOTNO, []; }
      return OK, RecAt(img, curRec.slotNo);
    }

    /** Put the cursor on the next record, whatever the state of the scan. */
    method Step() returns (status: Status)
      requires Valid()
      modifies this`curFrame, this`curPageNo, this`curDirtyFlag, this`curRec, this`ci, bm.Repr()
      ensures Valid() && fresh(bm.Repr() - old(bm.Repr()))
      ensures Unseen(old(bm.View()), old(Hd()), bm.View(), Hd())
      ensures status == OK || status == FILEEOF || status == BUFFEREXCEEDED
      ensures status == OK ==> OnRecord() && [Current()] + Rest() == old(Rest())
      ensures status == FILEEOF ==> old(Rest()) == [] == Rest()
      ensures status == BUFFEREXCEEDED ==> curFrame == -1
      ensures old(curFrame >= 0 && Exclusive(bm.View(), Hd(), heap.chain)) ==> status != BUFFEREXCEEDED && curFrame >= 0
    {
      if curFrame == -1 && curPageNo < 0 {
        UnseenRefl(bm.View(), Hd());
        return FILEEOF;
      }
      if curFrame == -1 {
        status := Restart();
      } else {
        status := NextRecord();
      }
    }

    /** One turn of the loop of scanNext: the record under the cursor ends the step, or the cursor moves on. */
    method ScanTurn(ghost start: seq<Entry>) returns (status: Status, stop: bool)
      requires Valid() && OnRecord() && SameScan(start, [Current()] + Rest(), filter)
      modifies this`curFrame, this`curPageNo, this`curDirtyFlag, this`curRec, this`ci, bm.Repr()
      ensures Valid() && fresh(bm.Repr() - old(bm.Repr()))
      ensures Unseen(old(bm.View()), old(Hd()), bm.View(), Hd())
      ensures stop ==>
        status == NextStatus(start, filter) && status != BUFFEREXCEEDED && Rest() == NextRest(start, filter)
      ensures stop && status == OK ==> OnRecord() && Skip(start, filter) != [] && Current() == Skip(start, filter)[0]
      ensures !stop ==> status == OK || status == FILEEOF || status == BUFFEREXCEEDED
      ensures !stop && status == OK ==>
        OnRecord() && SameScan(start, [Current()] + Rest(), filter) && |Rest()| < old(|Rest()|)
      ensures !stop && status == FILEEOF ==> SameScan(start, [], filter) && Rest() == []
      ensures status == BUFFEREXCEEDED ==> curFrame == -1
      ensures old(Exclusive(bm.View(), Hd(), heap.chain)) ==> status != BUFFEREXCEEDED && curFrame >= 0
    {
      hide HeapFile.Valid, HeapFile.Hd, HeapFile.CursorOk, HeapFile.Rest, HeapFile.Current, HeapFile.OnRecord,
           HeapFile.PageDone, BufMgr.View, PoolSpec.Ok, HeapPool.Unseen, HeapPool.Exclusive;
      hide ScanSpec.SameScan, ScanSpec.Skip, ScanSpec.NextStatus, ScanSpec.NextRest, ScanSpec.MatchRec;
      ScanHead(start, Current(), Rest(), filter);
      UnseenRefl(bm.View(), Hd());
      var rec;
      status, rec := GetCurrent();
      stop := status != OK || MatchRec(filter, rec);
      if !stop {
        status := NextRecord();
      }
    }

    /** The next record that satisfies the filter. The state of the scan is the sequence of records ahead;
        a full pool interrupts the scan, which can only happen if somebody else holds a page of the file or
        the scan had no page to begin with. */
    method ScanNext() returns (status: Status, outRid: RID)
      requires Valid()
      modifies this`curFrame, this`curPageNo, this`curDirtyFlag, this`curRec, this`ci, bm.Repr()
      ensures Valid() && fresh(bm.Repr() - old(bm.Repr()))
      ensures Unseen(old(bm.View()), old(Hd()), bm.View(), Hd())
      ensures status == BUFFEREXCEEDED ==> curFrame == -1
      ensures status != BUFFEREXCEEDED ==>
        status == NextStatus(old(Rest()), filter) && Rest() == NextRest(old(Rest()), filter)
      ensures status == OK ==>
        OnRecord() && outRid == curRec && Skip(old(Rest()), filter) != [] && Current() == Skip(old(Rest()), filter)[0]
      ensures old(curFrame >= 0 && Exclusive(bm.View(), Hd(), heap.chain)) ==> status != BUFFEREXCEEDED && curFrame >= 0
    {
      hide HeapFile.Valid, HeapFile.Hd, HeapFile.CursorOk, HeapFile.Rest, HeapFile.Current, HeapFile.OnRecord,
           BufMgr.View, PoolSpec.Ok, HeapPool.Unseen, HeapPool.Exclusive;
      hide ScanSpec.SameScan, ScanSpec.Skip, ScanSpec.NextStatus, ScanSpec.NextRest;
      outRid := NULLRID;
      ghost var start := Rest();
      ghost var p, hd := bm.View(), Hd();
      ghost var safe := curFrame >= 0 && Exclusive(p, hd, heap.chain);
      ScanStart(start, filter);
      status := Step();
      var stop := false;
      while status == OK && !stop
        invariant Valid() && fresh(bm.Repr() - old(bm.Repr()))
        invariant Unseen(p, hd, bm.View(), Hd())
        invariant !stop ==> status == OK || status == FILEEOF || status == BUFFEREXCEEDED
        invariant !stop && status == OK ==> OnRecord() && SameScan(start, [Current()] + Rest(), filter)
        invariant !stop && status == FILEEOF ==> SameScan(start, [], filter) && Rest() == []
        invariant stop ==>
          status == NextStatus(start, filter) && status != BUFFEREXCEEDED && Rest() == NextRest(start, filter)
        invariant stop && status == OK ==>
          OnRecord() && Skip(start, filter) != [] && Current() == Skip(start, filter)[0]
        invariant status == BUFFEREXCEEDED ==> curFrame == -1
        invariant safe ==> status != BUFFEREXCEEDED && curFrame >= 0
        decreases status == OK && !stop, |Rest()|
      {
        ghost var q, hd' := bm.View(), Hd();
        if safe {
          UnseenExclusive(p, hd, q, hd', heap.chain);
        }
        status, stop := ScanTurn(start);
        UnseenCompose(p, hd, q, hd', bm.View(), Hd());
      }
      if status == OK {
        outRid := curRec;
      } else if !stop && status == FILEEOF {
        ScanEnd(start, filter);
      }
    }

    /** Everything Valid says except that the page images form a heap file. */
    ghost predicate Held()
      reads this, bm, bm.bufTable, bm.bufPool, bm.hashTable, bm.hashTable.ht, bm.hashTable.buckets, bm.disk
    {
      && bm.Valid() && Holding(bm.View(), Hd(), heap) && CursorOk()
      && Distinct(heap.chain) && heap.hdrNo !in heap.chain
    }

    method WriteCurrent(img: PageImage)
      requires Held() && curFrame >= 0
      modifies this`curDirtyFlag, this`heap, bm.bufPool
      ensures Held() && curDirtyFlag && heap == PokedData(old(heap), ci, img)
      ensures Quiet(old(bm.View()), old(Hd()), bm.View(), Hd())
    {
      hide BufMgr.Linked, PoolSpec.Ok, HeapSpec.Inv, HeapPool.Holding, HeapPool.Quiet;
      ghost var p := bm.View();
      PokeDataLaw(p, Hd(), heap, ci, img);
      bm.bufPool[curFrame] := DataPage(img);
      curDirtyFlag := true;
      heap := PokedData(heap, ci, img);
      assert bm.View() == Poke(p, Hd().CurId(), DataPage(img));
    }

    /** Add to the record count in the header page. */
    method AddToRecCnt(delta: int)
      requires Held()
      modifies this`hdrDirtyFlag, this`heap, bm.bufPool
      ensures Held() && hdrDirtyFlag && heap == old(heap).(recCnt := old(heap).recCnt + delta)
      ensures Quiet(old(bm.View()), old(Hd()), bm.View(), Hd())
    {
      hide BufMgr.Linked, PoolSpec.Ok, HeapSpec.Inv, HeapPool.Holding;
      ghost var p := bm.View();
      PokeHeaderLaw(p, Hd(), heap, heap.(recCnt := heap.recCnt + delta));
      HeaderFrame(p, Hd(), heap);
      var header := bm.bufPool[headerFrame];
      bm.bufPool[headerFrame] := header.(recCnt := header.recCnt + delta);
      hdrDirtyFlag := true;
      heap := heap.(recCnt := heap.recCnt + delta);
      assert bm.View() == Poke(p, Hd().HdrId(), Header(heap));
    }

    /** getRecCnt */
    method GetRecCnt() returns (n: int)
      requires Valid()
      ensures n == |Contents()|
    {
      FrameContents(bm.View(), Hd(), heap, if curFrame >= 0 then ci else 0);
      RecCntIsCount(heap);
      n := bm.bufPool[headerFrame].recCnt;
    }

    /** deleteRecord on the current page. */
    method DeleteOnPage() returns (status: Status)
      requires Valid() && curFrame >= 0 && 0 <= curRec.slotNo
      modifies this`curDirtyFlag, this`heap, bm.bufPool
      ensures Held() && Quiet(old(bm.View()), old(Hd()), bm.View(), Hd())
      ensures status == if Live(old(heap).pages[ci], curRec.slotNo) then OK else INVALIDSLOTNO
      ensures SlottedPage.Valid(old(heap).pages[ci])
      ensures heap == if status == OK then PokedData(old(heap), ci, Delete(old(heap).pages[ci], curRec.slotNo))
                      else old(heap)
    {
      hide BufMgr.Valid, PoolSpec.Ok, HeapSpec.Inv, HeapPool.Holding;
      HeldParts(heap);
      var img := CurrentPage();
      status := INVALIDSLOTNO;
      if Live(img, curRec.slotNo) {
        img := Delete(img, curRec.slotNo);
        status := OK;
      }
      WriteCurrent(img);
    }

    /** Delete the record under the cursor. The header count is decremented whether or not the page had
        such a record. */
    method DeleteRecord() returns (status: Status)
      requires Valid() && curFrame >= 0 && 0 <= curRec.slotNo
      modifies this`curDirtyFlag, this`hdrDirtyFlag, this`heap, bm.bufPool
      ensures Held() && Quiet(old(bm.View()), old(Hd()), bm.View(), Hd())
      ensures SlottedPage.Valid(old(heap).pages[ci])
      ensures status == if Live(old(heap).pages[ci], curRec.slotNo) then OK else INVALIDSLOTNO
      ensures heap == if status == OK then DeleteAt(old(heap), ci, curRec.slotNo)
                      else old(heap).(recCnt := old(heap).recCnt - 1)
      ensures Valid() <==> status == OK
      ensures old(OnRecord()) && old(Current()).rec != [] ==> status == OK
      ensures status == OK && old(OnRecord()) ==> TookOut(old(Contents()), Contents(), old(Current()), Rest())
      ensures Rest() == old(Rest())
    {
      hide BufMgr.Linked, PoolSpec.Ok, HeapSpec.Inv, HeapPool.Holding,
           HeapPool.Quiet, HeapPool.Unseen, HeapPool.Exclusive;
      hide HeapFile.Held, DeleteAt, PokedData, HeapSpec.Entries, TookOut;
      ghost var p, hd := bm.View(), Hd();
      PageOfChain(heap, ci);
      if OnRecord() {
        LiveIffNonEmpty(heap.pages[ci], curRec.slotNo);
      }
      status := DeleteOnPage();
      ghost var q, hd' := bm.View(), Hd();
      AddToRecCnt(-1);
      QuietCompose(p, hd, q, hd', bm.View(), Hd());
      DeleteCountsIffLive(old(heap), ci, curRec.slotNo);
      if status == OK {
        DeletedOne(old(heap), ci, curRec.slotNo);
        assert heap == DeleteAt(old(heap), ci, curRec.slotNo) by { PokedIsDeleted(old(heap), ci, curRec.slotNo); }
        HeldIsValid();
      }
    }

    lemma HeldIsValid()
      requires Held() && Inv(heap)
      ensures Valid()
    {}

    /** Whether a page of the chain can become the current one. */
    lemma ChainHave(i: nat)
      requires Valid() && i < |heap.chain|
      ensures var p, hd, id := bm.View(), Hd(), PageId(filePtr, heap.chain[i]);
              && InUse(p.disk, id) && (hd.HasCur() <==> curFrame >= 0)
              && (hd.HasCur() ==> hd.CurId() in p.index && 0 <= p.index[hd.CurId()] < |p.table|)
              && var q := if hd.HasCur() then PoolSpec.UnPin(p, hd.CurId(), hd.curDirty) else p;
                 0 <= q.hand < |q.table| && ReadStatus(q, id) == if CanHave(p, hd, id) then OK else BUFFEREXCEEDED
    {
      hide BufMgr.Linked, HeapSpec.Inv, CanHave, ReadStatus, PoolSpec.UnPin;
      assert Has(bm.View(), PageId(filePtr, heap.chain[i]), DataPage(heap.pages[i]));
      HaveLaw(bm.View(), Hd(), PageId(filePtr, heap.chain[i]));
    }

    /** Give up the current page for another one. When that page cannot be read, the pointer to the old page stays
        behind without its pin, under the number of the new one, and the object must not be used any more. */
    method Trade(ghost i: nat, pageNo: int) returns (status: Status)
      requires Valid() && curFrame >= 0 && i < |heap.chain| && heap.chain[i] == pageNo
      modifies this`curFrame, this`curPageNo, this`curDirtyFlag, this`ci, bm.Repr()
      ensures bm.Valid() && Inv(heap) && fresh(bm.Repr() - old(bm.Repr()))
      ensures status == if old(CanHave(bm.View(), Hd(), PageId(filePtr, pageNo))) then OK else BUFFEREXCEEDED
      ensures Valid() <==> status == OK
      ensures status != OK ==> PageId(filePtr, pageNo) !in bm.View().index
      ensures bm.View() == Traded(old(bm.View()), old(Hd()), PageId(filePtr, pageNo))
      ensures curPageNo == pageNo && curFrame >= 0
      ensures if status == OK then ci == i
              else curFrame == old(curFrame) && curDirtyFlag == old(curDirtyFlag) && ci == old(ci)
      ensures status != OK ==> Holding(bm.View(), Released(Hd()), heap)
      ensures Unseen(old(bm.View()), old(Hd()), bm.View(), if status == OK then Hd() else Released(Hd()))
      ensures old(Exclusive(bm.View(), Hd(), heap.chain)) ==> status == OK
    {
      hide BufMgr.Linked, PoolSpec.Ok, PoolSpec.Exhausted, HeapSpec.Inv, HeapPool.Holding, HeapPool.Unseen,
           HeapPool.Quiet;
      ghost var p, hd := bm.View(), Hd();
      var frame, dirty := curFrame, curDirtyFlag;
      ChainHave(i);
      Release();
      ghost var q, hd' := bm.View(), Hd();
      status := Fetch(i, pageNo);
      UnseenCompose(p, hd, q, hd', bm.View(), Hd());
      if status != OK {
        curFrame, curDirtyFlag := frame, dirty;
        MissedPage(q, PageId(filePtr, pageNo));
        NotHeld(bm.View(), Hd(), heap);
      }
    }

    // ----- inserting -----

    /** The appender works on the last page. */
    ghost predicate AtLast()
      reads this
    {
      CursorOk() && (curFrame >= 0 ==> ci + 1 == |heap.chain|)
    }

    method LastPageNo() returns (pageNo: int)
      requires Valid()
      ensures 0 < |heap.chain| == |heap.pages| && pageNo == heap.chain[|heap.chain| - 1]
    {
      FrameContents(bm.View(), Hd(), heap, if curFrame >= 0 then ci else 0);
      RecCntIsCount(heap);
      HeaderLast(heap);
      pageNo := bm.bufPool[headerFrame].hdrLast;
    }

    /** insertRecord on the current page. */
    method InsertOnPage(rec: Record) returns (status: Status, rid: RID)
      requires Valid() && AtLast() && curFrame >= 0
      modifies this`curDirtyFlag, this`hdrDirtyFlag, this`heap, bm.bufPool
      ensures Valid() && AtLast() && Quiet(old(bm.View()), old(Hd()), bm.View(), Hd())
      ensures SlottedPage.Valid(Last(old(heap)))
      ensures status == if Fits(Last(old(heap)), rec) then OK else NOSPACE
      ensures heap == if status == OK then InsertLast(old(heap), rec) else old(heap)
      ensures status != OK ==> bm.View() == old(bm.View())
      ensures status == OK ==> rid == RID(curPageNo, InsertSlot(Last(old(heap))))
    {
      hide PoolSpec.Ok, HeapSpec.Inv, HeapPool.Holding, HeapPool.Quiet, HeapPool.Unseen, HeapPool.Exclusive;
      hide HeapFile.Held;
      ghost var p, hd, h := bm.View(), Hd(), heap;
      ValidIsHeld();
      var img := CurrentPage();
      QuietRefl(p, hd);
      if !Fits(img, rec) { return NOSPACE, NULLRID; }
      rid := RID(img.curPage, InsertSlot(img));
      status := OK;
      InsertLastLaw(h, rec);
      WriteCurrent(Insert(img, rec));
      ghost var q, hd' := bm.View(), Hd();
      AddToRecCnt(1);
      QuietCompose(p, hd, q, hd', bm.View(), Hd());
      assert heap == InsertLast(h, rec);
      HeldIsValid();
    }

    lemma ValidIsHeld()
      requires Valid()
      ensures Held()
    {
      HeldParts(heap);
    }

    /** Initialize page n in its frame, record it in the header and link it behind the current page, which is
        unpinned dirty. */
    method LinkPage(n: int, frame: int)
      requires Valid() && AtLast() && curFrame >= 0 && n !in heap.chain && n != heap.hdrNo
      requires Pins(bm.View(), PageId(filePtr, n)) == 1
      requires PageId(filePtr, n) in bm.View().index && bm.View().index[PageId(filePtr, n)] == frame
      requires forall id :: id in bm.View().index ==> 0 <= bm.View().index[id] < |bm.View().table| == |bm.View().frames|
      requires Hd().HdrId() in bm.View().index && Hd().CurId() in bm.View().index && heap.chain != []
      requires heap.pages != []
      requires PoolSpec.Ok(WritePage(bm.View(), Hd(), heap, n, RawData(bm.View().frames[frame])))
      modifies bm.bufTable, bm.bufPool
      ensures bm.Valid() && bm.View() == AddPage(old(bm.View()), Hd(), heap, n, RawData(old(bm.View()).frames[frame]))
    {
      hide PoolSpec.Ok, HeapSpec.Inv, HeapPool.Holding;
      hide WritePage;
      ghost var p, hd := bm.View(), Hd();
      ghost var data := RawData(p.frames[frame]);
      HeaderLast(heap);
      WritePageFrames(p, hd, heap, n, data);
      bm.bufPool[frame] := DataPage(Init(RawData(bm.bufPool[frame]), n));
      var header := bm.bufPool[headerFrame];
      bm.bufPool[headerFrame] := header.(hdrLast := n, pageCnt := header.pageCnt + 1);
      var img := bm.bufPool[curFrame].image;
      bm.bufPool[curFrame] := DataPage(img.(nextPage := n));
      assert bm.View() == WritePage(p, hd, heap, n, data);
      var status := bm.UnPinPage(PageId(filePtr, curPageNo), true);
    }

    /** The page allocated in the step from p becomes the last page and the current page. */
    method AdoptPage(ghost p: Pool, n: int, frame: int)
      requires Valid() && AtLast() && curFrame >= 0
      requires PoolSpec.Ok(p) && Holding(p, Hd(), heap) && filePtr in p.disk.free && !PoolSpec.Exhausted(p)
      requires HasHeader(p.disk.pages, filePtr) && n == NextAlloc(p.disk.pages, filePtr)
      requires bm.View() == PoolSpec.AllocPage(p, filePtr) && frame == bm.clockHand
      modifies this`curFrame, this`curPageNo, this`curDirtyFlag, this`hdrDirtyFlag, this`ci, this`heap, bm.bufTable
      modifies bm.bufPool
      ensures Valid() && AtLast() && curFrame >= 0 && Quiet(p, old(Hd()), bm.View(), Hd())
      ensures heap.chain == old(heap).chain + [curPageNo] && Contents() == old(Contents())
      ensures Last(heap).slots == [] && Last(heap).freeSpace == DATA_SIZE && Last(heap).curPage == curPageNo
    {
      hide BufMgr.Linked, PoolSpec.Ok, PoolSpec.Exhausted, HeapSpec.Inv, HeapPool.Holding, HeapPool.Quiet;
      hide Grow, AddPage, WritePage, PoolSpec.AllocPage, StaleData, RawData, HeapSpec.Entries, Pins, NextAlloc,
           HasHeader;
      ghost var hd, h := Hd(), heap;
      HeaderLast(h);
      GrowReady(p, hd, h);
      ghost var data := StaleData(bm.View());
      LinkPage(n, frame);
      curFrame, curPageNo := frame, n;
      hdrDirtyFlag, curDirtyFlag := true, true;
      heap := Grow(h, n, data);
      ci := |h.chain|;
      GrowShape(h, n, data);
    }

    /** Add an empty page at the end of the chain and make it the current page. */
    method GrowFile() returns (status: Status)
      requires Valid() && AtLast() && curFrame >= 0
      modifies this`curFrame, this`curPageNo, this`curDirtyFlag, this`hdrDirtyFlag, this`ci, this`heap, bm.Repr()
      ensures Valid() && AtLast() && curFrame >= 0 && fresh(bm.Repr() - old(bm.Repr()))
      ensures Quiet(old(bm.View()), old(Hd()), bm.View(), Hd())
      ensures status == if PoolSpec.Exhausted(old(bm.View())) then BUFFEREXCEEDED else OK
      ensures status != OK ==> heap == old(heap)
      ensures status == OK ==> heap.chain == old(heap).chain + [curPageNo] && Contents() == old(Contents())
      ensures status == OK ==>
        Last(heap).slots == [] && Last(heap).freeSpace == DATA_SIZE && Last(heap).curPage == curPageNo
    {
      hide BufMgr.Linked, PoolSpec.Ok, HeapSpec.Inv, HeapPool.Holding, HeapPool.Quiet;
      hide PoolSpec.AllocPage, Grow;
      ghost var p, hd := bm.View(), Hd();
      FileExists(p, hd, heap);
      AllocQuiet(p, hd);
      AllocHolds(p, hd, heap);
      var n, frame;
      status, n, frame := bm.AllocPage(filePtr);
      if status == OK {
        AdoptPage(p, n, frame);
      }
    }

    /** The last page has no unused slot. */
    ghost predicate NoHoles()
      reads this
    {
      heap.pages != [] && InsertSlot(Last(heap)) == |Last(heap).slots|
    }

    /** Put a record on the last page, if it fits. */
    method Append(rec: Record) returns (status: Status, outRid: RID)
      requires Valid() && AtLast() && curFrame >= 0
      modifies this`curDirtyFlag, this`hdrDirtyFlag, this`heap, bm.bufPool
      ensures Valid() && AtLast() && Quiet(old(bm.View()), old(Hd()), bm.View(), Hd())
      ensures SlottedPage.Valid(Last(old(heap)))
      ensures heap.chain == old(heap).chain
      ensures status == if Fits(Last(old(heap)), rec) then OK else NOSPACE
      ensures status == OK ==> outRid.pageNo == curPageNo && FirstFreeSlot(Last(old(heap)), outRid.slotNo)
      ensures curPageNo == old(curPageNo)
      ensures status == OK ==> Inserted(old(Contents()), Contents(), outRid, rec)
      ensures status == OK && old(NoHoles()) ==> NoHoles() && Contents() == old(Contents()) + [Entry(outRid, rec)]
      ensures status != OK ==> heap == old(heap) && bm.View() == old(bm.View())
    {
      hide BufMgr.Valid, BufMgr.View, PoolSpec.Ok, HeapSpec.Inv, HeapPool.Holding, HeapPool.Quiet, HeapPool.Unseen;
      hide Inserted, HeapSpec.Entries;
      ghost var h := heap;
      status, outRid := InsertOnPage(rec);
      if status == OK {
        HeaderLast(h);
        PageOfChain(h, |h.chain| - 1);
        InsertSlotIsFirst(Last(h));
        InsertedLaw(h, rec);
        if InsertSlot(Last(h)) == |Last(h).slots| {
          NoHolesInsert(Last(h), rec);
        }
      }
    }

    /** Start a new page and put a record there, if it fits there. */
    method AppendOnNewPage(rec: Record) returns (status: Status, outRid: RID)
      requires Valid() && AtLast() && curFrame >= 0
      modifies this`curFrame, this`curPageNo, this`curDirtyFlag, this`hdrDirtyFlag, this`ci, this`heap, bm.Repr()
      ensures Valid() && AtLast() && curFrame >= 0 && fresh(bm.Repr() - old(bm.Repr()))
      ensures Quiet(old(bm.View()), old(Hd()), bm.View(), Hd())
      ensures status == if PoolSpec.Exhausted(old(bm.View())) then BUFFEREXCEEDED
                        else if |rec| <= DATA_SIZE - SLOT_SIZE then OK else NOSPACE
      ensures status == OK ==> outRid == RID(heap.chain[|heap.chain| - 1], 0)
      ensures status == OK ==> Inserted(old(Contents()), Contents(), outRid, rec)
      ensures status == OK ==> NoHoles() && Contents() == old(Contents()) + [Entry(outRid, rec)]
      ensures status != OK ==> Contents() == old(Contents())
      ensures |heap.chain| == |old(heap).chain| + (if status == BUFFEREXCEEDED then 0 else 1)
      ensures old(heap).chain <= heap.chain
    {
      hide BufMgr.Valid, PoolSpec.Ok, HeapSpec.Inv, HeapPool.Holding, HeapPool.Quiet, HeapPool.Unseen;
      hide Inserted, HeapSpec.Entries;
      ghost var p, hd := bm.View(), Hd();
      outRid := NULLRID;
      status := GrowFile();
      if status == OK {
        ghost var q, hd' := bm.View(), Hd();
        ghost var last := Last(heap);
        status, outRid := Append(rec);
        assert !HasRec(last, 0);
        QuietCompose(p, hd, q, hd', bm.View(), Hd());
      }
    }

    ghost function LastId(): PageId
      reads this
    {
      PageId(filePtr, heap.lastNo)
    }

    /** The last page is the current page or can be read. */
    ghost predicate CanLoad()
      reads this, bm, bm.bufTable, bm.bufPool, bm.hashTable, bm.hashTable.ht, bm.hashTable.buckets, bm.disk
      requires Valid()
    {
      curFrame >= 0 || ReadStatus(bm.View(), LastId()) == OK
    }

    /** The pool with the last page in it. */
    ghost function Loaded(): Pool
      reads this, bm, bm.bufTable, bm.bufPool, bm.hashTable, bm.hashTable.ht, bm.hashTable.buckets, bm.disk
      requires Valid()
    {
      if curFrame < 0 && InUse(bm.View().disk, LastId()) then PoolSpec.ReadPage(bm.View(), LastId()) else bm.View()
    }

    /** With no current page, the last page becomes the current page. */
    method FetchLast() returns (status: Status)
      requires Valid() && AtLast()
      modifies this`curFrame, this`curPageNo, this`curDirtyFlag, this`ci, bm.Repr()
      ensures Valid() && AtLast() && fresh(bm.Repr() - old(bm.Repr()))
      ensures Quiet(old(bm.View()), old(Hd()), bm.View(), Hd())
      ensures status == if old(CanLoad()) then OK else BUFFEREXCEEDED
      ensures status == OK ==> curFrame >= 0 && bm.View() == old(Loaded())
    {
      hide BufMgr.Linked, PoolSpec.Ok, PoolSpec.ReadPage, HeapSpec.Inv, HeapPool.Holding;
      status := OK;
      if curFrame == -1 {
        HeaderLast(heap);
        var pageNo := LastPageNo();
        ghost var p, hd := bm.View(), Hd();
        status := Fetch(|heap.chain| - 1, pageNo);
        UnseenIsQuiet(p, hd, bm.View(), Hd());
      } else {
        QuietRefl(bm.View(), Hd());
      }
    }

    /** What the constructor of InsertFileScan does after that of HeapFile: the last page becomes the current page. */
    method MoveToLast() returns (status: Status)
      requires Valid() && curFrame >= 0
      modifies this`curFrame, this`curPageNo, this`curDirtyFlag, this`ci, bm.Repr()
      ensures bm.Valid() && Inv(heap) && fresh(bm.Repr() - old(bm.Repr()))
      ensures status == if old(curPageNo == heap.lastNo || CanHave(bm.View(), Hd(), LastId())) then OK
                        else BUFFEREXCEEDED
      ensures Valid() <==> status == OK
      ensures status == OK ==> AtLast() && curFrame >= 0
      ensures Unseen(old(bm.View()), old(Hd()), bm.View(), if status == OK then Hd() else Released(Hd()))
      ensures old(Exclusive(bm.View(), Hd(), heap.chain)) ==> status == OK
    {
      hide BufMgr.Linked, PoolSpec.Ok, HeapSpec.Inv, HeapPool.Holding, HeapPool.Unseen, HeapPool.Exclusive;
      var lastPage := LastPageNo();
      HeaderLast(heap);
      status := OK;
      if curPageNo != lastPage {
        status := Trade(|heap.chain| - 1, lastPage);
        if status != OK {
          curDirtyFlag := false;
          NotHeld(bm.View(), Hd(), heap);
        }
      } else {
        UnseenRefl(bm.View(), Hd());
        SamePlace(heap, ci, |heap.chain| - 1);
      }
    }

    /** A page is added when the records of the last one, the new one and one slot more than there are do not go
        into 1004 bytes. */
    ghost predicate Grows(last: PageImage, rec: Record, status: Status) {
      && (status == OK || status == NOSPACE)
      && RecordBytes(last, |last.slots|) + |rec| + 4 * (|last.slots| + 1) > 1004
    }

    /** The record takes the first unused slot of the last page, or the first slot of the page added. */
    ghost predicate Lands(before: Heap, after: Heap, rec: Record, rid: RID)
      requires before.pages != []
    {
      && before.chain != [] && after.chain != []
      && rid.pageNo == after.chain[|after.chain| - 1]
      && if Overflows(Last(before), |rec|) then rid.slotNo == 0 else FirstFreeSlot(Last(before), rid.slotNo)
    }

    /** Append a record to the current page, or to a new page behind it. */
    method AppendSomewhere(rec: Record) returns (status: Status, outRid: RID)
      requires Valid() && AtLast() && curFrame >= 0
      modifies this`curFrame, this`curPageNo, this`curDirtyFlag, this`hdrDirtyFlag, this`ci, this`heap, bm.Repr()
      ensures Valid() && AtLast() && curFrame >= 0 && fresh(bm.Repr() - old(bm.Repr()))
      ensures Quiet(old(bm.View()), old(Hd()), bm.View(), Hd())
      ensures old(heap).pages != [] && status == InsertStatus(Last(old(heap)), rec, Full(old(bm.View())))
      ensures status == OK ==> Inserted(old(Contents()), Contents(), outRid, rec)
      ensures status == OK && old(NoHoles()) ==> NoHoles() && Contents() == old(Contents()) + [Entry(outRid, rec)]
      ensures status != OK ==> Contents() == old(Contents())
      ensures old(heap).chain <= heap.chain
      ensures |heap.chain| == |old(heap).chain| + if Grows(Last(old(heap)), rec, status) then 1 else 0
      ensures status == OK ==> Lands(old(heap), heap, rec, outRid)
    {
      hide BufMgr.Valid, BufMgr.View, PoolSpec.Ok, HeapSpec.Inv, HeapPool.Holding, HeapPool.Quiet, HeapPool.Unseen;
      hide Inserted, HeapSpec.Entries, HeapFile.Hd, Fits;
      ghost var p, hd, h := bm.View(), Hd(), heap;
      LastFreeSpace(h);
      HandBound(p);
      status, outRid := Append(rec);
      SpaceLaw(Last(h), rec);
      if status == OK { return; }
      ghost var r, hd'' := bm.View(), Hd();
      status, outRid := AppendOnNewPage(rec);
      QuietCompose(p, hd, r, hd'', bm.View(), Hd());
    }

    /** Append a record. A record that does not fit on the last page goes to a new page; a record longer than
        a fresh page can take leaves that page behind, empty. */
    method InsertRecord(rec: Record) returns (status: Status, outRid: RID)
      requires Valid() && AtLast()
      modifies this, bm.Repr()
      ensures Valid() && AtLast() && fresh(bm.Repr() - old(bm.Repr()))
      ensures Quiet(old(bm.View()), old(Hd()), bm.View(), Hd())
      ensures old(heap).pages != []
      ensures status == if |rec| > DATA_SIZE then INVALIDRECLEN else if !old(CanLoad()) then BUFFEREXCEEDED
                        else InsertStatus(Last(old(heap)), rec, Full(old(Loaded())))
      ensures status == OK ==> Inserted(old(Contents()), Contents(), outRid, rec)
      ensures status == OK && old(NoHoles()) ==> NoHoles() && Contents() == old(Contents()) + [Entry(outRid, rec)]
      ensures status != OK ==> Contents() == old(Contents())
      ensures old(curFrame) >= 0 ==> curFrame >= 0
      ensures old(heap).chain <= heap.chain
      ensures |heap.chain| == |old(heap).chain| + if Grows(Last(old(heap)), rec, status) then 1 else 0
      ensures status == OK ==> Lands(old(heap), heap, rec, outRid)
    {
      hide BufMgr.Valid, PoolSpec.Ok, HeapSpec.Inv, HeapPool.Holding, HeapPool.Quiet, HeapPool.Unseen;
      hide Inserted, HeapSpec.Entries, HeapFile.Hd, HeapFile.Loaded, Fits;
      outRid := NULLRID;
      ghost var p, hd := bm.View(), Hd();
      LastFreeSpace(heap);
      if |rec| > DATA_SIZE {
        QuietRefl(p, hd);
        return INVALIDRECLEN, outRid;
      }
      status := FetchLast();
      if status != OK { return; }
      ghost var q, hd' := bm.View(), Hd();
      status, outRid := AppendSomewhere(rec);
      QuietCompose(p, hd, q, hd', bm.View(), Hd());
    }

    // ----- positions -----

    method EndScan()
      requires Valid()
      modifies this`curFrame, this`curPageNo, this`curDirtyFlag, bm.bufTable
      ensures Valid() && curFrame == -1
      ensures Unseen(old(bm.View()), old(Hd()), bm.View(), Hd())
      ensures old(curFrame) >= 0 ==> Rest() == if FromSlot(heap.pages[0], 0) == [] then [] else Contents()
      ensures old(curFrame) == -1 ==> Rest() == old(Rest())
    {
      hide BufMgr.Valid, BufMgr.View, PoolSpec.Ok, HeapSpec.Inv, HeapPool.Holding, HeapPool.Quiet, HeapPool.Unseen,
           HeapPool.Exclusive, CanHave;
      UnseenRefl(bm.View(), Hd());
      if curFrame >= 0 {
        Release();
        curPageNo := 0;
        curDirtyFlag := false;
      }
    }

    /** The marked position is a position of the file. */
    ghost predicate MarkOk()
      reads this
    {
      |heap.chain| == |heap.pages| && mi < |heap.chain| && heap.chain[mi] == markedPageNo && -1 <= markedRec.slotNo
    }

    /** What is ahead of the marked position. */
    ghost function MarkedRest(): seq<Entry>
      reads this
      requires MarkOk()
    {
      Ahead(heap.pages, mi, markedRec.slotNo)
    }

    /** The position is remembered, whatever it is; a position on a page can be returned to. */
    method MarkScan()
      requires Valid()
      modifies this`markedPageNo, this`markedRec, this`mi
      ensures Valid() && Hd() == old(Hd()) && markedPageNo == curPageNo && markedRec == curRec && mi == ci
      ensures curFrame >= 0 ==> MarkOk() && MarkedRest() == Rest()
    {
      hide BufMgr.Valid, BufMgr.View, PoolSpec.Ok, HeapSpec.Inv, HeapPool.Holding;
      markedPageNo := curPageNo;
      markedRec := curRec;
      mi := ci;
    }

    ghost function MarkedId(): PageId
      reads this
    {
      PageId(filePtr, markedPageNo)
    }

    /** The marked page becomes the current page. */
    method ToMarkedPage() returns (status: Status)
      requires Valid() && MarkOk()
      modifies this`curFrame, this`curPageNo, this`curDirtyFlag, this`ci, bm.Repr()
      ensures bm.Valid() && Inv(heap) && fresh(bm.Repr() - old(bm.Repr()))
      ensures Valid() <==> status == OK || old(curFrame) == -1
      ensures Unseen(old(bm.View()), old(Hd()), bm.View(), if status == OK then Hd() else Released(Hd()))
      ensures status == if old(CanHave(bm.View(), Hd(), MarkedId())) then OK else BUFFEREXCEEDED
      ensures old(curFrame >= 0 && Exclusive(bm.View(), Hd(), heap.chain)) ==> status == OK
      ensures status == OK ==> curFrame >= 0 && ci == mi
    {
      hide BufMgr.Valid, BufMgr.View, PoolSpec.Ok, HeapSpec.Inv, HeapPool.Holding, HeapPool.Quiet, HeapPool.Unseen;
      if curFrame >= 0 {
        status := Trade(mi, markedPageNo);
      } else {
        ChainHave(mi);
        status := Fetch(mi, markedPageNo);
      }
    }

    /** Back to the marked position. */
    method ResetScan() returns (status: Status)
      requires Valid() && MarkOk()
      modifies this`curFrame, this`curPageNo, this`curDirtyFlag, this`curRec, this`ci, bm.Repr()
      ensures bm.Valid() && Inv(heap) && fresh(bm.Repr() - old(bm.Repr()))
      ensures Valid() <==> status == OK || old(curFrame) == -1
      ensures Unseen(old(bm.View()), old(Hd()), bm.View(), if status == OK then Hd() else Released(Hd()))
      ensures status == if old(curPageNo == markedPageNo || CanHave(bm.View(), Hd(), MarkedId())) then OK
                        else BUFFEREXCEEDED
      ensures old(curFrame >= 0 && Exclusive(bm.View(), Hd(), heap.chain)) ==> status == OK
      ensures MarkOk()
      ensures status == OK && old(curFrame) >= 0 ==> curFrame >= 0 && curRec == markedRec && ci == mi
      ensures status == OK && old(curFrame) >= 0 ==> Rest() == MarkedRest()
    {
      hide BufMgr.Valid, BufMgr.View, PoolSpec.Ok, HeapSpec.Inv, HeapPool.Holding, HeapPool.Quiet, HeapPool.Unseen,
           HeapPool.Exclusive, CanHave;
      UnseenRefl(bm.View(), Hd());
      if markedPageNo != curPageNo {
        curRec := markedRec;
        status := ToMarkedPage();
      } else {
        curRec := markedRec;
        status := OK;
        if curFrame >= 0 {
          SamePlace(heap, ci, mi);
        }
      }
    }

    /** A page is the current one or can become it. */
    ghost predicate Turns(pageNo: int)
      reads this, bm, bm.bufTable, bm.bufPool, bm.hashTable, bm.hashTable.ht, bm.hashTable.buckets, bm.disk
      requires Valid()
    {
      (curFrame >= 0 && curPageNo == pageNo) || CanHave(bm.View(), Hd(), PageId(filePtr, pageNo))
    }

    /** The page of a record id becomes the current page. When it cannot be read, the object keeps the old page as its
        current page without owning a pin on it. */
    method TurnTo(ghost i: nat, pageNo: int) returns (status: Status)
      requires Valid() && i < |heap.chain| && heap.chain[i] == pageNo
      modifies this`curFrame, this`curPageNo, this`curDirtyFlag, this`ci, bm.Repr()
      ensures Valid() && fresh(bm.Repr() - old(bm.Repr()))
      ensures status == if old(Turns(pageNo)) then OK else BUFFEREXCEEDED
      ensures status == OK ==> curFrame >= 0 && ci == i
      ensures status != OK ==> Hd() == old(Hd()) && ci == old(ci)
      ensures Unseen(old(bm.View()), old(Hd()), bm.View(), if status == OK then Hd() else Released(Hd()))
      ensures status != OK && curFrame >= 0 ==>
        0 < Pins(bm.View(), Hd().CurId()) == old(Pins(bm.View(), Hd().CurId())) - 1
    {
      hide BufMgr.Valid, BufMgr.View, PoolSpec.Ok, HeapSpec.Inv, HeapPool.Holding, HeapPool.Quiet, HeapPool.Unseen,
           HeapPool.Exclusive, CanHave;
      UnseenRefl(bm.View(), Hd());
      status := OK;
      if curFrame >= 0 && pageNo == curPageNo {
        SamePlace(heap, ci, i);
      } else if curFrame >= 0 {
        status := TradeBack(i, pageNo);
      } else {
        status := FetchBack(i, pageNo);
      }
    }

    method FetchBack(ghost i: nat, pageNo: int) returns (status: Status)
      requires Valid() && curFrame == -1 && i < |heap.chain| && heap.chain[i] == pageNo
      modifies this`curFrame, this`curPageNo, this`curDirtyFlag, this`ci, bm.Repr()
      ensures Valid() && fresh(bm.Repr() - old(bm.Repr()))
      ensures status == if old(CanHave(bm.View(), Hd(), PageId(filePtr, pageNo))) then OK else BUFFEREXCEEDED
      ensures if status == OK then curFrame >= 0 && ci == i else curFrame == -1 && Hd() == old(Hd()) && ci == old(ci)
      ensures Unseen(old(bm.View()), old(Hd()), bm.View(), Hd())
    {
      hide BufMgr.Valid, BufMgr.View, PoolSpec.Ok, HeapSpec.Inv, HeapPool.Holding, HeapPool.Quiet, HeapPool.Unseen,
           HeapPool.Exclusive, CanHave;
      var before, dirty := curPageNo, curDirtyFlag;
      ChainHave(i);
      status := Fetch(i, pageNo);
      if status != OK {
        curPageNo, curDirtyFlag := before, dirty;
      }
    }

    /** getRecord assigns the page number only after the page has been read. */
    method TradeBack(ghost i: nat, pageNo: int) returns (status: Status)
      requires Valid() && curFrame >= 0 && i < |heap.chain| && heap.chain[i] == pageNo
      modifies this`curFrame, this`curPageNo, this`curDirtyFlag, this`ci, bm.Repr()
      ensures Valid() && curFrame >= 0 && fresh(bm.Repr() - old(bm.Repr()))
      ensures status == if old(CanHave(bm.View(), Hd(), PageId(filePtr, pageNo))) then OK else BUFFEREXCEEDED
      ensures if status == OK then ci == i else Hd() == old(Hd()) && ci == old(ci)
      ensures Unseen(old(bm.View()), old(Hd()), bm.View(), if status == OK then Hd() else Released(Hd()))
      ensures status != OK ==> 0 < Pins(bm.View(), Hd().CurId()) == old(Pins(bm.View(), Hd().CurId())) - 1
    {
      hide BufMgr.Linked, PoolSpec.Ok, HeapSpec.Inv, HeapPool.Holding, HeapPool.Quiet, HeapPool.Unseen, CanHave, Traded;
      var before := curPageNo;
      ghost var p, hd := bm.View(), Hd();
      ChainHave(i);
      HeldParts(heap);
      status := Trade(i, pageNo);
      if status != OK {
        curPageNo := before;
        StaleHolds(p, hd, heap, PageId(filePtr, pageNo));
      }
    }

    /** HeapFile::getRecord: any record by its id, on whatever page of the file it is. When the page cannot be read, the
        object keeps its current page without owning a pin on it, and its next release takes somebody else's pin. */
    method GetRecord(ghost i: nat, rid: RID) returns (status: Status, rec: Record)
      requires Valid() && i < |heap.chain| && heap.chain[i] == rid.pageNo && 0 <= rid.slotNo
      modifies this`curFrame, this`curPageNo, this`curDirtyFlag, this`curRec, this`ci, bm.Repr()
      ensures Valid() && fresh(bm.Repr() - old(bm.Repr()))
      ensures status == OK || status == INVALIDSLOTNO || status == BUFFEREXCEEDED
      ensures status == BUFFEREXCEEDED <==> !old(Turns(rid.pageNo))
      ensures Unseen(old(bm.View()), old(Hd()), bm.View(), if status != BUFFEREXCEEDED then Hd() else Released(Hd()))
      ensures status == BUFFEREXCEEDED ==> Hd() == old(Hd()) && curRec == old(curRec)
      ensures status == BUFFEREXCEEDED && curFrame >= 0 ==>
        0 < Pins(bm.View(), Hd().CurId()) == old(Pins(bm.View(), Hd().CurId())) - 1
      ensures status == OK ==> rec != [] && Entry(rid, rec) in Contents()
      ensures status == INVALIDSLOTNO ==> forall e :: e in Contents() && e.rid == rid ==> e.rec == []
    {
      hide BufMgr.Valid, BufMgr.View, PoolSpec.Ok, HeapSpec.Inv, HeapPool.Holding, HeapPool.Quiet, HeapPool.Unseen;
      hide HeapFile.Contents;
      rec := [];
      status := TurnTo(i, rid.pageNo);
      if status != OK { return; }
      curRec := rid;
      status, rec := ReadSlot(i, rid);
    }

    /** getRecord on the current page. */
    method ReadSlot(ghost i: nat, rid: RID) returns (status: Status, rec: Record)
      requires Valid() && curFrame >= 0 && i == ci && heap.chain[i] == rid.pageNo && 0 <= rid.slotNo
      ensures status == OK || status == INVALIDSLOTNO
      ensures status == OK ==> rec != [] && Entry(rid, rec) in Contents()
      ensures status == INVALIDSLOTNO ==> forall e :: e in Contents() && e.rid == rid ==> e.rec == []
    {
      hide BufMgr.Valid, BufMgr.View, PoolSpec.Ok, HeapSpec.Inv, HeapPool.Holding;
      hide HeapSpec.Entries;
      var img := CurrentPage();
      forall e: Entry | e.rid == rid
        ensures e in Contents() <==> HasRec(img, rid.slotNo) && e.rec == RecAt(img, rid.slotNo)
      {
        RidLookup(heap, i, rid, e);
      }
      if HasRec(img, rid.slotNo) {
        LiveIffNonEmpty(img, rid.slotNo);
      }
      if !Live(img, rid.slotNo) { return INVALIDSLOTNO, []; }
      return OK, RecAt(img, rid.slotNo);
    }

    // ----- closing -----

    /** Both pins are given back and the pool is left as any other user would find it. */
    method UnpinBoth()
      requires Valid()
      modifies this`curFrame, this`headerFrame, bm.bufTable
      ensures bm.Valid() && Inv(heap) && Settled(bm.View(), filePtr, heap)
      ensures Unseen(old(bm.View()), old(Hd()), bm.View(), Closed(filePtr, headerPageNo).(hdrDirty := hdrDirtyFlag))
      ensures Shrunk(old(bm.View()), bm.View())
    {
      hide BufMgr.Linked, PoolSpec.Ok, PoolSpec.Logical, HeapSpec.Inv, HeapPool.Holding, HeapPool.Settled,
           HeapPool.Unseen, HeapPool.Quiet;
      ghost var p, hd := bm.View(), Hd();
      UnseenRefl(p, hd);
      if curFrame >= 0 {
        Release();
      }
      HeldParts(heap);
      ghost var q, hd' := bm.View(), Hd();
      CloseHeaderLaw(q, hd', heap);
      var status := bm.UnPinPage(PageId(filePtr, headerPageNo), hdrDirtyFlag);
      headerFrame := -1;
      UnseenCompose(p, hd, q, hd', bm.View(), Hd());
    }

    /** ~HeapFileScan and ~HeapFile, while the file is open as often as others says besides: the pins are given back,
        and the last close flushes the file. */
    method Close(others: nat)
      requires Valid() && filePtr != NO_PAGE.file
      requires others == 0 ==> SoleUser(bm.View(), Hd())
      modifies this`curFrame, this`headerFrame, bm.Repr()
      ensures bm.Valid() && Inv(heap) && Settled(bm.View(), filePtr, heap) && fresh(bm.Repr() - old(bm.Repr()))
      ensures Unseen(old(bm.View()), old(Hd()), bm.View(), Closed(filePtr, headerPageNo).(hdrDirty := hdrDirtyFlag))
      ensures Shrunk(old(bm.View()), bm.View())
      ensures others == 0 ==> OnDisk(bm.View(), filePtr, heap)
    {
      hide PoolSpec.Ok, HeapSpec.Inv, HeapPool.Holding, HeapPool.Settled, HeapPool.Quiet;
      hide SoleUser, Idle, OnDisk, PoolSpec.Flushed, PoolSpec.FlushStop;
      ghost var p, hd := bm.View(), Hd();
      UnpinBoth();
      ghost var q, hd' := bm.View(), Closed(filePtr, headerPageNo).(hdrDirty := hdrDirtyFlag);
      if others == 0 {
        UnseenIsQuiet(p, hd, q, hd');
        SoleUserStays(p, hd, q, hd');
        IdleIsSole(q, filePtr, headerPageNo, hdrDirtyFlag);
        LastCloseLaw(q, filePtr, heap, hd');
        var status := bm.FlushFile(filePtr);
        UnseenCompose(p, hd, q, hd', bm.View(), hd');
      }
    }

    /** ~InsertFileScan and ~HeapFile: the page of the appender counts as changed. */
    method CloseAppender(others: nat)
      requires Valid() && filePtr != NO_PAGE.file
      requires others == 0 ==> SoleUser(bm.View(), Hd())
      modifies this`curFrame, this`headerFrame, this`curDirtyFlag, bm.Repr()
      ensures bm.Valid() && Inv(heap) && Settled(bm.View(), filePtr, heap) && fresh(bm.Repr() - old(bm.Repr()))
      ensures Unseen(old(bm.View()), old(Hd()), bm.View(), Closed(filePtr, headerPageNo).(hdrDirty := hdrDirtyFlag))
      ensures Shrunk(old(bm.View()), bm.View())
      ensures others == 0 ==> OnDisk(bm.View(), filePtr, heap)
    {
      hide BufMgr.Valid, BufMgr.View, PoolSpec.Ok, HeapSpec.Inv, HeapPool.Holding, HeapPool.Quiet, HeapPool.Unseen;
      hide SoleUser, OnDisk;
      ghost var p, hd := bm.View(), Hd();
      MarkDirty(p, hd, heap);
      curDirtyFlag := true;
      Close(others);
    }
  }

  lemma HandleFile(hf: HeapFile)
    ensures hf.Hd().file == hf.filePtr
  {}

  lemma RecordRead(rest: seq<Entry>, f: Filter)
    requires NextStatus(rest, f) == OK
    ensures Skip(rest, f) != [] && Skip(rest, f)[0].rec != []
  {}

  lemma StoredIsFile(p: Pool, f: int, h: Heap)
    requires HeapPool.Stored(p, f, h)
    ensures f in p.disk.free
  {}

  /** The constructor of InsertFileScan: open a file and go to its last page. */
  method OpenAppender(bm: BufMgr, f: int, ghost h: Heap) returns (ifs: HeapFile)
    requires bm.Valid() && Inv(h) && Settled(bm.View(), f, h) && h.hdrNo == 1
    requires CanOpen(bm.View(), f, h) && Unpinned(bm.View(), f, h.chain)
    modifies bm.Repr()
    ensures fresh(ifs) && fresh(bm.Repr() - old(bm.Repr())) && ifs.Valid() && ifs.bm == bm && ifs.filePtr == f
    ensures ifs.headerPageNo == 1
    ensures ifs.heap == h && ifs.AtLast() && ifs.curFrame >= 0
    ensures Quiet(old(bm.View()), Closed(f, 1), bm.View(), ifs.Hd())
  {
    hide BufMgr.Linked, PoolSpec.Ok, HeapSpec.Inv, HeapSpec.Entries, HeapFile.Valid, HeapFile.Hd, HeapFile.Rest,
         HeapPool.Quiet, HeapPool.Unseen, HeapPool.Exclusive, HeapPool.CanOpen, Unpinned;
    ghost var p, hd := bm.View(), Closed(f, 1);
    StoredIsFile(p, f, h);
    ifs := new HeapFile(bm, f, h);
    ghost var q, hd' := bm.View(), ifs.Hd();
    UnseenIsQuiet(p, hd, q, hd');
    OpenedExclusive(p, f, q, hd', h);
    var status := ifs.MoveToLast();
    UnseenIsQuiet(q, hd', bm.View(), ifs.Hd());
    QuietCompose(p, hd, q, hd', bm.View(), ifs.Hd());
  }

  /** A heap file object is still valid after another one has worked on its own file. */
  lemma StillValid(hf: HeapFile, p: Pool, hd: Handle, hd': Handle)
    requires PoolSpec.Ok(p) && Inv(hf.heap) && hf.CursorOk() && Holding(p, hf.Hd(), hf.heap) && hf.filePtr != hd.file
    requires hf.bm.Valid() && Quiet(p, hd, hf.bm.View(), hd')
    ensures hf.Valid()
  {
    hide HeapSpec.Inv, HeapPool.Holding, HeapPool.Quiet, PoolSpec.Ok, BufMgr.Linked;
    OtherFileHolds(p, hd, hf.bm.View(), hd', hf.Hd(), hf.heap);
  }

  /** An open scan that waits while other files are worked on. */
  ghost predicate Parked(hf: HeapFile, p: Pool)
    reads hf
  {
    && Inv(hf.heap)
    && hf.CursorOk()
    && hf.curFrame >= 0
    && Holding(p, hf.Hd(), hf.heap)
    && Exclusive(p, hf.Hd(), hf.heap.chain)
  }

  lemma ParkedStays(hf: HeapFile, p: Pool, hd: Handle, q: Pool, hd': Handle)
    requires Parked(hf, p) && PoolSpec.Ok(p) && PoolSpec.Ok(q) && Quiet(p, hd, q, hd') && hf.filePtr != hd.file
    ensures Parked(hf, q)
  {
    HandleFile(hf);
    OtherFileHolds(p, hd, q, hd', hf.Hd(), hf.heap);
    OtherFileExclusive(p, hd, q, hd', hf.Hd(), hf.heap.chain);
  }

  /** A heap file that nobody is working on. */
  ghost predicate Ready(q: Pool, f: int, h: Heap) {
    Inv(h) && h.hdrNo == 1 && Settled(q, f, h) && Unpinned(q, f, h.chain)
  }

  lemma ReadyIsFile(p: Pool, f: int, h: Heap)
    requires Ready(p, f, h)
    ensures f in p.disk.free
  {
    StoredIsFile(p, f, h);
  }

  lemma ReadyStays(p: Pool, hd: Handle, q: Pool, hd': Handle, f: int, h: Heap)
    requires Ready(p, f, h) && PoolSpec.Ok(q) && Quiet(p, hd, q, hd') && f != hd.file
    ensures Ready(q, f, h)
  {
    OtherFileSettled(p, hd, q, hd', f, h);
    OtherFileUnpinned(p, hd, q, hd', f, h.chain);
  }

  /** What the first file leaves for the second. */
  lemma SecondCanOpen(p: Pool, hd: Handle, q: Pool, hd': Handle, f: int, h: Heap)
    requires PoolSpec.Ok(p) && PoolSpec.Ok(q) && Quiet(p, hd, q, hd') && hd.file != f && |q.table| == |p.table|
    requires |PinnedPages(p)| + 4 <= |p.table| && Settled(p, f, h) && Unpinned(p, f, h.chain)
    ensures CanOpen(q, f, h) && Settled(q, f, h) && Unpinned(q, f, h.chain) && f in q.disk.free
  {
    PinnedByOpen(p, hd, q, hd');
    RoomFromPins(q);
    OtherFileSettled(p, hd, q, hd', f, h);
    OtherFileUnpinned(p, hd, q, hd', f, h.chain);
    RoomCanOpen(q, f, h);
    StoredIsFile(q, f, h);
  }

  lemma FirstCanOpen(bm: BufMgr, f: int, h: Heap)
    requires bm.Valid() && |PinnedPages(bm.View())| + 2 <= bm.numBufs && Settled(bm.View(), f, h)
    ensures CanOpen(bm.View(), f, h) && |bm.View().table| == bm.numBufs
  {
    RoomFromPins(bm.View());
    RoomCanOpen(bm.View(), f, h);
  }

  /** A tuple that no page takes is never inserted; any other fails only for want of a frame. */
  lemma InsertStatusLaw(h: Heap, tuple: Record, full: bool)
    requires Inv(h)
    ensures h.pages != [] && (InsertStatus(Last(h), tuple, full) == OK ==> |tuple| <= DATA_SIZE - SLOT_SIZE)
    ensures InsertStatus(Last(h), tuple, full) != OK && |tuple| <= DATA_SIZE - SLOT_SIZE ==> full
    ensures InsertStatus(Last(h), tuple, full) in {OK, NOSPACE, BUFFEREXCEEDED}
    ensures InsertStatus(Last(h), tuple, full) == BUFFEREXCEEDED ==> full
  {
    LastFreeSpace(h);
  }

  /** insertRecord as the query operators rely on it. */
  method AppendTuple(ifs: HeapFile, tuple: Record) returns (status: Status, ghost rid: RID)
    requires ifs.Valid() && ifs.AtLast()
    modifies ifs, ifs.bm.Repr()
    ensures ifs.Valid() && ifs.AtLast() && fresh(ifs.bm.Repr() - old(ifs.bm.Repr()))
    ensures Quiet(old(ifs.bm.View()), old(ifs.Hd()), ifs.bm.View(), ifs.Hd())
    ensures if status == OK then Inserted(old(ifs.Contents()), ifs.Contents(), rid, tuple)
            else ifs.Contents() == old(ifs.Contents())
    ensures status == OK ==> |tuple| <= DATA_SIZE - SLOT_SIZE
    ensures status != OK && |tuple| <= DATA_SIZE - SLOT_SIZE ==>
      old(ifs.curFrame < 0 || PoolSpec.Exhausted(ifs.bm.View()))
    ensures old(ifs.curFrame) >= 0 ==> ifs.curFrame >= 0
    ensures status == OK || status == INVALIDRECLEN || status == NOSPACE || status == BUFFEREXCEEDED
  {
    hide BufMgr.Linked, PoolSpec.Ok, HeapSpec.Inv, HeapSpec.Entries, HeapFile.Hd, HeapFile.CursorOk, HeapFile.NoHoles,
         Inserted, InsertStatus, PoolSpec.Exhausted, HeapPool.Holding, HeapPool.Quiet;
    InsertStatusLaw(ifs.heap, tuple, Full(ifs.Loaded()));
    status, rid := ifs.InsertRecord(tuple);
  }

  /** Close a file at the end of a session that began in p. */
  method EndSession(hf: HeapFile, appender: bool, others: nat, ghost p: Pool)
    requires hf.Valid() && hf.filePtr != NO_PAGE.file
    requires Quiet(p, Closed(hf.filePtr, hf.headerPageNo), hf.bm.View(), hf.Hd())
    requires others == 0 ==> Idle(p, hf.filePtr)
    modifies hf`curFrame, hf`headerFrame, hf`curDirtyFlag, hf.bm.Repr()
    ensures hf.bm.Valid() && fresh(hf.bm.Repr() - old(hf.bm.Repr()))
    ensures Inv(hf.heap) && Settled(hf.bm.View(), hf.filePtr, hf.heap) && SamePins(p, hf.bm.View())
    ensures others == 0 ==> OnDisk(hf.bm.View(), hf.filePtr, hf.heap)
  {
    hide BufMgr.Linked, BufMgr.View, PoolSpec.Ok, HeapSpec.Inv, HeapFile.Valid, HeapFile.Hd, HeapPool.Quiet,
         HeapPool.Unseen, HeapPool.Settled, HeapPool.Idle, HeapPool.SoleUser, HeapPool.OnDisk, SamePins, Shrunk;
    ghost var start, q, hd := Closed(hf.filePtr, hf.headerPageNo), hf.bm.View(), hf.Hd();
    if others == 0 {
      IdleIsSole(p, hf.filePtr, hf.headerPageNo, false);
      SoleUserStays(p, start, q, hd);
    }
    if appender {
      hf.CloseAppender(others);
    } else {
      hf.Close(others);
    }
    CloseLaw(p, start, q, hd, hf.bm.View(), start.(hdrDirty := hf.hdrDirtyFlag));
    ClosedSamePins(p, hf.filePtr, hf.headerPageNo, hf.bm.View(), hf.hdrDirtyFlag);
  }
}
