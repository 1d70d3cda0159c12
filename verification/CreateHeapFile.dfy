/** createHeapFile (heapfile.C): a new file with a header page and one empty data page. */
module HeapCreation {
  import opened Bytes
  import opened Statuses
  import opened DiskSpec
  import opened Clock
  import opened PoolSpec
  import opened Buffer
  import opened HeapSpec
  import opened HeapPool
  import opened HeapSessions
  import BufHash
  import Db
  import SlottedPage

  /** The pages in mine have been allocated since p, and the pins in extra added; nothing else has changed. */
  ghost predicate Since(p: Pool, q: Pool, mine: set<PageId>, extra: multiset<PageId>) {
    && Ok(q) && SameContent(p, q) && KeepsPinned(p, q)
    && (forall x :: InUse(q.disk, x) <==> InUse(p.disk, x) || x in mine)
    && (forall x :: x in mine ==> !InUse(p.disk, x))
    && (forall x :: Pins(q, x) == Pins(p, x) + extra[x])
  }

  lemma PinnedIsInUse(p: Pool, x: PageId)
    requires Ok(p) && Pins(p, x) > 0
    ensures InUse(p.disk, x)
  {
    CachedInUse(p, x);
  }

  /** A new file has no pages; its first page will be page 1. */
  lemma SinceCreate(p: Pool, f: int)
    requires Ok(p) && f !in p.disk.free
    ensures var q := p.(disk := Create(p.disk, f));
            && Since(p, q, {}, multiset{}) && f in q.disk.free
            && (forall x: PageId :: x.file == f ==> !InUse(q.disk, x))
            && HasHeader(q.disk.pages, f) && NextAlloc(q.disk.pages, f) == 1
  {
    CreateLaw(p.disk, f);
    MoreDiskOk(p, Create(p.disk, f));
  }

  lemma SinceAlloc(p: Pool, q: Pool, mine: set<PageId>, extra: multiset<PageId>, f: int)
    requires Ok(p) && Since(p, q, mine, extra) && f in q.disk.free
    ensures HasHeader(q.disk.pages, f)
    ensures var id, r := PageId(f, NextAlloc(q.disk.pages, f)), AllocPage(q, f);
            && Since(p, r, mine + {id}, if Exhausted(q) then extra else extra + multiset{id}) && id !in mine
            && 1 <= id.pageNo && f in r.disk.free
            && (!Exhausted(q) ==> id in r.index && r.index[id] == r.hand && 0 <= r.hand < |r.frames|)
            && (forall x :: Pins(q, x) > 0 ==> Kept(q, r, x))
  {
    hide DiskOk, FrameOk;
    AllocPageLaw(q, f);
    var id, r := PageId(f, NextAlloc(q.disk.pages, f)), AllocPage(q, f);
    forall x | Pins(p, x) > 0 ensures Kept(p, r, x) {
      assert Kept(p, q, x) && Kept(q, r, x);
    }
    assert InUse(r.disk, id);
  }

  /** Writing to a new page that is pinned. */
  lemma SincePoke(p: Pool, q: Pool, mine: set<PageId>, extra: multiset<PageId>, id: PageId, page: DiskPage)
    requires Ok(p) && Since(p, q, mine, extra) && id in mine && id in extra
    ensures id in q.index && 0 <= q.index[id] < |q.frames|
    ensures var r := Poke(q, id, page);
            && Since(p, r, mine, extra) && Logical(r, id) == page
            && (forall x :: x in mine && x != id ==> Logical(r, x) == Logical(q, x))
  {
    hide DiskOk, FrameOk;
    NewPagesUnpinned(p, q, mine, extra);
    PokeLaw(q, id, page);
    var r := Poke(q, id, page);
    forall x | Pins(p, x) > 0 ensures Kept(p, r, x) {
      PinnedIsInUse(p, x);
      assert Kept(p, q, x) && Kept(q, r, x);
    }
  }

  lemma NewPagesUnpinned(p: Pool, q: Pool, mine: set<PageId>, extra: multiset<PageId>)
    requires Ok(p) && Since(p, q, mine, extra)
    ensures forall x :: x in mine ==> Pins(q, x) == extra[x]
  {
    forall x | x in mine ensures Pins(q, x) == extra[x] {
      if x in p.index {
        CachedInUse(p, x);
      }
    }
  }

  lemma SinceUnPin(p: Pool, q: Pool, mine: set<PageId>, extra: multiset<PageId>, id: PageId)
    requires Ok(p) && Since(p, q, mine, extra) && id in mine && id in extra
    ensures UnPinStatus(q, id) == OK
    ensures var r := UnPin(q, id, true);
            Since(p, r, mine, extra - multiset{id}) && SameContent(q, r)
  {
    hide DiskOk, FrameOk;
    NewPagesUnpinned(p, q, mine, extra);
    UnPinLaw(q, id, true);
    var r := UnPin(q, id, true);
    forall x | Pins(p, x) > 0 ensures Kept(p, r, x) {
      assert Kept(p, q, x) && Kept(q, r, x);
    }
  }

  /** With its new pages unpinned nobody holds a page of the file. */
  lemma SinceIdle(p: Pool, q: Pool, mine: set<PageId>, f: int)
    requires Ok(p) && Since(p, q, mine, multiset{}) && forall x: PageId :: x.file == f && InUse(q.disk, x) ==> x in mine
    ensures Idle(q, f) && SamePins(p, q)
  {
    NewPagesUnpinned(p, q, mine, multiset{});
    forall x: PageId | x.file == f ensures Pins(q, x) == 0 {
      if x in q.index {
        CachedInUse(q, x);
      }
    }
  }

  /** While the new pages are pinned, they and the pages pinned before make up the pinned pages. */
  lemma SincePins(p: Pool, q: Pool, mine: set<PageId>)
    requires Ok(p) && Since(p, q, mine, multiset(mine))
    ensures |PinnedPages(q)| == |PinnedPages(p)| + |mine|
  {
    NewPagesUnpinned(p, q, mine, multiset(mine));
    forall x ensures x in PinnedPages(q) <==> x in PinnedPages(p) + mine {
      if x !in mine { assert Pins(p, x) == Pins(q, x); }
    }
    assert PinnedPages(q) == PinnedPages(p) + mine;
    forall x | x in mine ensures x !in PinnedPages(p) {
      if x in p.index {
        CachedInUse(p, x);
      }
    }
    assert PinnedPages(p) !! mine;
  }

  lemma FullForNew(p: Pool, q: Pool, mine: set<PageId>)
    requires Ok(p) && Since(p, q, mine, multiset(mine))
    ensures |PinnedPages(p)| + |mine| <= |q.table|
    ensures Exhausted(q) <==> |PinnedPages(p)| + |mine| == |q.table|
  {
    SincePins(p, q, mine);
    FullIffPins(q);
  }

  // ----- the steps -----

  /** db.createFile, beneath the pool. */
  method CreateFile(bm: BufMgr, f: int) returns (status: Status)
    requires bm.Valid()
    modifies bm.disk
    ensures bm.Valid()
    ensures status == if f in old(bm.disk.free) then FILEEXISTS else OK
    ensures status == FILEEXISTS ==> bm.View() == old(bm.View())
    ensures status == OK ==>
      var p, q := old(bm.View()), bm.View();
      && Since(p, q, {}, multiset{}) && f in q.disk.free && (forall x: PageId :: x.file == f ==> !InUse(q.disk, x))
      && HasHeader(q.disk.pages, f) && NextAlloc(q.disk.pages, f) == 1
  {
    hide BufHash.BufHashTbl.Valid, DiskOk, FrameOk, IndexOk;
    ghost var p := bm.View();
    status := bm.disk.Create(f);
    if status == OK {
      SinceCreate(p, f);
    }
  }

  lemma SinceOk(p: Pool, q: Pool, mine: set<PageId>, extra: multiset<PageId>)
    requires Since(p, q, mine, extra)
    ensures Ok(q)
  {}

  /** Allocate one page of the file, which already has the pages in mine. */
  method AddPageTo(bm: BufMgr, f: int, ghost p: Pool, ghost mine: set<PageId>)
    returns (status: Status, pageNo: int, frame: int)
    requires bm.Valid() && Ok(p) && Since(p, bm.View(), mine, multiset(mine)) && f in bm.disk.free
    requires forall x: PageId :: x.file == f && InUse(bm.View().disk, x) ==> x in mine
    modifies bm.Repr()
    ensures bm.Valid() && fresh(bm.Repr() - old(bm.Repr())) && f in bm.disk.free
    ensures HasHeader(old(bm.View()).disk.pages, f) && pageNo == NextAlloc(old(bm.View()).disk.pages, f)
    ensures status == if |PinnedPages(p)| + |mine| < bm.numBufs then OK else BUFFEREXCEEDED
    ensures status == OK ==>
      var id, q := PageId(f, pageNo), bm.View();
      && Since(p, q, mine + {id}, multiset(mine + {id}))
      && id in q.index && q.index[id] == frame && 0 <= frame < |q.frames|
      && (forall x: PageId :: x.file == f && InUse(q.disk, x) ==> x in mine + {id})
      && (forall x :: Pins(old(bm.View()), x) > 0 ==> Kept(old(bm.View()), q, x))
    ensures PageId(f, pageNo) !in mine && 1 <= pageNo
    ensures status != OK ==> Since(p, bm.View(), mine + {PageId(f, pageNo)}, multiset(mine))
  {
    hide BufMgr.Linked, DiskOk, FrameOk, IndexOk, PinnedPages, PoolSpec.Exhausted, Kept;
    ghost var q := bm.View();
    TableLength(bm);
    FullForNew(p, q, mine);
    AllocKeepsFile(q, f);
    SinceAlloc(p, q, mine, multiset(mine), f);
    status, pageNo, frame := bm.AllocPage(f);
    if status == OK {
      assert multiset(mine + {PageId(f, pageNo)}) == multiset(mine) + multiset{PageId(f, pageNo)};
    }
  }

  lemma AllocKeepsFile(q: Pool, f: int)
    requires Ok(q) && f in q.disk.free
    ensures f in AllocPage(q, f).disk.free
  {
    AllocPageLaw(q, f);
  }

  /** The heap file with one empty page. */
  function EmptyHeap(hdrNo: int, n: int, data: seq<byte>): (h: Heap)
    ensures h.chain == [n] && |h.pages| == 1
  {
    Heap(hdrNo, [n], [SlottedPage.Init(data, n)], n, 1, 0)
  }

  lemma EmptyHeapOk(hdrNo: int, n: int, data: seq<byte>)
    requires 1 <= hdrNo && 1 <= n && hdrNo != n && |data| == SlottedPage.DATA_SIZE
    ensures Inv(EmptyHeap(hdrNo, n, data)) && Entries(EmptyHeap(hdrNo, n, data).pages) == []
  {
    SlottedPage.InitValid(data, n);
    var pages := EmptyHeap(hdrNo, n, data).pages;
    assert FromSlot(pages[0], 0) == [] && pages[1..] == [];
  }

  /** The file is complete on disk, in no frame, and in the state every user of a heap file expects. */
  ghost predicate Created(q: Pool, f: int, h: Heap) {
    && Inv(h) && Entries(h.pages) == [] && h.hdrNo == 1 && |h.chain| == |h.pages| == 1 && Settled(q, f, h)
    && OnDisk(q, f, h)
  }

  lemma FlushedIsCreated(p: Pool, q: Pool, f: int, n: int, data: seq<byte>)
    requires 1 <= n && n != 1 && |data| == SlottedPage.DATA_SIZE && Ok(p)
    requires Since(p, q, {PageId(f, 1), PageId(f, n)}, multiset{})
    requires forall x: PageId :: x.file == f && InUse(q.disk, x) ==> x in {PageId(f, 1), PageId(f, n)}
    requires var h := EmptyHeap(1, n, data);
             Logical(q, PageId(f, 1)) == Header(h) && Logical(q, PageId(f, n)) == DataPage(h.pages[0])
    ensures FlushStop(q.table, f, 0) == |q.table|
    ensures var r := Flushed(q, f, |q.table|);
            Created(r, f, EmptyHeap(1, n, data)) && SameContent(p, r) && SamePins(p, r)
  {
    var h := EmptyHeap(1, n, data);
    EmptyHeapOk(1, n, data);
    SinceIdle(p, q, {PageId(f, 1), PageId(f, n)}, f);
    NewIsSettled(q, f, h);
    hide Ok, InUse, Settled, OnDisk, Idle, FlushStop, Flushed, Since;
    LastCloseLaw(q, f, h, Closed(f, 1));
    SamePinsStill(p, q, f, {PageId(f, 1), PageId(f, n)});
  }

  lemma NewIsSettled(q: Pool, f: int, h: Heap)
    requires Ok(q) && Idle(q, f) && |h.chain| == |h.pages| == 1
    requires Has(q, PageId(f, h.hdrNo), Header(h)) && Has(q, PageId(f, h.chain[0]), DataPage(h.pages[0]))
    ensures Settled(q, f, h)
  {
    hide Ok, Owes, Pins, Logical;
    assert Pins(q, PageId(f, h.hdrNo)) == 0 && Pins(q, PageId(f, h.chain[0])) == 0;
    UnpinnedOwesNothing(q, PageId(f, h.hdrNo));
    UnpinnedOwesNothing(q, PageId(f, h.chain[0]));
  }

  lemma SamePinsStill(p: Pool, q: Pool, f: int, mine: set<PageId>)
    requires Ok(p) && Since(p, q, mine, multiset{}) && SamePins(p, q) && FlushStop(q.table, f, 0) == |q.table|
    ensures var r := Flushed(q, f, |q.table|); SameContent(p, r) && SamePins(p, r)
  {
    FlushedLaw(q, f, |q.table|);
  }

  /** Initialize both pages in their frames, give them back and flush the file. */
  method FinishFile(bm: BufMgr, f: int, ghost p: Pool, n: int, hdrFrame: int, frame: int)
    returns (status: Status, ghost h: Heap)
    requires bm.Valid() && Ok(p) && 1 <= n && n != 1 && f != NO_PAGE.file
    requires var hdr, data, q := PageId(f, 1), PageId(f, n), bm.View();
             && Since(p, q, {hdr, data}, multiset{hdr, data})
             && hdr in q.index && data in q.index && q.index[hdr] == hdrFrame && q.index[data] == frame
             && 0 <= hdrFrame < |q.frames| && 0 <= frame < |q.frames|
             && (forall x: PageId :: x.file == f && InUse(q.disk, x) ==> x in {hdr, data})
    modifies bm.Repr()
    ensures bm.Valid() && status == OK && fresh(bm.Repr() - old(bm.Repr()))
    ensures Created(bm.View(), f, h) && SameContent(p, bm.View()) && SamePins(p, bm.View())
  {
    hide BufHash.BufHashTbl.Valid, Db.DiskFiles.Valid, DiskOk, FrameOk, IndexOk, PoolSpec.Ok, Since, SameContent,
         Logical, Created, SamePins, SlottedPage.Init;
    ghost var hdr, data := PageId(f, 1), PageId(f, n);
    ghost var mine, both := {hdr, data}, multiset{hdr, data};
    ghost var q := bm.View();
    ghost var bytes := RawData(bm.bufPool[frame]);
    h := EmptyHeap(1, n, bytes);
    SincePoke(p, q, mine, both, data, DataPage(h.pages[0]));
    bm.bufPool[frame] := DataPage(SlottedPage.Init(RawData(bm.bufPool[frame]), n));
    ghost var r := bm.View();
    assert r == Poke(q, data, DataPage(h.pages[0]));
    SincePoke(p, r, mine, both, hdr, Header(h));
    bm.bufPool[hdrFrame] := HeapHeader(n, n, 1, 0);
    ghost var s := bm.View();
    assert s == Poke(r, hdr, Header(h));
    SinceOk(p, s, mine, both);
    SinceUnPin(p, s, mine, both, data);
    status := bm.UnPinPage(PageId(f, n), true);
    ghost var t := bm.View();
    assert both - multiset{data} == multiset{hdr};
    SinceUnPin(p, t, mine, multiset{hdr}, hdr);
    status := bm.UnPinPage(PageId(f, 1), true);
    assert multiset{hdr} - multiset{hdr} == multiset{};
    StillThere(s, t, bm.View(), mine, p, hdr, data);
    SameUse(p, q, s, bm.View(), mine, both);
    FlushedIsCreated(p, bm.View(), f, n, bytes);
    status := bm.FlushFile(f);
  }

  lemma StillThere(s: Pool, t: Pool, u: Pool, mine: set<PageId>, p: Pool, hdr: PageId, data: PageId)
    requires Since(p, s, mine, multiset{hdr, data}) && SameContent(s, t) && SameContent(t, u) && mine == {hdr, data}
    ensures Logical(u, hdr) == Logical(s, hdr) && Logical(u, data) == Logical(s, data)
  {
    assert InUse(s.disk, hdr) && InUse(s.disk, data);
  }

  lemma SameUse(p: Pool, q: Pool, s: Pool, u: Pool, mine: set<PageId>, both: multiset<PageId>)
    requires Since(p, q, mine, both) && Since(p, u, mine, multiset{})
    ensures forall x :: InUse(u.disk, x) <==> InUse(q.disk, x)
  {}

  /** What a creation that runs out of frames leaves behind: the page that found no frame is allocated all the same,
      and if it was the data page, the header page stays pinned. */
  ghost predicate Abandoned(p: Pool, q: Pool, f: int) {
    if |PinnedPages(p)| == |p.table| then Since(p, q, {PageId(f, 1)}, multiset{})
    else exists n :: n != 1 && Since(p, q, {PageId(f, 1), PageId(f, n)}, multiset{PageId(f, 1)})
  }

  lemma AbandonedHeader(p: Pool, q: Pool, f: int, n: int)
    requires |PinnedPages(p)| != |p.table| && n != 1
    requires Since(p, q, {PageId(f, 1), PageId(f, n)}, multiset{PageId(f, 1)})
    ensures Abandoned(p, q, f)
  {}

  /** Allocate the header page and the data page. */
  method AddPages(bm: BufMgr, f: int, ghost p: Pool) returns (status: Status, n: int, hdrFrame: int, frame: int)
    requires bm.Valid() && Ok(p) && Since(p, bm.View(), {}, multiset{}) && f in bm.disk.free && |p.table| == bm.numBufs
    requires forall x: PageId :: x.file == f ==> !InUse(bm.View().disk, x)
    requires HasHeader(bm.View().disk.pages, f) && NextAlloc(bm.View().disk.pages, f) == 1
    modifies bm.Repr()
    ensures bm.Valid() && fresh(bm.Repr() - old(bm.Repr())) && f in bm.disk.free
    ensures status == if |PinnedPages(p)| + 2 > bm.numBufs then BUFFEREXCEEDED else OK
    ensures status != OK ==> Abandoned(p, bm.View(), f)
    ensures status == OK ==>
      var hdr, data, q := PageId(f, 1), PageId(f, n), bm.View();
      && 1 <= n && n != 1 && Since(p, q, {hdr, data}, multiset{hdr, data})
      && hdr in q.index && data in q.index && q.index[hdr] == hdrFrame && q.index[data] == frame
      && 0 <= hdrFrame < |q.frames| && 0 <= frame < |q.frames|
      && (forall x: PageId :: x.file == f && InUse(q.disk, x) ==> x in {hdr, data})
  {
    hide BufMgr.Linked, BufMgr.View, PoolSpec.Ok, Since, PinnedPages, Kept, InUse;
    PinsFit(p);
    ghost var hdr, none: set<PageId> := PageId(f, 1), {};
    assert multiset(none) == multiset{} && none + {hdr} == {hdr} && multiset({hdr}) == multiset{hdr};
    var hdrPageNo;
    n, frame := 0, 0;
    status, hdrPageNo, hdrFrame := AddPageTo(bm, f, p, none);
    if status != OK { return; }
    ghost var q := bm.View();
    NewPagesUnpinned(p, q, {hdr}, multiset({hdr}));
    status, n, frame := AddPageTo(bm, f, p, {hdr});
    ghost var data := PageId(f, n);
    assert {hdr} + {data} == {hdr, data} && multiset({hdr, data}) == multiset{hdr, data};
    if status != OK {
      AbandonedHeader(p, bm.View(), f, n);
      return;
    }
    HeaderKept(q, bm.View(), hdr);
  }

  /** Create a heap file: if the name is new and exactly if two frames can be had, the file ends up complete on disk
      with no records, and nothing else has changed. When the pool gives out on the way the file stays behind, and
      a second attempt finds that it exists. Every failure leaves the file open: opens counts how often
      more than before. */
  method CreateHeapFile(bm: BufMgr, f: int) returns (status: Status, opens: nat, ghost h: Heap)
    requires bm.Valid() && f != NO_PAGE.file
    modifies bm.Repr()
    ensures bm.Valid() && fresh(bm.Repr() - old(bm.Repr()))
    ensures status == if f in old(bm.disk.free) then FILEEXISTS
                      else if old(|PinnedPages(bm.View())|) + 2 > bm.numBufs then BUFFEREXCEEDED else OK
    ensures opens == if status == OK then 0 else 1
    ensures status == OK ==>
      Created(bm.View(), f, h) && SameContent(old(bm.View()), bm.View()) && SamePins(old(bm.View()), bm.View())
    ensures status == FILEEXISTS ==> bm.View() == old(bm.View())
    ensures status == BUFFEREXCEEDED ==> Abandoned(old(bm.View()), bm.View(), f)
    ensures f in bm.disk.free
  {
    hide BufMgr.Linked, PoolSpec.Ok, Since, SameContent, Created, SamePins, PinnedPages, Kept, InUse;
    ghost var p := bm.View();
    TableLength(bm);
    h := EmptyHeap(1, 2, seq(SlottedPage.DATA_SIZE, _ => 0));
    status := CreateFile(bm, f);
    opens := 1;
    if status != OK { return; }
    var newPageNo, hdrFrame, frame;
    status, newPageNo, hdrFrame, frame := AddPages(bm, f, p);
    if status != OK { return; }
    status, h := FinishFile(bm, f, p, newPageNo, hdrFrame, frame);
    CreatedIsFile(bm.View(), f, h);
    opens := 0;
  }

  lemma PinsFit(p: Pool)
    requires Ok(p)
    ensures |PinnedPages(p)| <= |p.table|
  {
    FullIffPins(p);
  }

  lemma CreatedIsFile(q: Pool, f: int, h: Heap)
    requires Created(q, f, h)
    ensures f in q.disk.free
  {}

  lemma HeaderKept(q: Pool, r: Pool, hdr: PageId)
    requires Kept(q, r, hdr)
    ensures hdr in q.index && hdr in r.index && r.index[hdr] == q.index[hdr] && 0 <= r.index[hdr] < |r.frames|
  {}
}
