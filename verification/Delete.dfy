/** QU_Delete (phase 6, delete.C) on the storage layers. */
module DeleteOperator {
  import opened Bytes
  import opened Statuses
  import opened DiskSpec
  import opened Clock
  import opened PoolSpec
  import opened Buffer
  import opened ScanSpec
  import opened HeapSpec
  import opened HeapPool
  import opened HeapSessions
  import opened HeapFiles

  /** One turn of the loop: find the next matching record and delete it. */
  method DeleteNext(hfs: HeapFile, ghost all: seq<Entry>) returns (status: Status)
    requires hfs.Valid() && hfs.curFrame >= 0 && Exclusive(hfs.bm.View(), hfs.Hd(), hfs.heap.chain)
    requires Sieved(all, hfs.Contents(), hfs.Rest(), hfs.filter)
    modifies hfs`curFrame, hfs`curPageNo, hfs`curDirtyFlag, hfs`hdrDirtyFlag, hfs`curRec, hfs`ci, hfs`heap
    modifies hfs.bm.Repr()
    ensures hfs.Valid() && hfs.curFrame >= 0 && fresh(hfs.bm.Repr() - old(hfs.bm.Repr()))
    ensures Quiet(old(hfs.bm.View()), old(hfs.Hd()), hfs.bm.View(), hfs.Hd())
    ensures hfs.heap.chain == old(hfs.heap).chain
    ensures status == OK ==> |hfs.Rest()| < old(|hfs.Rest()|) && Sieved(all, hfs.Contents(), hfs.Rest(), hfs.filter)
    ensures status != OK ==> hfs.Contents() == Survivors(all, hfs.filter)
  {
    hide BufMgr.Linked, PoolSpec.Ok, HeapSpec.Inv, HeapSpec.Entries, HeapFile.Valid, HeapFile.Hd, HeapFile.Rest,
         HeapFile.OnRecord, HeapFile.Current;
    hide HeapPool.Settled, HeapPool.Quiet, HeapPool.Unseen, HeapPool.Exclusive, HeapPool.CanOpen, HeapPool.Idle,
         HeapPool.SoleUser, HeapPool.OnDisk, Unpinned, SamePins;
    hide ScanSpec.Sieved, ScanSpec.NoEmpty, ScanSpec.NotMatching, ScanSpec.NextStatus, ScanSpec.NextRest, ScanSpec.Skip,
         ScanSpec.TookOut, ScanSpec.Survivors, ScanSpec.MatchRec, HeapPool.Own, PoolSpec.Pins;
    ghost var p, hd := hfs.bm.View(), hfs.Hd();
    ghost var now, rest := hfs.Contents(), hfs.Rest();
    var rid;
    status, rid := hfs.ScanNext();
    UnseenIsQuiet(p, hd, hfs.bm.View(), hfs.Hd());
    if status != OK {
      SievedEnd(all, now, rest, hfs.filter);
      return;
    }
    NextOk(rest, hfs.filter);
    var rec;
    status, rec := hfs.GetCurrent();
    ghost var q, hd' := hfs.bm.View(), hfs.Hd();
    status := hfs.DeleteRecord();
    QuietCompose(p, hd, q, hd', hfs.bm.View(), hfs.Hd());
    SievedStep(all, now, rest, hfs.filter, hfs.Contents());
  }

  /** The loop: delete until a step of the scan is not OK. */
  method DeleteMatching(hfs: HeapFile, ghost all: seq<Entry>)
    requires hfs.Valid() && hfs.curFrame >= 0 && Exclusive(hfs.bm.View(), hfs.Hd(), hfs.heap.chain)
    requires Sieved(all, hfs.Contents(), hfs.Rest(), hfs.filter)
    modifies hfs`curFrame, hfs`curPageNo, hfs`curDirtyFlag, hfs`hdrDirtyFlag, hfs`curRec, hfs`ci, hfs`heap
    modifies hfs.bm.Repr()
    ensures hfs.Valid() && hfs.curFrame >= 0 && fresh(hfs.bm.Repr() - old(hfs.bm.Repr()))
    ensures Quiet(old(hfs.bm.View()), old(hfs.Hd()), hfs.bm.View(), hfs.Hd())
    ensures hfs.heap.chain == old(hfs.heap).chain && hfs.Contents() == Survivors(all, hfs.filter)
  {
    hide BufMgr.Linked, PoolSpec.Ok, HeapSpec.Inv, HeapSpec.Entries, HeapFile.Valid, HeapFile.Hd, HeapFile.Rest,
         HeapFile.OnRecord, HeapFile.Current;
    hide HeapPool.Settled, HeapPool.Quiet, HeapPool.Unseen, HeapPool.Exclusive, HeapPool.CanOpen, HeapPool.Idle,
         HeapPool.SoleUser, HeapPool.OnDisk, Unpinned, SamePins;
    hide ScanSpec.Sieved, ScanSpec.NoEmpty, ScanSpec.NotMatching, ScanSpec.NextStatus, ScanSpec.NextRest, ScanSpec.Skip,
         ScanSpec.TookOut, ScanSpec.Survivors, ScanSpec.MatchRec, HeapPool.Own, PoolSpec.Pins;
    ghost var p0, hd0, chain := hfs.bm.View(), hfs.Hd(), hfs.heap.chain;
    QuietRefl(p0, hd0);
    var status := OK;
    while status == OK
      invariant hfs.Valid() && hfs.curFrame >= 0 && fresh(hfs.bm.Repr() - old(hfs.bm.Repr())) && hfs.heap.chain == chain
      invariant Quiet(p0, hd0, hfs.bm.View(), hfs.Hd()) && Exclusive(hfs.bm.View(), hfs.Hd(), chain)
      invariant status == OK ==> Sieved(all, hfs.Contents(), hfs.Rest(), hfs.filter)
      invariant status != OK ==> hfs.Contents() == Survivors(all, hfs.filter)
      decreases status == OK, |hfs.Rest()|
    {
      ghost var q, hd := hfs.bm.View(), hfs.Hd();
      status := DeleteNext(hfs, all);
      QuietExclusive(q, hd, hfs.bm.View(), hfs.Hd(), chain);
      QuietCompose(p0, hd0, q, hd, hfs.bm.View(), hfs.Hd());
    }
  }

  /** Open the relation and run the loop. */
  method DeleteOpen(bm: BufMgr, f: nat, ghost h: Heap, attrOffset: nat, op: Operator, value: int)
    returns (hfs: HeapFile)
    requires bm.Valid() && Inv(h) && Settled(bm.View(), f, h) && f in bm.disk.free && h.hdrNo == 1
    requires CanOpen(bm.View(), f, h) && Unpinned(bm.View(), f, h.chain)
    modifies bm.Repr()
    ensures fresh(hfs) && fresh(bm.Repr() - old(bm.Repr())) && hfs.Valid() && hfs.bm == bm
    ensures hfs.filePtr == f && hfs.headerPageNo == 1 && hfs.heap.chain == h.chain
    ensures hfs.filter == IntFilter(attrOffset, op, value)
    ensures hfs.Contents() == Survivors(Entries(h.pages), IntFilter(attrOffset, op, value))
    ensures Quiet(old(bm.View()), Closed(f, 1), bm.View(), hfs.Hd())
  {
    hide BufMgr.Linked, PoolSpec.Ok, HeapSpec.Inv, HeapSpec.Entries, HeapFile.Valid, HeapFile.Hd, HeapFile.Rest,
         HeapFile.OnRecord, HeapFile.Current;
    hide HeapPool.Settled, HeapPool.Quiet, HeapPool.Unseen, HeapPool.Exclusive, HeapPool.CanOpen, Unpinned;
    hide ScanSpec.Sieved, ScanSpec.Survivors, HeapPool.Own, PoolSpec.Pins;
    ghost var p0, hd0 := bm.View(), Closed(f, 1);
    hfs := new HeapFile(bm, f, h);
    UnseenIsQuiet(p0, hd0, bm.View(), hfs.Hd());
    OpenedExclusive(p0, f, bm.View(), hfs.Hd(), h);
    var status := hfs.StartScan(false, attrOffset, 4, op, value);
    SievedStart(Entries(h.pages), hfs.filter);
    ghost var p1, hd1 := bm.View(), hfs.Hd();
    DeleteMatching(hfs, Entries(h.pages));
    QuietCompose(p0, hd0, p1, hd1, bm.View(), hfs.Hd());
  }

  /** Scan the relation, which is open as often as others says besides, and delete every record that matches: exactly
      the matching records disappear (up to an empty record, where the scan stops), the others keep their ids, bytes
      and order, the record count is right, and no pin is left behind. */
  method QuDelete(bm: BufMgr, f: nat, others: nat, ghost h: Heap, attrOffset: nat, op: Operator, value: int)
    returns (status: Status, ghost h': Heap)
    requires bm.Valid() && Inv(h) && Settled(bm.View(), f, h) && f in bm.disk.free && h.hdrNo == 1
    requires CanOpen(bm.View(), f, h) && Unpinned(bm.View(), f, h.chain) && (others == 0 ==> Idle(bm.View(), f))
    modifies bm.Repr()
    ensures status == OK && bm.Valid() && fresh(bm.Repr() - old(bm.Repr()))
    ensures Inv(h') && Settled(bm.View(), f, h') && h'.chain == h.chain
    ensures var es, filter := Entries(h.pages), IntFilter(attrOffset, op, value);
            Entries(h'.pages) == Survivors(es, filter) && (NoEmpty(es) ==> Entries(h'.pages) == NotMatching(es, filter))
    ensures Decides(Entries(h.pages), attrOffset, op, value) ==>
              Entries(h'.pages) == Failing(Entries(h.pages), attrOffset, op, value)
    ensures SamePins(old(bm.View()), bm.View())
    ensures others == 0 ==> OnDisk(bm.View(), f, h')
  {
    hide BufMgr.Linked, PoolSpec.Ok, HeapSpec.Inv, HeapSpec.Entries, HeapFile.Valid, HeapFile.Hd, HeapFile.Rest,
         HeapFile.OnRecord, HeapFile.Current;
    hide HeapPool.Settled, HeapPool.Quiet, HeapPool.Unseen, HeapPool.Exclusive, HeapPool.CanOpen, HeapPool.Idle,
         HeapPool.SoleUser, HeapPool.OnDisk, Unpinned, SamePins;
    hide ScanSpec.Sieved, ScanSpec.NoEmpty, ScanSpec.NotMatching, ScanSpec.NextStatus, ScanSpec.NextRest, ScanSpec.Skip,
         ScanSpec.TookOut, ScanSpec.Survivors, ScanSpec.MatchRec, HeapPool.Own, PoolSpec.Pins;
    hide Decides, Failing;
    ghost var p := bm.View();
    ghost var all := Entries(h.pages);
    var hfs := DeleteOpen(bm, f, h, attrOffset, op, value);
    h' := hfs.heap;
    if NoEmpty(all) {
      SurvivorsDoNotMatch(all, hfs.filter);
    }
    if Decides(all, attrOffset, op, value) {
      SurvivorsFail(all, attrOffset, op, value);
    }
    EndSession(hfs, false, others, p);
    status := OK;
  }
}
