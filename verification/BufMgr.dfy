/** The buffer manager (buf.h, buf.C) on its frame table, frames, hash index and disk. */
module Buffer {
  import opened Statuses
  import opened DiskSpec
  import opened Clock
  import opened PoolSpec
  import opened BufHash
  import opened Db

  class BufMgr {
    const numBufs: int
    var clockHand: int
    const bufTable: array<BufDesc>
    const bufPool: array<DiskPage>
    const hashTable: BufHashTbl
    const disk: DiskFiles

    ghost predicate Shape()
      reads this
    {
      && bufTable.Length == bufPool.Length == numBufs && 0 <= clockHand < numBufs
    }

    ghost function View(): Pool
      reads this, bufTable, bufPool, hashTable, disk
    {
      Pool(clockHand, bufTable[..], bufPool[..], hashTable.index, disk.View())
    }

    ghost function Repr(): set<object>
      reads hashTable
    {
      {this, bufTable, bufPool, hashTable, hashTable.ht, disk} + hashTable.buckets
    }

    /** The parts fit together, whatever the pool invariant says of their contents. */
    ghost predicate Linked()
      reads this, hashTable, hashTable.ht, hashTable.buckets, disk
    {
      Shape() && hashTable.Valid() && disk.Valid()
    }

    ghost predicate Valid()
      reads this, bufTable, bufPool, hashTable, hashTable.ht, hashTable.buckets, disk
      ensures Valid() ==> PoolSpec.Ok(View())
    {
      Linked() && PoolSpec.Ok(View())
    }

    constructor (bufs: int, disk: DiskFiles)
      requires bufs > 0 && disk.Valid()
      ensures Valid() && this.disk == disk && numBufs == bufs
      ensures fresh(Repr() - {disk})
      ensures View().index == map[] && View().disk == old(disk.View())
    {
      numBufs := bufs;
      bufTable := new BufDesc[bufs](_ => BufDesc(NO_PAGE, 0, false, false, false));
      bufPool := new DiskPage[bufs](_ => Blank);
      hashTable := new BufHashTbl(bufs * 12 / 10 + 1);
      this.disk := disk;
      clockHand := bufs - 1;
    }

    method AdvanceClock()
      requires Shape()
      modifies this`clockHand
      ensures clockHand == FrameAt(numBufs, old(clockHand), 0)
    {
      Clock.AdvanceClock(numBufs, clockHand);
      clockHand := (clockHand + 1) % numBufs;
    }

    /** The clock loop of allocBuf: look at numScanned frames, at most two rotations. */
    method Sweep() returns (found: bool, numScanned: int)
      requires Shape()
      modifies this`clockHand, bufTable
      ensures Shape()
      ensures var t, h := old(bufTable[..]), old(clockHand);
              var k := FirstCandidate(t, h, 0);
              && found == (k < 2 * numBufs && t[FrameAt(numBufs, h, k)].valid)
              && numScanned == (if k < 2 * numBufs then k + 1 else k)
              && clockHand == (if k < 2 * numBufs then FrameAt(numBufs, h, k) else h)
              && bufTable[..] == Swept(t, h, k)
    {
      ghost var t, h := bufTable[..], clockHand;
      found, numScanned := false, 0;
      while numScanned < 2 * numBufs
        invariant 0 <= numScanned <= 2 * numBufs && !found
        invariant clockHand == if numScanned == 0 then h else FrameAt(numBufs, h, numScanned - 1)
        invariant FirstCandidate(t, h, 0) == FirstCandidate(t, h, numScanned)
        invariant bufTable[..] == Swept(t, h, numScanned)
      {
        ghost var k := numScanned;
        SweepStep(t, h, k);
        AdvanceClock();
        numScanned := numScanned + 1;
        if !bufTable[clockHand].valid {
          break;
        }
        if !bufTable[clockHand].refbit {
          if bufTable[clockHand].pinCnt == 0 {
            found := true;
            break;
          }
        } else {
          bufTable[clockHand] := bufTable[clockHand].(refbit := false);
        }
      }
    }

    /** Find a frame for a new page: drop the page it held from the index and write it back if it is dirty. */
    method AllocBuf() returns (status: Status, frame: int)
      requires Valid()
      modifies Repr()
      ensures Linked() && fresh(Repr() - old(Repr()))
      ensures status == if PoolSpec.Exhausted(old(View())) then BUFFEREXCEEDED else OK
      ensures View() == if status == OK then Take(old(View())) else GiveUp(old(View()))
      ensures status == OK ==> frame == clockHand
    {
      hide BufHashTbl.Valid, DiskFiles.Valid, DiskOk, FrameOk, IndexOk, Candidate, FirstCandidate, Swept, FrameAt;
      ghost var was := View();
      if !PoolSpec.Exhausted(was) {
        VictimFree(was);
      }
      InvalidFoundEarly(was.table, was.hand);
      var found, numScanned := Sweep();
      if found {
        // the source removes the entry on leaving the loop; the entry is always there
        status := hashTable.Remove(bufTable[clockHand].id);
        assert status == OK;
      }
      if !found && numScanned >= 2 * numBufs { return BUFFEREXCEEDED, 0; }
      if bufTable[clockHand].dirty {
        disk.WritePage(bufTable[clockHand].id, bufPool[clockHand]);
      }
      return OK, clockHand;
    }

    /** Set up the frame under the hand for a page and enter it in the index. */
    method SetUp(id: PageId)
      requires Linked() && id !in hashTable.index
      modifies bufTable, hashTable, hashTable.ht
      ensures Linked() && fresh(hashTable.buckets - old(hashTable.buckets))
      ensures View() == Install(old(View()), id, old(bufPool[clockHand]))
    {
      bufTable[clockHand] := SetDesc(id);
      var status := hashTable.Insert(id, clockHand);
      assert View().frames == View().frames[clockHand := bufPool[clockHand]];
    }

    /** Pin a page that is in the pool. */
    method PinFrame(ghost id: PageId, frameNo: int)
      requires Linked() && id in hashTable.index && frameNo == hashTable.index[id] && 0 <= frameNo < numBufs
      modifies bufTable
      ensures Linked() && View() == PinAgain(old(View()), id)
    {
      bufTable[frameNo] := bufTable[frameNo].(refbit := true, pinCnt := bufTable[frameNo].pinCnt + 1);
    }

    /** Read a page into the frame under the hand. */
    method FillFrame(id: PageId) returns (status: Status)
      requires Linked() && id !in hashTable.index && id.file in disk.free
      modifies bufPool, bufTable, hashTable, hashTable.ht
      ensures Linked() && fresh(hashTable.buckets - old(hashTable.buckets))
      ensures status == ReadError(old(disk.View()), id)
      ensures View() == if status == OK then Install(old(View()), id, old(disk.pages[id])) else old(View())
    {
      var page;
      status, page := disk.ReadPage(id);
      if status == OK {
        bufPool[clockHand] := page;
        SetUp(id);
      }
    }

    /** readPage for a page that is not in the pool. */
    method ReadMiss(id: PageId) returns (status: Status, frameNo: int)
      requires Valid() && id.file in disk.free && id !in hashTable.index
      modifies Repr()
      ensures Linked() && fresh(Repr() - old(Repr()))
      ensures status == ReadStatus(old(View()), id)
      ensures View() == PoolSpec.ReadPage(old(View()), id)
      ensures status == OK ==> frameNo == clockHand
    {
      hide BufHashTbl.Valid, DiskFiles.Valid, DiskOk, FrameOk, IndexOk, Candidate, FirstCandidate, Swept, ReadError;
      ReadOkIff(View(), id);
      status, frameNo := AllocBuf();
      if status == OK {
        status := FillFrame(id);
      }
    }

    /** readPage for any page of an open file. It fails on a page that the file does not have, and by then it
        may have taken a frame from another page, whose descriptor it leaves as it was. */
    method ReadPage(id: PageId) returns (status: Status, frameNo: int)
      requires Valid() && id.file in disk.free
      modifies Repr()
      ensures Linked() && fresh(Repr() - old(Repr()))
      ensures Valid() <==> !Orphans(old(View()), id) && !ReadsFree(old(View()), id)
      ensures InUse(old(View()).disk, id) ==> Valid()
      ensures status == ReadStatus(old(View()), id)
      ensures View() == PoolSpec.ReadPage(old(View()), id)
      ensures status == OK ==> id in View().index && frameNo == View().index[id]
    {
      ReadOkIff(View(), id);
      status, frameNo := hashTable.Lookup(id);
      if status == OK {
        PinFrame(id, frameNo);
      } else {
        status, frameNo := ReadMiss(id);
      }
    }

    /** Set the dirty bit, then look at the pin count. */
    method UnPinFrame(ghost id: PageId, frameNo: int, dirty: bool) returns (status: Status)
      requires Linked() && id in hashTable.index && frameNo == hashTable.index[id] && 0 <= frameNo < numBufs
      modifies bufTable
      ensures Linked() && View() == UnPin(old(View()), id, dirty)
      ensures status == UnPinStatus(old(View()), id)
    {
      hide BufHashTbl.Valid, DiskFiles.Valid;
      if dirty {
        bufTable[frameNo] := bufTable[frameNo].(dirty := true);
      }
      if bufTable[frameNo].pinCnt == 0 { return PAGENOTPINNED; }
      bufTable[frameNo] := bufTable[frameNo].(pinCnt := bufTable[frameNo].pinCnt - 1);
      return OK;
    }

    method UnPinPage(id: PageId, dirty: bool) returns (status: Status)
      requires Valid()
      modifies bufTable
      ensures Linked() && (Valid() <==> !LosesChange(old(View()), id, dirty))
      ensures status == UnPinStatus(old(View()), id)
      ensures View() == UnPin(old(View()), id, dirty)
    {
      UnPinOkIff(View(), id, dirty);
      var frameNo;
      status, frameNo := hashTable.Lookup(id);
      if status == OK {
        status := UnPinFrame(id, frameNo, dirty);
      }
    }

    /** Put the page just allocated in the file into a frame. */
    method PlaceNewPage(id: PageId) returns (status: Status, frameNo: int)
      requires Valid() && id !in hashTable.index
      modifies Repr()
      ensures Linked() && fresh(Repr() - old(Repr()))
      ensures status == if PoolSpec.Exhausted(old(View())) then BUFFEREXCEEDED else OK
      ensures View() == if status == OK then
                          Install(Take(old(View())), id, Take(old(View())).frames[Take(old(View())).hand])
                        else GiveUp(old(View()))
      ensures status == OK ==> frameNo == clockHand
    {
      hide BufHashTbl.Valid, DiskFiles.Valid, DiskOk, FrameOk, IndexOk, Candidate, FirstCandidate, Swept;
      status, frameNo := AllocBuf();
      if status == OK {
        SetUp(id);
      }
    }

    method AllocPage(f: int) returns (status: Status, pageNo: int, frameNo: int)
      requires Valid() && f in disk.free
      modifies Repr()
      ensures Valid() && fresh(Repr() - old(Repr()))
      ensures status == if PoolSpec.Exhausted(old(View())) then BUFFEREXCEEDED else OK
      ensures HasHeader(old(View()).disk.pages, f) && pageNo == NextAlloc(old(View()).disk.pages, f)
      ensures View() == PoolSpec.AllocPage(old(View()), f)
      ensures status == OK ==> frameNo == clockHand
    {
      hide BufHashTbl.Valid, DiskOk, FileOk, FrameOk, IndexOk, Candidate, FirstCandidate, Swept, FrameAt;
      AllocOk(View(), f);
      pageNo := disk.AllocatePage(f);
      status, frameNo := PlaceNewPage(PageId(f, pageNo));
    }

    method FlushFile(f: int) returns (status: Status)
      requires Valid() && f != NO_PAGE.file
      modifies Repr()
      ensures Valid() && fresh(Repr() - old(Repr()))
      ensures var was := old(View()); var stop := FlushStop(was.table, f, 0);
              && status == (if stop < |was.table| then PAGEPINNED else OK)
              && View() == Flushed(was, f, stop)
    {
      hide BufHashTbl.Valid, DiskOk, IndexOk, DiskFiles.Valid;
      ghost var was := View();
      ghost var stop := FlushStop(was.table, f, 0);
      FlushedOk(was, f, stop);
      var i := 0;
      while i < numBufs
        invariant 0 <= i <= stop && Linked() && View() == Flushed(was, f, i)
        invariant hashTable.buckets == old(hashTable.buckets)
        decreases numBufs - i
      {
        FlushNext(was, f, i);
        if bufTable[i].valid && bufTable[i].id.file == f {
          if bufTable[i].pinCnt > 0 { return PAGEPINNED; }
          FlushOne(i);
        } else if !bufTable[i].valid && bufTable[i].id.file == f {
          assert false;
        }
        i := i + 1;
      }
      return OK;
    }

    /** Write back and drop frame i. */
    method FlushOne(i: int)
      requires Linked() && 0 <= i < numBufs
      requires bufTable[i].dirty ==> InUse(disk.View(), bufTable[i].id)
      modifies Repr()
      ensures Linked() && View() == FlushFrame(old(View()), i)
      ensures hashTable.buckets == old(hashTable.buckets)
    {
      hide BufHashTbl.Valid, DiskFiles.Valid, DiskOk;
      var id := bufTable[i].id;
      if bufTable[i].dirty {
        disk.WritePage(id, bufPool[i]);
        bufTable[i] := bufTable[i].(dirty := false);
      }
      var _ := hashTable.Remove(id);
      bufTable[i] := bufTable[i].(id := NO_PAGE, valid := false);
    }

    /** Forget the frame of a page. */
    method ForgetPage(id: PageId)
      requires Linked() && (id in hashTable.index ==> 0 <= hashTable.index[id] < numBufs)
      modifies bufTable, hashTable, hashTable.ht, hashTable.buckets
      ensures Linked() && View() == Forget(old(View()), id)
      ensures hashTable.buckets == old(hashTable.buckets)
    {
      hide BufHashTbl.Valid, DiskFiles.Valid;
      var status, frameNo := hashTable.Lookup(id);
      if status == OK {
        bufTable[frameNo] := ClearDesc(bufTable[frameNo]);
      }
      status := hashTable.Remove(id);
    }

    method DisposePage(id: PageId) returns (status: Status)
      requires Valid() && id.file in disk.free && HasHeader(disk.pages, id.file)
      modifies Repr()
      ensures Valid() <==> !DoubleFree(old(disk.View()), id)
      ensures status == if Disposable(old(disk.pages), id) then OK else BADPAGENO
      ensures View() == PoolSpec.DisposePage(old(View()), id)
    {
      hide BufHashTbl.Valid, PoolSpec.Ok, Forget, Disposable, FileOk, DiskOk;
      DisposeOkIff(View(), id);
      ghost var was := View();
      ForgetPage(id);
      status := disk.DisposePage(id);
      assert View() == PoolSpec.DisposePage(was, id);
    }

    /** ~BufMgr */
    method Shutdown()
      requires Valid()
      modifies disk
      ensures disk.Valid() && disk.View() == WrittenOut(old(View()), numBufs)
    {
      hide BufHashTbl.Valid, DiskOk, IndexOk, DiskFiles.Valid, Write;
      ghost var was := View();
      for i := 0 to numBufs
        invariant disk.Valid() && disk.View() == WrittenOut(was, i)
        invariant unchanged(this, bufTable, bufPool)
      {
        WrittenOutOk(was, i);
        assert FrameOk(was, i);
        if bufTable[i].valid && bufTable[i].dirty {
          disk.WritePage(bufTable[i].id, bufPool[i]);
        }
      }
    }

    // ----- allocBuf as written independently for phase 3 -----

    /** The clock loop of phase 3: the same frames in the same order, leaving from inside the loop. */
    method SweepPhase3() returns (status: Status)
      requires Shape()
      modifies this`clockHand, bufTable
      ensures Shape()
      ensures var t, h := old(bufTable[..]), old(clockHand);
              var k := FirstCandidate(t, h, 0);
              && status == (if k < 2 * numBufs then OK else BUFFEREXCEEDED)
              && clockHand == (if k < 2 * numBufs then FrameAt(numBufs, h, k) else h)
              && bufTable[..] == Swept(t, h, k)
    {
      ghost var t, h := bufTable[..], clockHand;
      for i := 0 to numBufs * 2
        invariant Shape()
        invariant clockHand == if i == 0 then h else FrameAt(numBufs, h, i - 1)
        invariant FirstCandidate(t, h, 0) == FirstCandidate(t, h, i)
        invariant bufTable[..] == Swept(t, h, i)
      {
        SweepStep(t, h, i);
        AdvanceClock();
        if !bufTable[clockHand].valid { return OK; }
        if bufTable[clockHand].refbit {
          bufTable[clockHand] := bufTable[clockHand].(refbit := false);
        } else if bufTable[clockHand].pinCnt == 0 {
          return OK;
        }
      }
      return BUFFEREXCEEDED;
    }

    /** Write back, clean and drop from the index the frame under the hand. */
    method ReleasePhase3()
      requires Linked()
      requires bufTable[clockHand].dirty ==> InUse(disk.View(), bufTable[clockHand].id)
      modifies Repr()
      ensures Linked() && hashTable.buckets == old(hashTable.buckets)
      ensures var was := old(View()); var d := was.table[was.hand];
              View() == Cleaned(was).(index := was.index - {d.id},
                                      disk := if d.dirty then Write(was.disk, d.id, was.frames[was.hand]) else was.disk)
    {
      hide BufHashTbl.Valid, DiskFiles.Valid, DiskOk;
      var id := bufTable[clockHand].id;
      if bufTable[clockHand].dirty {
        disk.WritePage(id, bufPool[clockHand]);
        bufTable[clockHand] := bufTable[clockHand].(dirty := false);
      }
      var removed := hashTable.Remove(id);
    }

    /** The victim, the hand and the reference bits are those of AllocBuf; phase 3 also clears the dirty
        bit of the frame it has written back. */
    method AllocBufPhase3() returns (status: Status, frame: int)
      requires Valid()
      modifies Repr()
      ensures Linked() && fresh(Repr() - old(Repr()))
      ensures status == if PoolSpec.Exhausted(old(View())) then BUFFEREXCEEDED else OK
      ensures status == OK ==> frame == clockHand
      ensures View() == if status == OK then Cleaned(Take(old(View()))) else GiveUp(old(View()))
    {
      hide BufHashTbl.Valid, DiskFiles.Valid, DiskOk, IndexOk, FrameOk, Candidate, FirstCandidate, Swept, FrameAt;
      ghost var was := View();
      if !PoolSpec.Exhausted(was) {
        VictimFree(was);
      }
      status := SweepPhase3();
      frame := clockHand;
      if status == OK && bufTable[clockHand].valid {
        ReleasePhase3();
      }
    }
  }

  lemma TableLength(bm: BufMgr)
    requires bm.Valid()
    ensures |bm.View().table| == bm.numBufs
  {}
}
