/** The class Page (page.h, page.C): a slotted page changed in place. */
module Pages {
  import opened Bytes
  import opened Statuses
  import opened SlottedPage

  const MAX_SLOTS: int := DATA_SIZE / SLOT_SIZE

  class Page {
    const data: array<byte>
    const slot: array<Slot>  // slot[k] is slot[-k] of the source
    var slotCnt: int         // minus the number of slots
    var freePtr: int
    var freeSpace: int
    var nextPage: int
    var curPage: int

    ghost predicate Shape()
      reads this
    {
      data.Length == DATA_SIZE && slot.Length == MAX_SLOTS && -MAX_SLOTS <= slotCnt <= 0
    }

    ghost function View(): PageImage
      reads this, data, slot
      requires Shape()
    {
      PageImage(data[..], slot[..-slotCnt], freePtr, freeSpace, nextPage, curPage)
    }

    ghost predicate Valid()
      reads this, data, slot
    {
      Shape() && SlottedPage.Valid(View())
    }

    constructor (pageNo: int)
      ensures Valid() && fresh(data) && fresh(slot)
      ensures View() == SlottedPage.Init(data[..], pageNo)
    {
      data := new byte[DATA_SIZE];
      slot := new Slot[MAX_SLOTS];
      slotCnt, freePtr, freeSpace, nextPage, curPage := 0, 0, DATA_SIZE, -1, pageNo;
    }

    method Init(pageNo: int)
      requires Shape()
      modifies this
      ensures Valid() && View() == SlottedPage.Init(old(data[..]), pageNo)
    {
      nextPage := -1;
      slotCnt := 0;
      curPage := pageNo;
      freePtr := 0;
      freeSpace := DATA_SIZE;
    }

    /** The loop that looks for an unused slot. */
    method FindSlot() returns (i: int)
      requires Valid()
      ensures slotCnt <= i <= 0 && -i == InsertSlot(View())
    {
      i := 0;
      while i > slotCnt
        invariant slotCnt <= i <= 0
        invariant FirstFree(View().slots, 0) == FirstFree(View().slots, -i)
        decreases i - slotCnt
      {
        if slot[-i].length == -1 { break; }
        i := i - 1;
      }
    }

    static lemma Patched(was: seq<byte>, now: seq<byte>, at: int, rec: Record)
      requires |was| == |now| && 0 <= at && at + |rec| <= |was|
      requires forall x :: 0 <= x < at || at + |rec| <= x < |was| ==> now[x] == was[x]
      requires forall x :: 0 <= x < |rec| ==> now[at + x] == rec[x]
      ensures now == was[..at] + rec + was[at + |rec|..]
    {
      assert now[at..at + |rec|] == rec && now[..at] == was[..at];
    }

    static lemma ClosedGap(was: seq<byte>, now: seq<byte>, off: int, len: int, end: int)
      requires |was| == |now| && 0 <= off && 0 <= len && off + len <= end <= |was|
      requires forall x :: 0 <= x < off || end - len <= x < |was| ==> now[x] == was[x]
      requires forall x :: off <= x < end - len ==> now[x] == was[x + len]
      ensures now == CloseGap(was, off, len, end)
    {}

    method CopyIn(rec: Record)
      requires 0 <= freePtr && freePtr + |rec| <= data.Length
      modifies data
      ensures data[..] == old(data[..freePtr]) + rec + old(data[freePtr + |rec|..])
    {
      ghost var was := data[..];
      for j := 0 to |rec|
        invariant forall x :: 0 <= x < freePtr || freePtr + j <= x < data.Length ==> data[x] == was[x]
        invariant forall x :: 0 <= x < j ==> data[freePtr + x] == rec[x]
      {
        data[freePtr + j] := rec[j];
      }
      Patched(was, data[..], freePtr, rec);
    }

    /** Fill slot i with a record placed at freePtr. */
    method Store(i: int, rec: Record)
      requires Shape() && slotCnt <= i <= 0 && -i < MAX_SLOTS
      requires 0 <= freePtr && freePtr + |rec| <= data.Length
      modifies this`slotCnt, this`freePtr, this`freeSpace, data, slot
      ensures Shape()
      ensures View() == Stored(old(View()), -i, rec)
    {
      var at := freePtr;
      CopyIn(rec);
      if i == slotCnt {
        freeSpace := freeSpace - (|rec| + SLOT_SIZE);
        slotCnt := slotCnt - 1;
      } else {
        freeSpace := freeSpace - |rec|;
      }
      slot[-i] := Slot(at, |rec|);
      freePtr := freePtr + |rec|;
    }

    method InsertRecord(rec: Record) returns (status: Status, rid: RID)
      requires Valid()
      modifies this`slotCnt, this`freePtr, this`freeSpace, data, slot
      ensures Valid()
      ensures status == (if Fits(old(View()), rec) then OK else NOSPACE)
      ensures status == OK ==> rid == RID(curPage, InsertSlot(old(View())))
      ensures var p := old(View());
              status == NOSPACE <==> RecordBytes(p, |p.slots|) + |rec| + 4 * (|p.slots| + 1) > 1004
      ensures status == OK ==> 0 <= rid.slotNo && !HasRec(old(View()), rid.slotNo)
      ensures status == OK ==> forall k :: 0 <= k < rid.slotNo ==> HasRec(old(View()), k)
      ensures View() == if status == OK then SlottedPage.Insert(old(View()), rec) else old(View())
    {
      hide SlotsOk, Trimmed, FirstFree, SlottedPage.Stored;
      SpaceLaw(View(), rec);
      InsertSlotIsFirst(View());
      var spaceNeeded := |rec| + SLOT_SIZE;
      if spaceNeeded > freeSpace { return NOSPACE, NULLRID; }
      InsertValid(View(), rec);
      var i := FindSlot();
      Store(i, rec);
      return OK, RID(curPage, -i);
    }

    /** bcopy the bytes after the hole to its start. */
    method CloseHole(off: int, len: int)
      requires 0 <= off && 0 <= len && off + len <= freePtr <= data.Length
      modifies data
      ensures data[..] == CloseGap(old(data[..]), off, len, freePtr)
    {
      hide CloseGap;
      ghost var was := data[..];
      var cnt := freePtr - off - len;
      for j := 0 to cnt
        invariant forall x :: 0 <= x < off || off + j <= x < data.Length ==> data[x] == was[x]
        invariant forall x :: off <= x < off + j ==> data[x] == was[x + len]
      {
        data[off + j] := data[off + len + j];
      }
      ClosedGap(was, data[..], off, len, freePtr);
    }

    /** Adjust the offsets of the slots to the right of the hole. */
    method ShiftSlots(off: int, len: int)
      requires Shape()
      modifies slot
      ensures slot[..-slotCnt] == ShiftAll(old(slot[..-slotCnt]), off, len)
    {
      var i := 0;
      while i > slotCnt
        invariant slotCnt <= i <= 0
        invariant forall k :: 0 <= k < -i ==> slot[k] == Shifted(old(slot[k]), off, len)
        invariant forall k :: -i <= k < slot.Length ==> slot[k] == old(slot[k])
        decreases i - slotCnt
      {
        if slot[-i].length >= 0 && slot[-i].offset > off {
          slot[-i] := Slot(slot[-i].offset - len, slot[-i].length);
        }
        i := i - 1;
      }
    }

    /** Give up the last slot and the unused slots before it. */
    method TrimSlots()
      requires Shape() && slotCnt < 0
      modifies this`slotCnt, this`freeSpace
      ensures Shape()
      ensures slot[..-slotCnt] == Trim(old(slot[..-slotCnt - 1]))
      ensures freeSpace == old(freeSpace) + SLOT_SIZE * (slotCnt - old(slotCnt))
    {
      slotCnt := slotCnt + 1;
      freeSpace := freeSpace + SLOT_SIZE;
      while slotCnt < 0 && slot[-(slotCnt + 1)].length == -1
        invariant old(slotCnt) < slotCnt <= 0
        invariant Trim(slot[..-slotCnt]) == Trim(old(slot[..-slotCnt - 1]))
        invariant freeSpace == old(freeSpace) + SLOT_SIZE * (slotCnt - old(slotCnt))
        decreases -slotCnt
      {
        assert slot[..-slotCnt][..-slotCnt - 1] == slot[..-slotCnt - 1];
        slotCnt := slotCnt + 1;
        freeSpace := freeSpace + SLOT_SIZE;
      }
    }

    /** Compact the data over the record of a slot and free the slot. */
    method Remove(slotNo: int)
      requires Shape() && slotCnt < slotNo <= 0
      requires var s := slot[-slotNo];
               0 <= s.offset && 0 < s.length && s.offset + s.length <= freePtr <= data.Length
      modifies this`slotCnt, this`freePtr, this`freeSpace, data, slot
      ensures Shape()
      ensures View() == Removed(old(View()), -slotNo)
    {
      hide CloseGap, ShiftAll, Trim;
      var offset, recLen := slot[-slotNo].offset, slot[-slotNo].length;
      ghost var was := View();
      CloseHole(offset, recLen);
      assert slot[..-slotCnt] == was.slots;
      ShiftSlots(offset, recLen);
      freePtr := freePtr - recLen;
      freeSpace := freeSpace + recLen;
      FreeSlot(slotNo);
      assert View().slots == Removed(was, -slotNo).slots;
    }

    /** Trim the slot array when the slot is its last, mark the slot unused otherwise. */
    method FreeSlot(slotNo: int)
      requires Shape() && slotCnt < slotNo <= 0
      modifies this`slotCnt, this`freeSpace, slot
      ensures Shape()
      ensures slot[..-slotCnt] == Freed(old(slot[..-slotCnt]), -slotNo)
      ensures freeSpace == old(freeSpace) + SLOT_SIZE * (slotCnt - old(slotCnt))
    {
      if slotNo == slotCnt + 1 {
        assert slot[..-slotCnt][..-slotNo] == slot[..-slotCnt - 1];
        TrimSlots();
      } else {
        slot[-slotNo] := FREE_SLOT;
      }
    }

    method DeleteRecord(rid: RID) returns (status: Status)
      requires Valid() && 0 <= rid.slotNo
      modifies this`slotCnt, this`freePtr, this`freeSpace, data, slot
      ensures Valid()
      ensures status == if Live(old(View()), rid.slotNo) then OK else INVALIDSLOTNO
      ensures View() == if status == OK then SlottedPage.Delete(old(View()), rid.slotNo) else old(View())
    {
      var slotNo := -rid.slotNo;
      if slotNo > slotCnt && slot[-slotNo].length > 0 {
        DeleteLaw(View(), rid.slotNo);
        assert InBounds(View().slots[rid.slotNo], freePtr);
        Remove(slotNo);
        return OK;
      }
      return INVALIDSLOTNO;
    }

    method FirstRecord() returns (status: Status, rid: RID)
      requires Valid()
      ensures var next := NextSlot(View(), -1);
              if next.Some? then status == OK && rid == RID(curPage, next.value) else status == NORECORDS
    {
      var i := 0;
      while i > slotCnt
        invariant slotCnt <= i <= 0
        invariant forall k :: 0 <= k < -i ==> !slot[k].Used()
        decreases i - slotCnt
      {
        if slot[-i].length == -1 { i := i - 1; } else { break; }
      }
      if i == slotCnt || slot[-i].length == -1 { return NORECORDS, NULLRID; }
      assert HasRec(View(), -i);
      return OK, RID(curPage, -i);
    }

    method NextRecord(curRid: RID) returns (status: Status, rid: RID)
      requires Valid() && -1 <= curRid.slotNo
      ensures var next := NextSlot(View(), curRid.slotNo);
              if next.Some? then status == OK && rid == RID(curPage, next.value) else status == ENDOFPAGE
    {
      var i := -curRid.slotNo - 1;
      while i > slotCnt
        invariant i <= -curRid.slotNo - 1
        invariant i >= slotCnt || i == -curRid.slotNo - 1
        invariant forall k :: curRid.slotNo < k < -i && k < -slotCnt ==> !slot[k].Used()
        decreases i - slotCnt
      {
        if slot[-i].length == -1 { i := i - 1; } else { break; }
      }
      if i <= slotCnt || slot[-i].length == -1 { return ENDOFPAGE, NULLRID; }
      assert HasRec(View(), -i);
      return OK, RID(curPage, -i);
    }

    method GetRecord(rid: RID) returns (status: Status, rec: Record)
      requires Valid() && 0 <= rid.slotNo
      ensures if Live(View(), rid.slotNo) then status == OK && rec == RecAt(View(), rid.slotNo)
              else status == INVALIDSLOTNO
    {
      if -rid.slotNo > slotCnt && slot[rid.slotNo].length > 0 {
        var s := slot[rid.slotNo];
        assert InBounds(View().slots[rid.slotNo], freePtr);
        return OK, data[s.offset..s.offset + s.length];
      }
      return INVALIDSLOTNO, [];
    }
  }
}
