/** Heap files in the buffer pool: which pages an open heap file object holds, and what the pool operations
    it issues leave alone. */
module HeapPool {
  import opened Bytes
  import opened Statuses
  import opened SlottedPage
  import opened DiskSpec
  import opened Clock
  import opened PoolSpec
  import opened ScanSpec
  import opened HeapSpec

  /** The page bookkeeping of a HeapFile object; hdrFrame and curFrame are -1 while there is
      no such page, and without a current page nothing else about it matters. */
  datatype Handle = Handle(file: int, hdrNo: int, hdrFrame: int, hdrDirty: bool, curNo: int, curFrame: int,
                           curDirty: bool) {
    function HdrId(): PageId { PageId(file, hdrNo) }
    function CurId(): PageId { PageId(file, curNo) }
    predicate HasHdr() { hdrFrame >= 0 }
    predicate HasCur() { curFrame >= 0 }
  }

  ghost predicate Has(p: Pool, id: PageId, page: DiskPage) {
    InUse(p.disk, id) && Logical(p, id) == page
  }

  function Header(h: Heap): DiskPage
    requires h.chain != []
  {
    HeapHeader(h.chain[0], h.lastNo, h.pageCnt, h.recCnt)
  }

  /** The pool and the disk together contain the heap file h under file number f. */
  ghost predicate Stored(p: Pool, f: int, h: Heap) {
    && h.chain != [] && |h.chain| == |h.pages|
    && Has(p, PageId(f, h.hdrNo), Header(h))
    && forall i :: 0 <= i < |h.chain| ==> Has(p, PageId(f, h.chain[i]), DataPage(h.pages[i]))
  }

  /** A pinned page in a known frame, whose changes the holder remembers in its dirty flag. */
  ghost predicate Grip(p: Pool, id: PageId, frame: int, dirty: bool) {
    && Pins(p, id) > 0 && id in p.index && p.index[id] == frame && 0 <= frame < |p.frames|
    && (!dirty ==> !Owes(p, id))
  }

  /** No page of the file but the current one has unrecorded changes. */
  ghost predicate NoDebts(p: Pool, hd: Handle, chain: seq<int>) {
    forall i :: 0 <= i < |chain| && !(hd.HasCur() && chain[i] == hd.curNo) ==> !Owes(p, PageId(hd.file, chain[i]))
  }

  /** The invariant of an open heap file: exactly its header page and its current page are gripped. */
  ghost predicate Holding(p: Pool, hd: Handle, h: Heap) {
    && Stored(p, hd.file, h) && hd.hdrNo == h.hdrNo
    && Grip(p, hd.HdrId(), hd.hdrFrame, hd.hdrDirty)
    && (hd.HasCur() ==> hd.curNo in h.chain && Grip(p, hd.CurId(), hd.curFrame, hd.curDirty))
    && NoDebts(p, hd, h.chain)
  }

  /** The pins an open heap file has on a page. */
  function Own(hd: Handle, id: PageId): int {
    (if hd.HasHdr() && id == hd.HdrId() then 1 else 0) + (if hd.HasCur() && id == hd.CurId() then 1 else 0)
  }

  /** Going from p to q, a heap file object has changed no pin but its own, no content of another file,
      and has not disturbed a pinned page of another file. */
  ghost predicate Quiet(p: Pool, hd: Handle, q: Pool, hd': Handle) {
    && hd'.file == hd.file && hd'.hdrNo == hd.hdrNo
    && (forall id :: Pins(q, id) - Own(hd', id) == Pins(p, id) - Own(hd, id))
    && (forall id: PageId, page :: id.file != hd.file && Has(p, id, page) ==> Has(q, id, page))
    && (forall id: PageId :: id.file != hd.file && Pins(p, id) > 0 ==> Kept(p, q, id))
  }

  lemma QuietCompose(p: Pool, a: Handle, q: Pool, b: Handle, r: Pool, c: Handle)
    requires Quiet(p, a, q, b) && Quiet(q, b, r, c)
    ensures Quiet(p, a, r, c)
  {
    forall id: PageId | id.file != a.file
      ensures Pins(p, id) > 0 ==> Kept(p, r, id)
    {
      assert Pins(q, id) - Own(b, id) == Pins(p, id) - Own(a, id);
    }
  }

  /** A heap file object has read: besides being quiet it has changed no content at all. */
  ghost predicate Unseen(p: Pool, hd: Handle, q: Pool, hd': Handle) {
    SameContent(p, q) && Quiet(p, hd, q, hd')
  }

  lemma QuietRefl(p: Pool, hd: Handle)
    requires Ok(p)
    ensures Quiet(p, hd, p, hd)
  {
    UnseenRefl(p, hd);
  }

  lemma UnseenRefl(p: Pool, hd: Handle)
    requires Ok(p)
    ensures Unseen(p, hd, p, hd)
  {
    forall id | Pins(p, id) > 0 ensures Kept(p, p, id) {}
  }

  lemma UnseenCompose(p: Pool, a: Handle, q: Pool, b: Handle, r: Pool, c: Handle)
    requires Unseen(p, a, q, b) && Unseen(q, b, r, c)
    ensures Unseen(p, a, r, c)
  {
    QuietCompose(p, a, q, b, r, c);
  }

  lemma UnseenIsQuiet(p: Pool, hd: Handle, q: Pool, hd': Handle)
    requires Unseen(p, hd, q, hd')
    ensures Quiet(p, hd, q, hd')
  {}

  lemma UnseenExclusive(p: Pool, hd: Handle, q: Pool, hd': Handle, chain: seq<int>)
    requires Unseen(p, hd, q, hd') && Exclusive(p, hd, chain)
    ensures Exclusive(q, hd', chain)
  {
    QuietExclusive(p, hd, q, hd', chain);
  }

  lemma UnpinnedOwesNothing(p: Pool, id: PageId)
    requires Ok(p) && Pins(p, id) <= 0
    ensures !Owes(p, id)
  {
    if id in p.index {
      assert FrameOk(p, p.index[id]);
    }
  }

  lemma OtherFileDebts(p: Pool, hd: Handle, q: Pool, hd': Handle, other: Handle, chain: seq<int>)
    requires Ok(q) && Quiet(p, hd, q, hd') && other.file != hd.file && NoDebts(p, other, chain)
    ensures NoDebts(q, other, chain)
  {
    forall i | 0 <= i < |chain| && !Owes(p, PageId(other.file, chain[i]))
      ensures !Owes(q, PageId(other.file, chain[i]))
    {
      var id := PageId(other.file, chain[i]);
      assert Pins(q, id) - Own(hd', id) == Pins(p, id) - Own(hd, id);
      if Pins(q, id) <= 0 {
        UnpinnedOwesNothing(q, id);
      } else {
        assert Kept(p, q, id);
      }
    }
  }

  /** A heap file on another file does not notice. */
  lemma OtherFileHolds(p: Pool, hd: Handle, q: Pool, hd': Handle, other: Handle, h: Heap)
    requires Ok(p) && Ok(q) && Quiet(p, hd, q, hd') && other.file != hd.file && Holding(p, other, h)
    ensures Holding(q, other, h)
  {
    OtherFileGrip(p, hd, q, hd', other.HdrId(), other.hdrFrame, other.hdrDirty);
    if other.HasCur() {
      OtherFileGrip(p, hd, q, hd', other.CurId(), other.curFrame, other.curDirty);
    }
    OtherFileDebts(p, hd, q, hd', other, h.chain);
    assert Stored(q, other.file, h);
  }

  lemma OtherFileGrip(p: Pool, hd: Handle, q: Pool, hd': Handle, id: PageId, frame: int, dirty: bool)
    requires Quiet(p, hd, q, hd') && id.file != hd.file && Grip(p, id, frame, dirty)
    ensures Grip(q, id, frame, dirty)
  {
    assert Pins(q, id) - Own(hd', id) == Pins(p, id) - Own(hd, id);
    assert Kept(p, q, id);
  }

  lemma StoredSame(p: Pool, q: Pool, f: int, h: Heap)
    requires Ok(p) && Ok(q) && SameContent(p, q) && Stored(p, f, h)
    ensures Stored(q, f, h)
  {}

  /** Nobody else has a data page of the file pinned. */
  ghost predicate Exclusive(p: Pool, hd: Handle, chain: seq<int>) {
    forall i :: 0 <= i < |chain| ==> Pins(p, PageId(hd.file, chain[i])) == Own(hd, PageId(hd.file, chain[i]))
  }

  // ----- letting go of the current page -----

  function Released(hd: Handle): Handle {
    hd.(curNo := -1, curFrame := -1, curDirty := false)
  }

  lemma UnPinOwes(p: Pool, id: PageId, dirty: bool, x: PageId)
    requires Ok(p) && Pins(p, id) > 0 && (!dirty ==> !Owes(p, id)) && (x != id ==> !Owes(p, x))
    ensures !Owes(UnPin(p, id, dirty), x)
  {
    UnPinLaw(p, id, dirty);
    if Pins(p, x) > 0 {
      assert Kept(p, UnPin(p, id, dirty), x);
    } else {
      UnpinnedOwesNothing(UnPin(p, id, dirty), x);
    }
  }

  lemma UnPinGrip(p: Pool, id: PageId, dirty: bool, x: PageId, frame: int, d: bool)
    requires Ok(p) && Pins(p, id) > 0 && (!dirty ==> !Owes(p, id)) && x != id && Grip(p, x, frame, d)
    ensures Grip(UnPin(p, id, dirty), x, frame, d)
  {
    UnPinLaw(p, id, dirty);
    assert Kept(p, UnPin(p, id, dirty), x);
  }

  lemma UnPinQuiet(p: Pool, hd: Handle)
    requires Ok(p) && hd.HasCur() && Grip(p, hd.CurId(), hd.curFrame, hd.curDirty)
    ensures var q, hd' := UnPin(p, hd.CurId(), hd.curDirty), Released(hd);
            Ok(q) && SameContent(p, q) && Quiet(p, hd, q, hd')
  {
    UnPinLaw(p, hd.CurId(), hd.curDirty);
  }

  lemma ReleaseLaw(p: Pool, hd: Handle, h: Heap)
    requires Ok(p) && h.hdrNo !in h.chain && Holding(p, hd, h) && hd.HasCur()
    ensures UnPinStatus(p, hd.CurId()) == OK
    ensures Pins(p, hd.CurId()) == 1 && !hd.curDirty ==> !Owes(p, hd.CurId())
    ensures var q, hd' := UnPin(p, hd.CurId(), hd.curDirty), Released(hd);
            && Ok(q) && Unseen(p, hd, q, hd') && Holding(q, hd', h)
            && (Exclusive(p, hd, h.chain) ==> Exclusive(q, hd', h.chain) && !Exhausted(q))
  {
    var id := hd.CurId();
    var q := UnPin(p, id, hd.curDirty);
    UnPinQuiet(p, hd);
    StoredSame(p, q, hd.file, h);
    UnPinGrip(p, id, hd.curDirty, hd.HdrId(), hd.hdrFrame, hd.hdrDirty);
    forall j | 0 <= j < |h.chain|
      ensures !Owes(q, PageId(hd.file, h.chain[j]))
    {
      UnPinOwes(p, id, hd.curDirty, PageId(hd.file, h.chain[j]));
    }
    if Exclusive(p, hd, h.chain) {
      var i :| 0 <= i < |h.chain| && h.chain[i] == hd.curNo;
      assert Pins(p, PageId(hd.file, h.chain[i])) == 1;
      ReleaseFrees(p, id, hd.curDirty);
      QuietExclusive(p, hd, q, Released(hd), h.chain);
    }
  }

  lemma QuietExclusive(p: Pool, hd: Handle, q: Pool, hd': Handle, chain: seq<int>)
    requires Quiet(p, hd, q, hd') && Exclusive(p, hd, chain)
    ensures Exclusive(q, hd', chain)
  {
    forall i | 0 <= i < |chain|
      ensures Pins(q, PageId(hd.file, chain[i])) == Own(hd', PageId(hd.file, chain[i]))
    {
      var id := PageId(hd.file, chain[i]);
      assert Pins(q, id) - Own(hd', id) == Pins(p, id) - Own(hd, id);
    }
  }

  // ----- pinning a page of the chain -----

  function Acquired(hd: Handle, n: int, frame: int): Handle {
    hd.(curNo := n, curFrame := frame, curDirty := false)
  }

  lemma ReadOwes(p: Pool, id: PageId, x: PageId)
    requires Ok(p) && InUse(p.disk, id) && !Owes(p, x)
    ensures !Owes(ReadPage(p, id), x)
  {
    ReadLaw(p, id);
    if Pins(p, x) > 0 {
      assert Kept(p, ReadPage(p, id), x);
    } else if x != id {
      UnpinnedOwesNothing(ReadPage(p, id), x);
    }
  }

  lemma ReadGrip(p: Pool, id: PageId, x: PageId, frame: int, dirty: bool)
    requires Ok(p) && InUse(p.disk, id) && Grip(p, x, frame, dirty)
    ensures Grip(ReadPage(p, id), x, frame, dirty)
  {
    ReadLaw(p, id);
    assert Kept(p, ReadPage(p, id), x);
  }

  lemma ReadQuiet(p: Pool, hd: Handle, n: int)
    requires Ok(p) && !hd.HasCur() && InUse(p.disk, PageId(hd.file, n))
    ensures var id := PageId(hd.file, n);
            var q := ReadPage(p, id);
            Ok(q) && SameContent(p, q) && Quiet(p, hd, q, AfterRead(p, hd, n))
  {
    hide DiskOk, FrameOk;
    var id := PageId(hd.file, n);
    ReadLaw(p, id);
    var q := ReadPage(p, id);
    forall x, page | Has(p, x, page) ensures Has(q, x, page) {}
    if ReadStatus(p, id) == OK {
      assert IndexOk(q);
    }
  }

  /** The handle after page n of its file has been asked for. */
  ghost function AfterRead(p: Pool, hd: Handle, n: int): Handle
    requires Ok(p) && InUse(p.disk, PageId(hd.file, n))
  {
    var id := PageId(hd.file, n);
    var q := ReadPage(p, id);
    if ReadStatus(p, id) == OK && id in q.index then Acquired(hd, n, q.index[id]) else hd
  }

  lemma AfterReadIs(p: Pool, hd: Handle, n: int)
    requires Ok(p) && InUse(p.disk, PageId(hd.file, n))
    ensures 0 <= p.hand < |p.table| && ReadStatus(p, PageId(hd.file, n)) in {OK, BUFFEREXCEEDED}
    ensures var id, q := PageId(hd.file, n), ReadPage(p, PageId(hd.file, n));
            if ReadStatus(p, id) == OK then id in q.index && AfterRead(p, hd, n) == Acquired(hd, n, q.index[id])
            else AfterRead(p, hd, n) == hd
  {
    ReadLaw(p, PageId(hd.file, n));
  }

  lemma AcquireLaw(p: Pool, hd: Handle, h: Heap, i: nat)
    requires Ok(p) && Inv(h) && Holding(p, hd, h) && !hd.HasCur() && i < |h.chain|
    ensures var id := PageId(hd.file, h.chain[i]);
            && InUse(p.disk, id)
            && var q, hd' := ReadPage(p, id), AfterRead(p, hd, h.chain[i]);
            && Ok(q) && Unseen(p, hd, q, hd') && Holding(q, hd', h)
            && (hd'.HasCur() <==> ReadStatus(p, id) == OK)
  {
    var id := PageId(hd.file, h.chain[i]);
    assert Has(p, id, DataPage(h.pages[i]));
    ReadQuiet(p, hd, h.chain[i]);
    var q := ReadPage(p, id);
    StoredSame(p, q, hd.file, h);
    ReadGrip(p, id, hd.HdrId(), hd.hdrFrame, hd.hdrDirty);
    forall j | 0 <= j < |h.chain|
      ensures !Owes(q, PageId(hd.file, h.chain[j]))
    {
      ReadOwes(p, id, PageId(hd.file, h.chain[j]));
    }
    if ReadStatus(p, id) == OK {
      ReadGripNew(p, id);
    }
  }

  lemma ReadGripNew(p: Pool, id: PageId)
    requires Ok(p) && InUse(p.disk, id) && ReadStatus(p, id) == OK && !Owes(p, id)
    ensures var q := ReadPage(p, id); id in q.index && Grip(q, id, q.index[id], false)
  {
    ReadLaw(p, id);
    ReadOwes(p, id, id);
    assert FrameOk(ReadPage(p, id), ReadPage(p, id).index[id]);
    if id in p.index {
      assert FrameOk(p, p.index[id]);
    }
  }

  /** An unpinned frame is enough for the clock. */
  lemma AvailableFrame(p: Pool, i: int)
    requires Ok(p) && 0 <= i < |p.table| && Available(p.table[i])
    ensures !Exhausted(p)
  {
    NoCandidateIffAllPinned(p.table, p.hand);
  }

  /** What the frames of an open heap file hold. */
  lemma FrameContents(p: Pool, hd: Handle, h: Heap, i: nat)
    requires Holding(p, hd, h) && -1 <= hd.curFrame && i < |h.chain| && (hd.HasCur() ==> hd.curNo == h.chain[i])
    ensures |h.chain| == |h.pages| && 0 <= hd.hdrFrame < |p.frames| && hd.curFrame < |p.frames|
    ensures p.frames[hd.hdrFrame] == Header(h)
    ensures hd.HasCur() ==> p.frames[hd.curFrame] == DataPage(h.pages[i])
  {
    assert Has(p, PageId(hd.file, h.chain[i]), DataPage(h.pages[i]));
  }

  /** When nobody else has the current page pinned, letting go of it makes room for another page. */
  lemma ReleaseFrees(p: Pool, id: PageId, dirty: bool)
    requires Ok(p) && Pins(p, id) == 1 && (!dirty ==> !Owes(p, id))
    ensures Ok(UnPin(p, id, dirty)) && !Exhausted(UnPin(p, id, dirty))
  {
    UnPinLaw(p, id, dirty);
    AvailableFrame(UnPin(p, id, dirty), p.index[id]);
  }

  // ----- opening and closing -----

  /** A heap file object before it has pinned anything. */
  function Closed(f: int, hdrNo: int): Handle {
    Handle(f, hdrNo, -1, false, -1, -1, false)
  }

  /** A heap file that nobody is changing. */
  ghost predicate Settled(p: Pool, f: int, h: Heap) {
    && Stored(p, f, h) && !Owes(p, PageId(f, h.hdrNo))
    && forall i :: 0 <= i < |h.chain| ==> !Owes(p, PageId(f, h.chain[i]))
  }

  /** Both pages that the constructor reads, the header page and the first data page, can be had. */
  ghost predicate CanOpen(p: Pool, f: int, h: Heap)
    requires Ok(p)
  {
    && h.chain != [] && InUse(p.disk, PageId(f, h.hdrNo)) && ReadStatus(p, PageId(f, h.hdrNo)) == OK
    && var q := ReadPage(p, PageId(f, h.hdrNo)); Ok(q) && ReadStatus(q, PageId(f, h.chain[0])) == OK
  }

  lemma OpenHeaderLaw(p: Pool, f: int, h: Heap)
    requires Ok(p) && Inv(h) && Settled(p, f, h) && CanOpen(p, f, h)
    ensures |h.chain| == |h.pages| > 0
    ensures var id := PageId(f, h.hdrNo);
            && InUse(p.disk, id) && ReadStatus(p, id) == OK
            && var q := ReadPage(p, id);
            && Ok(q) && ReadStatus(q, PageId(f, h.chain[0])) == OK && SameContent(p, q) && id in q.index
            && 0 <= q.index[id] < |q.frames|
            && var hd := Closed(f, h.hdrNo).(hdrFrame := q.index[id]);
               Holding(q, hd, h) && Unseen(p, Closed(f, h.hdrNo), q, hd)
  {
    var id := PageId(f, h.hdrNo);
    ReadLaw(p, id);
    var q := ReadPage(p, id);
    StoredSame(p, q, f, h);
    ReadGripNew(p, id);
    forall j | 0 <= j < |h.chain|
      ensures !Owes(q, PageId(f, h.chain[j]))
    {
      ReadOwes(p, id, PageId(f, h.chain[j]));
    }
    OpenQuiet(p, f, h.hdrNo);
  }

  lemma OpenQuiet(p: Pool, f: int, hdrNo: int)
    requires Ok(p) && InUse(p.disk, PageId(f, hdrNo)) && ReadStatus(p, PageId(f, hdrNo)) == OK
    ensures var q := ReadPage(p, PageId(f, hdrNo));
            && PageId(f, hdrNo) in q.index
            && Quiet(p, Closed(f, hdrNo), q, Closed(f, hdrNo).(hdrFrame := q.index[PageId(f, hdrNo)]))
  {
    var id := PageId(f, hdrNo);
    ReadLaw(p, id);
    var q := ReadPage(p, id);
    forall x, page | Has(p, x, page) ensures Has(q, x, page) {}
    assert IndexOk(q);
  }

  lemma CloseHeaderLaw(p: Pool, hd: Handle, h: Heap)
    requires Ok(p) && Holding(p, hd, h) && !hd.HasCur()
    ensures UnPinStatus(p, hd.HdrId()) == OK
    ensures Pins(p, hd.HdrId()) == 1 && !hd.hdrDirty ==> !Owes(p, hd.HdrId())
    ensures var q, hd' := UnPin(p, hd.HdrId(), hd.hdrDirty), hd.(hdrFrame := -1);
            && Ok(q) && Unseen(p, hd, q, hd') && Settled(q, hd.file, h)
  {
    var id := hd.HdrId();
    UnPinLaw(p, id, hd.hdrDirty);
    var q := UnPin(p, id, hd.hdrDirty);
    StoredSame(p, q, hd.file, h);
    UnPinOwes(p, id, hd.hdrDirty, id);
    forall j | 0 <= j < |h.chain|
      ensures !Owes(q, PageId(hd.file, h.chain[j]))
    {
      UnPinOwes(p, id, hd.hdrDirty, PageId(hd.file, h.chain[j]));
    }
    CloseQuiet(p, hd);
  }

  /** Nobody else has a page of the file pinned. */
  ghost predicate SoleUser(p: Pool, hd: Handle) {
    forall id: PageId :: id.file == hd.file ==> Pins(p, id) == Own(hd, id)
  }

  ghost predicate Idle(p: Pool, f: int) {
    forall id: PageId :: id.file == f ==> Pins(p, id) == 0
  }

  lemma SoleUserStays(p: Pool, hd: Handle, q: Pool, hd': Handle)
    requires Quiet(p, hd, q, hd') && SoleUser(p, hd)
    ensures SoleUser(q, hd')
  {
    forall id: PageId | id.file == hd.file ensures Pins(q, id) == Own(hd', id) {
      assert Pins(q, id) - Own(hd', id) == Pins(p, id) - Own(hd, id);
    }
  }

  lemma IdleIsSole(p: Pool, f: int, hdrNo: int, hdrDirty: bool)
    ensures Idle(p, f) <==> SoleUser(p, Closed(f, hdrNo).(hdrDirty := hdrDirty))
  {}

  /** The heap file is on disk, and the pool holds no page of it. */
  ghost predicate OnDisk(p: Pool, f: int, h: Heap) {
    && h.chain != [] && |h.chain| == |h.pages|
    && (forall id: PageId :: id.file == f ==> id !in p.index)
    && InUse(p.disk, PageId(f, h.hdrNo)) && p.disk.pages[PageId(f, h.hdrNo)] == Header(h)
    && forall i :: 0 <= i < |h.chain| ==>
        InUse(p.disk, PageId(f, h.chain[i])) && p.disk.pages[PageId(f, h.chain[i])] == DataPage(h.pages[i])
  }

  /** It stays there while another file is closed. */
  lemma OtherFileOnDisk(p: Pool, hd: Handle, q: Pool, hd': Handle, f: int, h: Heap)
    requires Quiet(p, hd, q, hd') && Shrunk(p, q) && hd.file != f && OnDisk(p, f, h)
    ensures OnDisk(q, f, h)
  {
    assert Has(p, PageId(f, h.hdrNo), Header(h)) && Has(q, PageId(f, h.hdrNo), Header(h));
    forall i | 0 <= i < |h.chain|
      ensures InUse(q.disk, PageId(f, h.chain[i])) && q.disk.pages[PageId(f, h.chain[i])] == DataPage(h.pages[i])
    {
      assert Has(p, PageId(f, h.chain[i]), DataPage(h.pages[i]));
      assert Has(q, PageId(f, h.chain[i]), DataPage(h.pages[i]));
    }
  }

  lemma IdleFlushes(p: Pool, f: int)
    requires Ok(p) && Idle(p, f)
    ensures FlushStop(p.table, f, 0) == |p.table|
  {
    var stop := FlushStop(p.table, f, 0);
    if stop < |p.table| {
      NotPinned(p, f, stop);
    }
  }

  lemma NotPinned(p: Pool, f: int, i: nat)
    requires Ok(p) && Idle(p, f) && i < |p.table|
    ensures !PinnedOf(p.table[i], f)
  {
    assert FrameOk(p, i);
  }

  /** The flush at the last close puts the file on disk and nobody else notices. */
  lemma LastCloseLaw(p: Pool, f: int, h: Heap, hd: Handle)
    requires Ok(p) && Settled(p, f, h) && Idle(p, f) && hd.file == f
    ensures FlushStop(p.table, f, 0) == |p.table|
    ensures var q := Flushed(p, f, |p.table|);
            Ok(q) && Settled(q, f, h) && OnDisk(q, f, h) && Unseen(p, hd, q, hd) && Shrunk(p, q)
  {
    hide DiskOk, FrameOk, IndexOk, Flushed;
    IdleFlushes(p, f);
    FlushedShrinks(p, f, |p.table|);
    FlushedLaw(p, f, |p.table|);
    var q := Flushed(p, f, |p.table|);
    FlushedPages(p, f);
    StoredSame(p, q, f, h);
    forall id: PageId, page | Has(p, id, page) ensures Has(q, id, page) {}
  }

  /** After a completed flush every page of the file is on disk with its content, and in no frame. */
  lemma FlushedPages(p: Pool, f: int)
    requires Ok(p) && FlushStop(p.table, f, 0) == |p.table|
    ensures var q := Flushed(p, f, |p.table|);
            && (forall id: PageId :: id.file == f ==> id !in q.index)
            && (forall id: PageId :: id.file == f && InUse(p.disk, id) ==>
                  InUse(q.disk, id) && q.disk.pages[id] == Logical(p, id) && !Owes(q, id))
  {
    FlushedLaw(p, f, |p.table|);
    forall id: PageId | id.file == f && InUse(p.disk, id)
      ensures var q := Flushed(p, f, |p.table|); InUse(q.disk, id) && q.disk.pages[id] == Logical(p, id) && !Owes(q, id)
    {
      FlushFileDurable(p, f, id);
    }
  }

  lemma CloseQuiet(p: Pool, hd: Handle)
    requires Ok(p) && !hd.HasCur() && Grip(p, hd.HdrId(), hd.hdrFrame, hd.hdrDirty)
    ensures Quiet(p, hd, UnPin(p, hd.HdrId(), hd.hdrDirty), hd.(hdrFrame := -1))
  {
    UnPinLaw(p, hd.HdrId(), hd.hdrDirty);
  }

  /** A page that is not in the pool is not held. */
  lemma NotHeld(p: Pool, hd: Handle, h: Heap)
    requires hd.HasCur() && hd.CurId() !in p.index
    ensures !Holding(p, hd, h)
  {}

  /** After a read that finds no frame the page is in none. */
  lemma MissedPage(p: Pool, id: PageId)
    requires Ok(p) && InUse(p.disk, id) && ReadStatus(p, id) != OK
    ensures id !in ReadPage(p, id).index
  {}

  /** A page can be had, if need be in the frame that giving up the current page leaves. */
  ghost predicate CanHave(p: Pool, hd: Handle, id: PageId) {
    id in p.index || !Full(p) || (hd.HasCur() && Pins(p, hd.CurId()) == 1)
  }

  /** The pool after the current page has been given up and another page has been asked for. */
  ghost function Traded(p: Pool, hd: Handle, id: PageId): Pool {
    if hd.CurId() in p.index && 0 <= p.index[hd.CurId()] < |p.table| then
      var q := UnPin(p, hd.CurId(), hd.curDirty);
      if Ok(q) then ReadPage(q, id) else q
    else p
  }

  /** When the other page cannot be had, somebody else's pin keeps the old page where the stale pointer expects it:
      the object goes on with a page on which it has no pin. */
  lemma StaleHolds(p: Pool, hd: Handle, h: Heap, id: PageId)
    requires Ok(p) && h.hdrNo !in h.chain && Holding(p, hd, h) && hd.HasCur() && InUse(p.disk, id)
    requires !CanHave(p, hd, id) && Holding(Traded(p, hd, id), Released(hd), h)
    ensures Holding(Traded(p, hd, id), hd, h)
    ensures 0 < Pins(Traded(p, hd, id), hd.CurId()) == Pins(p, hd.CurId()) - 1
  {
    var cur, q := hd.CurId(), UnPin(p, hd.CurId(), hd.curDirty);
    ReleaseLaw(p, hd, h);
    UnPinLaw(p, cur, hd.curDirty);
    HaveLaw(p, hd, id);
    ReadLaw(q, id);
    hide Ok, DiskOk, UnPin, ReadPage, ReadStatus, Stored, CanHave;
    StaleGrip(p, hd, h);
    ReadGrip(q, id, cur, hd.curFrame, hd.curDirty);
  }

  lemma StaleGrip(p: Pool, hd: Handle, h: Heap)
    requires Ok(p) && h.hdrNo !in h.chain && Holding(p, hd, h) && hd.HasCur() && Pins(p, hd.CurId()) > 1
    ensures Grip(UnPin(p, hd.CurId(), hd.curDirty), hd.CurId(), hd.curFrame, hd.curDirty)
  {
    if !hd.curDirty {
      UnPinOwes(p, hd.CurId(), hd.curDirty, hd.CurId());
    }
  }

  /** Giving a pin back makes room in a full pool exactly when it was the last pin on its page. */
  lemma UnPinFullIff(p: Pool, id: PageId, dirty: bool)
    requires Ok(p) && Pins(p, id) > 0
    ensures Full(UnPin(p, id, dirty)) <==> Full(p) && Pins(p, id) != 1
  {
    hide DiskOk, InUse;
    var q, f := UnPin(p, id, dirty), p.index[id];
    NoCandidateIffAllPinned(p.table, p.hand);
    NoCandidateIffAllPinned(q.table, q.hand);
    assert FrameOk(p, f);
    assert forall i :: 0 <= i < |p.table| && i != f ==> q.table[i] == p.table[i];
    assert !Available(p.table[f]) && (Available(q.table[f]) <==> Pins(p, id) == 1);
    if Full(q) {
      assert forall i :: 0 <= i < |p.table| ==> !Available(p.table[i]);
    }
  }

  /** When the page that is to become the current one can be read. */
  lemma HaveLaw(p: Pool, hd: Handle, id: PageId)
    requires Ok(p) && InUse(p.disk, id) && (hd.HasCur() ==> Pins(p, hd.CurId()) > 0)
    ensures hd.HasCur() ==> hd.CurId() in p.index && 0 <= p.index[hd.CurId()] < |p.table|
    ensures var q := if hd.HasCur() then UnPin(p, hd.CurId(), hd.curDirty) else p;
            0 <= q.hand < |q.table| && ReadStatus(q, id) == if CanHave(p, hd, id) then OK else BUFFEREXCEEDED
  {
    if hd.HasCur() {
      UnPinFullIff(p, hd.CurId(), hd.curDirty);
    }
  }

  lemma HandBound(p: Pool)
    requires Ok(p)
    ensures 0 <= p.hand < |p.table|
  {}

  ghost predicate Full(p: Pool) {
    0 <= p.hand < |p.table| && Exhausted(p)
  }

  /** What insertRecord returns, given the last page and whether the pool has a frame for another one. */
  function InsertStatus(last: PageImage, rec: Record, full: bool): Status {
    if !Overflows(last, |rec|) then OK
    else if full then BUFFEREXCEEDED
    else if |rec| <= 1000 then OK
    else NOSPACE
  }

  /** Two unpinned frames: pinning one page leaves room for another. */
  ghost predicate RoomForTwo(p: Pool) {
    exists i, j :: 0 <= i < j < |p.table| && Available(p.table[i]) && Available(p.table[j])
  }

  lemma ReadLeavesFrame(p: Pool, id: PageId, i: int, j: int)
    requires Ok(p) && InUse(p.disk, id) && !Exhausted(p) && 0 <= i < j < |p.table|
    requires Available(p.table[i]) && Available(p.table[j])
    ensures var q := ReadPage(p, id);
            |q.table| == |p.table| && (Available(q.table[i]) || Available(q.table[j]))
  {
    var k := if i == (if id in p.index then p.index[id] else Take(p).hand) then j else i;
    if id in p.index {
      assert PinAgain(p, id).table[k] == p.table[k];
    } else {
      TakeOk(p);
    }
  }

  lemma RoomAfterRead(p: Pool, id: PageId)
    requires Ok(p) && InUse(p.disk, id) && RoomForTwo(p)
    ensures !Exhausted(p) && Ok(ReadPage(p, id)) && !Exhausted(ReadPage(p, id))
  {
    hide PoolSpec.Ok, PoolSpec.ReadPage, PoolSpec.Exhausted, PoolSpec.Take;
    var i, j :| 0 <= i < j < |p.table| && Available(p.table[i]) && Available(p.table[j]);
    AvailableFrame(p, i);
    ReadOkIff(p, id);
    ReadLeavesFrame(p, id, i, j);
    AvailableFrame(ReadPage(p, id), if Available(ReadPage(p, id).table[i]) then i else j);
  }

  lemma RoomCanOpen(p: Pool, f: int, h: Heap)
    requires Ok(p) && Settled(p, f, h) && RoomForTwo(p)
    ensures CanOpen(p, f, h)
  {
    RoomAfterRead(p, PageId(f, h.hdrNo));
  }

  /** Counting a held page as changed is always safe. */
  lemma MarkDirty(p: Pool, hd: Handle, h: Heap)
    requires Ok(p) && Holding(p, hd, h)
    ensures var hd' := if hd.HasCur() then hd.(curDirty := true) else hd;
            && Holding(p, hd', h) && (SoleUser(p, hd) ==> SoleUser(p, hd'))
            && forall q, hd'' :: Unseen(p, hd', q, hd'') ==> Unseen(p, hd, q, hd'')
  {
    var hd' := if hd.HasCur() then hd.(curDirty := true) else hd;
    assert forall id :: Own(hd', id) == Own(hd, id);
  }

  // ----- changing the pages that are held -----

  lemma PokeOwes(p: Pool, id: PageId, page: DiskPage, x: PageId)
    requires Ok(p) && Pins(p, id) > 0 && x != id && !Owes(p, x)
    ensures !Owes(Poke(p, id, page), x)
  {
    PokeLaw(p, id, page);
    if Pins(p, x) > 0 {
      assert Kept(p, Poke(p, id, page), x);
    } else {
      UnpinnedOwesNothing(Poke(p, id, page), x);
    }
  }

  lemma PokeQuiet(p: Pool, hd: Handle, id: PageId, page: DiskPage, hd': Handle)
    requires Ok(p) && Pins(p, id) > 0 && id.file == hd.file
    requires hd'.file == hd.file && hd'.hdrNo == hd.hdrNo && forall x :: Own(hd', x) == Own(hd, x)
    ensures Ok(Poke(p, id, page)) && Quiet(p, hd, Poke(p, id, page), hd')
  {
    PokeLaw(p, id, page);
  }

  lemma PokeGrip(p: Pool, id: PageId, page: DiskPage, x: PageId, frame: int, dirty: bool)
    requires Ok(p) && Pins(p, id) > 0 && Grip(p, x, frame, dirty)
    ensures Grip(Poke(p, id, page), x, frame, dirty || x == id)
  {
    PokeLaw(p, id, page);
    if x != id {
      assert Kept(p, Poke(p, id, page), x);
    }
  }

  function PokedData(h: Heap, i: nat, img: PageImage): Heap
    requires i < |h.pages|
  {
    h.(pages := h.pages[i := img])
  }

  /** Writing the current page through its frame. */
  lemma PokeDataLaw(p: Pool, hd: Handle, h: Heap, i: nat, img: PageImage)
    requires Ok(p) && Distinct(h.chain) && h.hdrNo !in h.chain && Holding(p, hd, h)
    requires hd.HasCur() && i < |h.chain| && h.chain[i] == hd.curNo
    ensures hd.CurId() in p.index && p.index[hd.CurId()] == hd.curFrame && hd.curFrame < |p.frames|
    ensures var q, hd' := Poke(p, hd.CurId(), DataPage(img)), hd.(curDirty := true);
            Ok(q) && Quiet(p, hd, q, hd') && Holding(q, hd', PokedData(h, i, img))
  {
    var id := hd.CurId();
    var q, hd' := Poke(p, id, DataPage(img)), hd.(curDirty := true);
    PokeQuiet(p, hd, id, DataPage(img), hd');
    PokeGrip(p, id, DataPage(img), hd.HdrId(), hd.hdrFrame, hd.hdrDirty);
    PokeGrip(p, id, DataPage(img), id, hd.curFrame, hd.curDirty);
    PokeLaw(p, id, DataPage(img));
    assert id != hd.HdrId();
    PokedStored(p, q, hd.file, h, i, img);
    forall j | 0 <= j < |h.chain| && j != i
      ensures !Owes(q, PageId(hd.file, h.chain[j]))
    {
      assert h.chain[j] != h.chain[i];
      PokeOwes(p, id, DataPage(img), PageId(hd.file, h.chain[j]));
    }
  }

  lemma PokedStored(p: Pool, q: Pool, f: int, h: Heap, i: nat, img: PageImage)
    requires Distinct(h.chain) && h.hdrNo !in h.chain && Stored(p, f, h) && i < |h.chain| && q.disk == p.disk
    requires Logical(q, PageId(f, h.chain[i])) == DataPage(img)
    requires forall x :: InUse(p.disk, x) && x != PageId(f, h.chain[i]) ==> Logical(q, x) == Logical(p, x)
    ensures Stored(q, f, PokedData(h, i, img))
  {
    var g := PokedData(h, i, img);
    assert Has(q, PageId(f, h.hdrNo), Header(g)) by {
      assert h.chain[i] in h.chain;
      assert Has(p, PageId(f, h.hdrNo), Header(h));
    }
    forall j | 0 <= j < |h.chain|
      ensures Has(q, PageId(f, h.chain[j]), DataPage(g.pages[j]))
    {
      assert Has(p, PageId(f, h.chain[j]), DataPage(h.pages[j]));
      assert j != i ==> h.chain[j] != h.chain[i];
    }
  }

  /** Writing the header page through its frame; the chain stays. */
  lemma PokeHeaderLaw(p: Pool, hd: Handle, h: Heap, g: Heap)
    requires Ok(p) && Holding(p, hd, h) && h.hdrNo !in h.chain
    requires g == h.(lastNo := g.lastNo, pageCnt := g.pageCnt, recCnt := g.recCnt)
    ensures hd.HdrId() in p.index && p.index[hd.HdrId()] == hd.hdrFrame && 0 <= hd.hdrFrame < |p.frames|
    ensures g.chain != []
    ensures var q, hd' := Poke(p, hd.HdrId(), Header(g)), hd.(hdrDirty := true);
            Ok(q) && Quiet(p, hd, q, hd') && Holding(q, hd', g)
  {
    var id, page := hd.HdrId(), Header(g);
    var q, hd' := Poke(p, id, page), hd.(hdrDirty := true);
    PokeQuiet(p, hd, id, page, hd');
    PokeGrip(p, id, page, id, hd.hdrFrame, hd.hdrDirty);
    if hd.HasCur() {
      PokeGrip(p, id, page, hd.CurId(), hd.curFrame, hd.curDirty);
    }
    PokeLaw(p, id, page);
    forall j | 0 <= j < |h.chain|
      ensures Has(q, PageId(hd.file, h.chain[j]), DataPage(h.pages[j]))
      ensures !(hd.HasCur() && h.chain[j] == hd.curNo) ==> !Owes(q, PageId(hd.file, h.chain[j]))
    {
      assert h.chain[j] in h.chain;
      assert Has(p, PageId(hd.file, h.chain[j]), DataPage(h.pages[j]));
      if !(hd.HasCur() && h.chain[j] == hd.curNo) {
        PokeOwes(p, id, page, PageId(hd.file, h.chain[j]));
      }
    }
  }

  lemma HeaderFrame(p: Pool, hd: Handle, h: Heap)
    requires Holding(p, hd, h)
    ensures 0 <= hd.hdrFrame < |p.frames| && h.chain != [] && p.frames[hd.hdrFrame] == Header(h)
  {}

  // ----- adding a page to the chain -----

  /** The 1004 data bytes of a frame, whatever it held before. */
  function RawData(page: DiskPage): (data: seq<byte>)
    ensures |data| == DATA_SIZE
  {
    if page.DataPage? && |page.image.data| == DATA_SIZE then page.image.data else seq(DATA_SIZE, _ => 0)
  }

  lemma AllocQuiet(p: Pool, hd: Handle)
    requires Ok(p) && hd.file in p.disk.free
    ensures HasHeader(p.disk.pages, hd.file)
    ensures var q, id := AllocPage(p, hd.file), PageId(hd.file, NextAlloc(p.disk.pages, hd.file));
            && Ok(q) && SameContent(p, q) && !InUse(p.disk, id) && InUse(q.disk, id) && 1 <= id.pageNo
            && (Exhausted(p) ==> Quiet(p, hd, q, hd))
            && (!Exhausted(p) ==> Pins(q, id) == 1 && id in q.index && q.index[id] == q.hand)
            && (!Exhausted(p) ==> forall x :: x != id ==> Pins(q, x) == Pins(p, x))
            && KeepsPinned(p, q)
  {
    AllocPageLaw(p, hd.file);
  }

  lemma AllocHolds(p: Pool, hd: Handle, h: Heap)
    requires Ok(p) && Holding(p, hd, h) && hd.file in p.disk.free
    ensures Ok(AllocPage(p, hd.file)) && HasHeader(p.disk.pages, hd.file)
    ensures Holding(AllocPage(p, hd.file), hd, h)
  {
    AllocQuiet(p, hd);
    var q := AllocPage(p, hd.file);
    StoredSame(p, q, hd.file, h);
    assert Kept(p, q, hd.HdrId());
    if hd.HasCur() {
      assert Kept(p, q, hd.CurId());
    }
    forall i | 0 <= i < |h.chain| && !Owes(p, PageId(hd.file, h.chain[i]))
      ensures !Owes(q, PageId(hd.file, h.chain[i]))
    {
      AllocOwes(p, hd, PageId(hd.file, h.chain[i]));
    }
    AllocPins(p, hd);
  }

  lemma AllocOwes(p: Pool, hd: Handle, x: PageId)
    requires Ok(p) && hd.file in p.disk.free && InUse(p.disk, x) && !Owes(p, x)
    ensures HasHeader(p.disk.pages, hd.file) && !Owes(AllocPage(p, hd.file), x)
  {
    AllocPageLaw(p, hd.file);
    if Pins(p, x) > 0 {
      assert Kept(p, AllocPage(p, hd.file), x);
    } else {
      UnpinnedOwesNothing(AllocPage(p, hd.file), x);
    }
  }

  lemma AllocPins(p: Pool, hd: Handle)
    requires Ok(p) && hd.file in p.disk.free
    ensures HasHeader(p.disk.pages, hd.file)
    ensures forall x :: InUse(p.disk, x) ==> Pins(AllocPage(p, hd.file), x) == Pins(p, x)
  {
    AllocPageLaw(p, hd.file);
  }

  /** A pinned page with a known content that is not on the chain yet. */
  ghost predicate Spare(p: Pool, id: PageId, frame: int, page: DiskPage) {
    Grip(p, id, frame, true) && Has(p, id, page)
  }

  lemma SparePoke(p: Pool, id: PageId, page: DiskPage, x: PageId, frame: int, pg: DiskPage)
    requires Ok(p) && Pins(p, id) > 0 && x != id && Spare(p, x, frame, pg)
    ensures Spare(Poke(p, id, page), x, frame, pg)
  {
    PokeLaw(p, id, page);
    PokeGrip(p, id, page, x, frame, true);
  }

  lemma SpareUnPin(p: Pool, id: PageId, x: PageId, frame: int, pg: DiskPage)
    requires Ok(p) && Pins(p, id) > 0 && x != id && Spare(p, x, frame, pg)
    ensures Spare(UnPin(p, id, true), x, frame, pg)
  {
    UnPinLaw(p, id, true);
    UnPinGrip(p, id, true, x, frame, true);
  }

  lemma SpareHolds(p: Pool, hd: Handle, h: Heap, id: PageId, page: DiskPage)
    requires Ok(p) && Holding(p, hd, h) && h.hdrNo != id.pageNo && id.pageNo !in h.chain && id.file == hd.file
    requires Pins(p, id) > 0
    ensures id in p.index && 0 <= p.index[id] < |p.frames|
    ensures var q := Poke(p, id, page);
            Ok(q) && Quiet(p, hd, q, hd) && Holding(q, hd, h) && Spare(q, id, q.index[id], page)
  {
    PokeLaw(p, id, page);
    var q := Poke(p, id, page);
    PokeQuiet(p, hd, id, page, hd);
    PokeGrip(p, id, page, hd.HdrId(), hd.hdrFrame, hd.hdrDirty);
    if hd.HasCur() {
      PokeGrip(p, id, page, hd.CurId(), hd.curFrame, hd.curDirty);
    }
    forall j | 0 <= j < |h.chain|
      ensures Has(q, PageId(hd.file, h.chain[j]), DataPage(h.pages[j]))
      ensures !(hd.HasCur() && h.chain[j] == hd.curNo) ==> !Owes(q, PageId(hd.file, h.chain[j]))
    {
      assert h.chain[j] in h.chain;
      assert Has(p, PageId(hd.file, h.chain[j]), DataPage(h.pages[j]));
      if !(hd.HasCur() && h.chain[j] == hd.curNo) {
        PokeOwes(p, id, page, PageId(hd.file, h.chain[j]));
      }
    }
  }

  function NextLinked(h: Heap, n: int): PageImage
    requires h.pages != []
  {
    Last(h).(nextPage := n)
  }

  /** insertRecord with a full last page: initialize page n, record it in the header and link it behind the
      current page... */
  function WritePage(p: Pool, hd: Handle, h: Heap, n: int, data: seq<byte>): Pool
    requires h.pages != [] && h.chain != []
    requires forall id :: id in p.index ==> 0 <= p.index[id] < |p.frames|
    requires PageId(hd.file, n) in p.index && hd.HdrId() in p.index && hd.CurId() in p.index
  {
    var p1 := Poke(p, PageId(hd.file, n), DataPage(Init(data, n)));
    var p2 := Poke(p1, hd.HdrId(), Header(h.(lastNo := n, pageCnt := h.pageCnt + 1)));
    Poke(p2, hd.CurId(), DataPage(NextLinked(h, n)))
  }

  /** ... and unpin the current page. */
  function AddPage(p: Pool, hd: Handle, h: Heap, n: int, data: seq<byte>): Pool
    requires h.pages != [] && h.chain != []
    requires forall id :: id in p.index ==> 0 <= p.index[id] < |p.table| == |p.frames|
    requires PageId(hd.file, n) in p.index && hd.HdrId() in p.index && hd.CurId() in p.index
  {
    UnPin(WritePage(p, hd, h, n, data), hd.CurId(), true)
  }

  lemma AddPageSteps(p: Pool, hd: Handle, h: Heap, n: int, data: seq<byte>)
    requires Ok(p) && Inv(h) && Holding(p, hd, h) && hd.HasCur() && hd.curNo == h.chain[|h.chain| - 1]
    requires n !in h.chain && n != h.hdrNo && Pins(p, PageId(hd.file, n)) == 1
    ensures hd.HdrId() in p.index && hd.CurId() in p.index
    ensures Ok(WritePage(p, hd, h, n, data))
    ensures var id := PageId(hd.file, n);
            var q, hd' := AddPage(p, hd, h, n, data), Released(hd.(hdrDirty := true));
            var g := PokedData(h.(lastNo := n, pageCnt := h.pageCnt + 1), |h.pages| - 1, NextLinked(h, n));
            Ok(q) && Quiet(p, hd, q, hd') && Holding(q, hd', g) && Spare(q, id, p.index[id], DataPage(Init(data, n)))
  {
    hide PoolSpec.Ok, PoolSpec.UnPin, Quiet, Holding, Spare;
    HoldsPins(p, hd, h);
    var id, page, last := PageId(hd.file, n), DataPage(Init(data, n)), |h.pages| - 1;
    SpareHolds(p, hd, h, id, page);
    var p1 := Poke(p, id, page);
    var h2 := h.(lastNo := n, pageCnt := h.pageCnt + 1);
    PokeHeaderLaw(p1, hd, h, h2);
    HoldsPins(p1, hd, h);
    SparePoke(p1, hd.HdrId(), Header(h2), id, p.index[id], page);
    var p2, hd2 := Poke(p1, hd.HdrId(), Header(h2)), hd.(hdrDirty := true);
    QuietCompose(p, hd, p1, hd, p2, hd2);
    PokeDataLaw(p2, hd2, h2, last, NextLinked(h, n));
    HoldsPins(p2, hd2, h2);
    SparePoke(p2, hd.CurId(), DataPage(NextLinked(h, n)), id, p.index[id], page);
    var p3, hd3 := Poke(p2, hd.CurId(), DataPage(NextLinked(h, n))), hd2.(curDirty := true);
    QuietCompose(p, hd, p2, hd2, p3, hd3);
    var g := PokedData(h2, last, NextLinked(h, n));
    ReleaseLaw(p3, hd3, g);
    HoldsPins(p3, hd3, g);
    SpareUnPin(p3, hd.CurId(), id, p.index[id], page);
    QuietCompose(p, hd, p3, hd3, UnPin(p3, hd.CurId(), true), Released(hd3));
  }

  lemma HoldsPins(p: Pool, hd: Handle, h: Heap)
    requires Holding(p, hd, h)
    ensures Pins(p, hd.HdrId()) > 0 && hd.HdrId() in p.index
    ensures hd.HasCur() ==> Pins(p, hd.CurId()) > 0 && hd.CurId() in p.index
  {}

  function Extended(h: Heap, n: int, img: PageImage): Heap {
    h.(chain := h.chain + [n], pages := h.pages + [img])
  }

  /** The spare page becomes the last page of the chain and the current page. */
  lemma AdoptLaw(p: Pool, hd: Handle, h: Heap, n: int, frame: int, img: PageImage)
    requires Ok(p) && Holding(p, hd, h) && !hd.HasCur() && h.chain != []
    requires Spare(p, PageId(hd.file, n), frame, DataPage(img))
    ensures Holding(p, hd.(curNo := n, curFrame := frame, curDirty := true), Extended(h, n, img))
  {
    var g := Extended(h, n, img);
    assert Header(g) == Header(h);
    forall j | 0 <= j < |g.chain|
      ensures Has(p, PageId(hd.file, g.chain[j]), DataPage(g.pages[j]))
      ensures g.chain[j] != n ==> !Owes(p, PageId(hd.file, g.chain[j]))
    {
      if j < |h.chain| {
        assert Has(p, PageId(hd.file, h.chain[j]), DataPage(h.pages[j]));
      }
    }
    assert g.chain[|h.chain|] == n;
  }

  function GrownHandle(hd: Handle, n: int, frame: int): Handle {
    hd.(hdrDirty := true, curNo := n, curFrame := frame, curDirty := true)
  }

  lemma GrowQuiet(p: Pool, hd: Handle, q: Pool, r: Pool, hd': Handle, n: int, frame: int)
    requires hd.HasCur() && frame >= 0 && PageId(hd.file, n) != hd.HdrId() && Pins(p, PageId(hd.file, n)) == 0
    requires Pins(q, PageId(hd.file, n)) == 1 && forall x :: x != PageId(hd.file, n) ==> Pins(q, x) == Pins(p, x)
    requires SameContent(p, q) && KeepsPinned(p, q) && Quiet(q, hd, r, hd') && !hd'.HasCur() && hd.curNo != n
    requires hd' == Released(hd.(hdrDirty := true))
    ensures Quiet(p, hd, r, GrownHandle(hd, n, frame))
  {
    forall x
      ensures Pins(r, x) - Own(GrownHandle(hd, n, frame), x) == Pins(p, x) - Own(hd, x)
    {
      assert Pins(r, x) - Own(hd', x) == Pins(q, x) - Own(hd, x);
    }
    forall x: PageId | x.file != hd.file && Pins(p, x) > 0
      ensures Kept(p, r, x)
    {
      assert Kept(p, q, x) && Kept(q, r, x);
    }
  }

  /** The whole of insertRecord's work on a full page: a page that was not in use joins the end of the chain,
      and no record moves. */
  lemma GrowPoolLaw(p: Pool, hd: Handle, h: Heap, data: seq<byte>)
    requires Ok(p) && Inv(h) && Holding(p, hd, h) && hd.HasCur() && hd.curNo == h.chain[|h.chain| - 1]
    requires hd.file in p.disk.free && !Exhausted(p) && |data| == DATA_SIZE
    ensures HasHeader(p.disk.pages, hd.file)
    ensures var n, q := NextAlloc(p.disk.pages, hd.file), AllocPage(p, hd.file);
            && Ok(q) && (forall id :: id in q.index ==> 0 <= q.index[id] < |q.table| == |q.frames|)
            && PageId(hd.file, n) in q.index && hd.HdrId() in q.index && hd.CurId() in q.index
            && Ok(WritePage(q, hd, h, n, data))
            && Inv(Grow(h, n, data)) && Entries(Grow(h, n, data).pages) == Entries(h.pages)
            && var r, hd' := AddPage(q, hd, h, n, data), GrownHandle(hd, n, q.hand);
            && Ok(r) && Holding(r, hd', Grow(h, n, data)) && Quiet(p, hd, r, hd')
  {
    hide Quiet, Holding, Spare, AddPage, WritePage, HeapSpec.Inv, HeapSpec.Entries, Released, SameContent,
         KeepsPinned, PoolSpec.AllocPage, PoolSpec.Ok, InUse, NextAlloc, DiskOk;
    RecCntIsCount(h);
    AllocQuiet(p, hd);
    AllocHolds(p, hd, h);
    var n, q := NextAlloc(p.disk.pages, hd.file), AllocPage(p, hd.file);
    NewPageElsewhere(p, hd, h, n);
    GrowLaw(h, n, data);
    AddPageSteps(q, hd, h, n, data);
    IndexInRange(q);
    var r := AddPage(q, hd, h, n, data);
    var g := PokedData(h.(lastNo := n, pageCnt := h.pageCnt + 1), |h.pages| - 1, NextLinked(h, n));
    var hd' := Released(hd.(hdrDirty := true));
    ReleasedHasNoCur(hd.(hdrDirty := true), n, q.hand);
    AdoptLaw(r, hd', g, n, q.hand, Init(data, n));
    assert Extended(g, n, Init(data, n)) == Grow(h, n, data);
    GrowQuiet(p, hd, q, r, hd', n, q.hand);
  }

  lemma IndexInRange(p: Pool)
    requires Ok(p)
    ensures |p.table| == |p.frames| && 0 <= p.hand < |p.table|
    ensures forall id :: id in p.index ==> 0 <= p.index[id] < |p.table|
  {}

  lemma ReleasedHasNoCur(hd: Handle, n: int, frame: int)
    ensures !Released(hd).HasCur() && Released(hd).file == hd.file
    ensures hd.hdrDirty ==> Released(hd).(curNo := n, curFrame := frame, curDirty := true) == GrownHandle(hd, n, frame)
  {}

  lemma NewPageElsewhere(p: Pool, hd: Handle, h: Heap, n: int)
    requires Ok(p) && Holding(p, hd, h) && !InUse(p.disk, PageId(hd.file, n))
    ensures n !in h.chain && n != h.hdrNo && PageId(hd.file, n) != hd.HdrId() && (hd.HasCur() ==> hd.curNo != n)
    ensures Pins(p, PageId(hd.file, n)) == 0
  {
    assert Has(p, PageId(hd.file, h.hdrNo), Header(h));
    forall i | 0 <= i < |h.chain| ensures h.chain[i] != n {
      assert Has(p, PageId(hd.file, h.chain[i]), DataPage(h.pages[i]));
    }
    if PageId(hd.file, n) in p.index {
      CachedInUse(p, PageId(hd.file, n));
    }
  }

  /** The frames of the three pages involved are different, and what the pokes write. */
  lemma WritePageFrames(p: Pool, hd: Handle, h: Heap, n: int, data: seq<byte>)
    requires Ok(p) && Inv(h) && Holding(p, hd, h) && hd.HasCur() && hd.curNo == h.chain[|h.chain| - 1]
    requires n !in h.chain && n != h.hdrNo && Pins(p, PageId(hd.file, n)) == 1
    ensures |h.chain| == |h.pages| > 0 && hd.HdrId() in p.index && hd.CurId() in p.index
    ensures PageId(hd.file, n) in p.index
    ensures forall id :: id in p.index ==> 0 <= p.index[id] < |p.frames| == |p.table|
    ensures var a := p.index[PageId(hd.file, n)];
            && 0 <= hd.hdrFrame < |p.frames| && hd.curFrame < |p.frames|
            && a != hd.hdrFrame && a != hd.curFrame && hd.hdrFrame != hd.curFrame
            && p.frames[hd.hdrFrame] == Header(h) && p.frames[hd.curFrame] == DataPage(Last(h))
            && WritePage(p, hd, h, n, data) ==
               p.(frames := p.frames[a := DataPage(Init(data, n))]
                                    [hd.hdrFrame := Header(h.(lastNo := n, pageCnt := h.pageCnt + 1))]
                                    [hd.curFrame := DataPage(NextLinked(h, n))])
  {
    FrameContents(p, hd, h, |h.chain| - 1);
    IndexInRange(p);
    assert h.hdrNo !in h.chain;
    var id, hdr, cur := PageId(hd.file, n), hd.HdrId(), hd.CurId();
    assert p.table[p.index[id]].id == id && p.table[p.index[hdr]].id == hdr && p.table[p.index[cur]].id == cur;
  }

  lemma FileExists(p: Pool, hd: Handle, h: Heap)
    requires Ok(p) && Holding(p, hd, h)
    ensures hd.file in p.disk.free && |p.frames| > 0 && 0 <= p.hand < |p.table| == |p.frames|
  {}

  lemma GrowShape(h: Heap, n: int, data: seq<byte>)
    requires h.pages != [] && |h.chain| == |h.pages|
    ensures var g := Grow(h, n, data);
            && g.chain == h.chain + [n] && |g.pages| == |h.chain| + 1 && g.hdrNo == h.hdrNo
            && Last(g).slots == [] && Last(g).freeSpace == DATA_SIZE && Last(g).curPage == n
  {}

  /** The bytes in the frame under the hand. */
  function StaleData(p: Pool): (data: seq<byte>)
    ensures |data| == DATA_SIZE
  {
    RawData(if 0 <= p.hand < |p.frames| then p.frames[p.hand] else Blank)
  }

  /** Everything GrowFile relies on when the pool has room. */
  lemma GrowReady(p: Pool, hd: Handle, h: Heap)
    requires Ok(p) && Inv(h) && Holding(p, hd, h) && hd.HasCur() && hd.curNo == h.chain[|h.chain| - 1]
    requires hd.file in p.disk.free && !Exhausted(p)
    ensures HasHeader(p.disk.pages, hd.file) && h.chain != [] && |h.pages| == |h.chain|
    ensures var n, q := NextAlloc(p.disk.pages, hd.file), AllocPage(p, hd.file);
            var data := StaleData(q);
            && 0 <= q.hand < |q.frames| && data == RawData(q.frames[q.hand])
            && n !in h.chain && n != h.hdrNo && Pins(q, PageId(hd.file, n)) == 1
            && PageId(hd.file, n) in q.index && q.index[PageId(hd.file, n)] == q.hand
            && (forall id :: id in q.index ==> 0 <= q.index[id] < |q.table| == |q.frames|)
            && hd.HdrId() in q.index && hd.CurId() in q.index
            && Ok(q) && Holding(q, hd, h)
            && Ok(WritePage(q, hd, h, n, data))
            && var r, hd' := AddPage(q, hd, h, n, data), GrownHandle(hd, n, q.hand);
            && Holding(r, hd', Grow(h, n, data)) && Quiet(p, hd, r, hd')
            && Inv(Grow(h, n, data)) && Entries(Grow(h, n, data).pages) == Entries(h.pages)
  {
    hide Quiet, Holding, AddPage, WritePage, HeapSpec.Inv, HeapSpec.Entries, PoolSpec.AllocPage, PoolSpec.Ok, InUse,
         NextAlloc, DiskOk, Grow;
    RecCntIsCount(h);
    AllocQuiet(p, hd);
    AllocHolds(p, hd, h);
    NewPageElsewhere(p, hd, h, NextAlloc(p.disk.pages, hd.file));
    GrowPoolLaw(p, hd, h, StaleData(AllocPage(p, hd.file)));
    IndexInRange(AllocPage(p, hd.file));
  }

  lemma PokedIsDeleted(h: Heap, i: nat, s: int)
    requires i < |h.pages| && Valid(h.pages[i]) && Live(h.pages[i], s)
    ensures PokedData(h, i, Delete(h.pages[i], s)).(recCnt := h.recCnt - 1) == DeleteAt(h, i, s)
    ensures PokedData(h, i, Delete(h.pages[i], s)).recCnt == h.recCnt
    ensures |PokedData(h, i, h.pages[i]).pages| == |h.pages|
  {}
}
