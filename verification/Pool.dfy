/** The buffer pool as a value (buf.C): what every operation of BufMgr does to the clock hand, the
    frame table, the frames, the hash index and the disk, and the laws of the cache. */
module PoolSpec {
  import opened Statuses
  import opened DiskSpec
  import opened Clock

  datatype Pool = Pool(hand: int, table: seq<BufDesc>, frames: seq<DiskPage>, index: map<PageId, int>, disk: Disk)

  // ----- invariant -----

  /** A valid frame is indexed and holds an allocated page; unless it is pinned or dirty its bytes are
      those on disk. An invalid frame is clean, unpinned and belongs to no file. */
  ghost predicate FrameOk(p: Pool, i: int)
    requires 0 <= i < |p.table| == |p.frames|
  {
    var d := p.table[i];
    if d.valid then
      && d.id in p.index && p.index[d.id] == i && InUse(p.disk, d.id) && 0 <= d.pinCnt
      && (d.pinCnt == 0 && !d.dirty ==> p.frames[i] == p.disk.pages[d.id])
    else
      !d.dirty && d.pinCnt == 0 && d.id.file == NO_PAGE.file
  }

  ghost predicate IndexOk(p: Pool) {
    forall id :: id in p.index ==>
        0 <= p.index[id] < |p.table| && p.table[p.index[id]].valid && p.table[p.index[id]].id == id
  }

  ghost predicate Sized(p: Pool) {
    |p.table| == |p.frames| && 0 <= p.hand < |p.table| && DiskOk(p.disk)
  }

  ghost predicate Ok(p: Pool) {
    Sized(p) && IndexOk(p) && forall i :: 0 <= i < |p.table| ==> FrameOk(p, i)
  }

  /** As Ok, but frame f has been taken out of service. */
  ghost predicate OkBut(p: Pool, f: int) {
    && Sized(p) && IndexOk(p) && 0 <= f < |p.table|
    && (forall i :: 0 <= i < |p.table| && i != f ==> FrameOk(p, i))
    && (forall id :: id in p.index ==> p.index[id] != f)
  }

  // ----- what clients see -----

  /** The content of an allocated page: its frame if it is cached, its disk page otherwise. */
  function Logical(p: Pool, id: PageId): DiskPage {
    if id in p.index && 0 <= p.index[id] < |p.frames| then p.frames[p.index[id]]
    else if id in p.disk.pages then p.disk.pages[id] else Blank
  }

  function Pins(p: Pool, id: PageId): int {
    if id in p.index && 0 <= p.index[id] < |p.table| then p.table[p.index[id]].pinCnt else 0
  }

  /** The page has been changed in its frame and nothing records yet that it must be written back. */
  ghost predicate Owes(p: Pool, id: PageId) {
    && id in p.index && 0 <= p.index[id] < |p.table| == |p.frames| && id in p.disk.pages
    && !p.table[p.index[id]].dirty && p.frames[p.index[id]] != p.disk.pages[id]
  }

  /** Every allocated page has the same content in both states. */
  ghost predicate SameContent(p: Pool, q: Pool) {
    forall id :: InUse(p.disk, id) ==> InUse(q.disk, id) && Logical(q, id) == Logical(p, id)
  }

  /** A pinned page stays in its frame with the same bytes, and a dirty mark or agreement with the disk is not lost. */
  ghost predicate Kept(p: Pool, q: Pool, id: PageId) {
    && id in p.index && id in q.index && q.index[id] == p.index[id]
    && 0 <= p.index[id] < |p.frames| && |p.frames| == |q.frames|
    && q.frames[q.index[id]] == p.frames[p.index[id]]
    && (!Owes(p, id) ==> !Owes(q, id))
  }

  ghost predicate KeepsPinned(p: Pool, q: Pool) {
    forall id :: Pins(p, id) > 0 ==> Kept(p, q, id)
  }

  lemma Compose(p: Pool, q: Pool, r: Pool)
    requires Ok(p) && Ok(q) && Ok(r)
    requires SameContent(p, q) && KeepsPinned(p, q) && SameContent(q, r) && KeepsPinned(q, r)
    requires forall x :: Pins(p, x) > 0 ==> Pins(q, x) > 0
    ensures SameContent(p, r) && KeepsPinned(p, r)
  {
    forall x | Pins(p, x) > 0 ensures Kept(p, r, x) {
      assert Kept(p, q, x) && Kept(q, r, x);
    }
  }

  // ----- operations -----

  function Victim(p: Pool): int
    requires 0 <= p.hand < |p.table|
  {
    FirstCandidate(p.table, p.hand, 0)
  }

  predicate Exhausted(p: Pool)
    requires 0 <= p.hand < |p.table|
  {
    Victim(p) == 2 * |p.table|
  }

  /** allocBuf found no frame: two rotations have cleared every reference bit. */
  function GiveUp(p: Pool): Pool
    requires 0 <= p.hand < |p.table|
  {
    p.(table := Swept(p.table, p.hand, 2 * |p.table|))
  }

  /** allocBuf took the frame now under the hand. */
  function Take(p: Pool): Pool
    requires 0 <= p.hand < |p.table| == |p.frames| && !Exhausted(p)
  {
    var f := FrameAt(|p.table|, p.hand, Victim(p));
    var d := p.table[f];
    p.(hand := f,
       table := Swept(p.table, p.hand, Victim(p)),
       index := if d.valid then p.index - {d.id} else p.index,
       disk := if d.dirty then Write(p.disk, d.id, p.frames[f]) else p.disk)
  }

  /** The frame under the hand is marked clean. */
  function Cleaned(p: Pool): Pool
    requires 0 <= p.hand < |p.table|
  {
    p.(table := p.table[p.hand := p.table[p.hand].(dirty := false)])
  }

  /** The taken frame is set up for a page. */
  function Install(p: Pool, id: PageId, page: DiskPage): Pool
    requires 0 <= p.hand < |p.table| == |p.frames|
  {
    p.(table := p.table[p.hand := SetDesc(id)], frames := p.frames[p.hand := page], index := p.index[id := p.hand])
  }

  function PinAgain(p: Pool, id: PageId): Pool
    requires id in p.index && 0 <= p.index[id] < |p.table|
  {
    var f := p.index[id];
    p.(table := p.table[f := p.table[f].(refbit := true, pinCnt := p.table[f].pinCnt + 1)])
  }

  function ReadStatus(p: Pool, id: PageId): Status
    requires 0 <= p.hand < |p.table|
  {
    if id in p.index then OK else if Exhausted(p) then BUFFEREXCEEDED else ReadError(p.disk, id)
  }

  /** A frame is taken before the file is asked for the page. */
  ghost function ReadPage(p: Pool, id: PageId): Pool
    requires Ok(p)
  {
    if id in p.index then PinAgain(p, id)
    else if Exhausted(p) then GiveUp(p)
    else if ReadError(p.disk, id) != OK then Take(p)
    else TakeOk(p); Install(Take(p), id, Take(p).disk.pages[id])
  }

  function UnPinStatus(p: Pool, id: PageId): Status {
    if id !in p.index then HASHNOTFOUND else if Pins(p, id) == 0 then PAGENOTPINNED else OK
  }

  /** unPinPage sets the dirty bit before it looks at the pin count. */
  function UnPin(p: Pool, id: PageId, dirty: bool): Pool
    requires id in p.index ==> 0 <= p.index[id] < |p.table|
  {
    if id !in p.index then p
    else
      var f := p.index[id];
      var d := p.table[f];
      p.(table := p.table[f := d.(dirty := d.dirty || dirty, pinCnt := if d.pinCnt == 0 then 0 else d.pinCnt - 1)])
  }

  /** allocPage: the new page is on disk already; its frame keeps whatever bytes it held. */
  ghost function AllocPage(p: Pool, f: int): Pool
    requires Ok(p) && f in p.disk.free && HasHeader(p.disk.pages, f)
  {
    var q := p.(disk := Alloc(p.disk, f));
    if Exhausted(q) then GiveUp(q)
    else Install(Take(q), PageId(f, NextAlloc(p.disk.pages, f)), q.frames[Take(q).hand])
  }

  // ----- laws of allocBuf -----

  lemma VictimFree(p: Pool)
    requires Ok(p) && !Exhausted(p)
    ensures var f := FrameAt(|p.table|, p.hand, Victim(p));
            var d := p.table[f];
            && FrameOk(p, f) && d.pinCnt == 0
            && (d.valid ==> d.id in p.index && p.index[d.id] == f && InUse(p.disk, d.id))
            && (!d.valid ==> !d.dirty)
            && (d.valid && !d.dirty ==> p.frames[f] == p.disk.pages[d.id])
  {
    assert Candidate(p.table, p.hand, Victim(p));
  }

  lemma TakeDisk(p: Pool)
    requires Ok(p) && !Exhausted(p)
    ensures DiskOk(Take(p).disk)
    ensures forall id :: InUse(Take(p).disk, id) <==> InUse(p.disk, id)
    ensures var d := p.table[Take(p).hand];
            forall id :: InUse(p.disk, id) ==>
              Take(p).disk.pages[id] == if d.valid && id == d.id then p.frames[Take(p).hand] else p.disk.pages[id]
  {
    VictimFree(p);
    var d := p.table[Take(p).hand];
    if d.dirty {
      WriteLaw(p.disk, d.id, p.frames[Take(p).hand]);
    }
  }

  lemma TakeOk(p: Pool)
    requires Ok(p) && !Exhausted(p)
    ensures OkBut(Take(p), Take(p).hand)
    ensures forall id :: InUse(Take(p).disk, id) <==> InUse(p.disk, id)
  {
    hide DiskOk, FirstCandidate;
    VictimFree(p);
    TakeDisk(p);
    var q := Take(p);
    forall i | 0 <= i < |q.table| && i != q.hand
      ensures FrameOk(q, i)
    {
      assert FrameOk(p, i);
    }
  }

  lemma TakeKeeps(p: Pool, id: PageId)
    requires Ok(p) && !Exhausted(p)
    ensures Pins(Take(p), id) == Pins(p, id)
    ensures InUse(p.disk, id) ==> InUse(Take(p).disk, id) && Logical(Take(p), id) == Logical(p, id)
    ensures Pins(p, id) > 0 ==> Kept(p, Take(p), id)
  {
    VictimFree(p);
    TakeOk(p);
    TakeDisk(p);
    if id in p.index {
      assert FrameOk(p, p.index[id]);
    }
  }

  lemma InstallOk(p: Pool, id: PageId, page: DiskPage)
    requires OkBut(p, p.hand) && InUse(p.disk, id) && id !in p.index
    ensures Ok(Install(p, id, page))
  {
    var q := Install(p, id, page);
    forall i | 0 <= i < |q.table|
      ensures FrameOk(q, i)
    {
      if i != p.hand {
        assert FrameOk(p, i);
      }
    }
  }

  lemma InstallKeeps(p: Pool, id: PageId, page: DiskPage, x: PageId)
    requires OkBut(p, p.hand) && InUse(p.disk, id) && id !in p.index && x != id
    ensures Pins(Install(p, id, page), x) == Pins(p, x)
    ensures InUse(p.disk, x) ==> Logical(Install(p, id, page), x) == Logical(p, x)
    ensures Pins(p, x) > 0 ==> Kept(p, Install(p, id, page), x)
  {}

  lemma GiveUpOk(p: Pool)
    requires Ok(p)
    ensures Ok(GiveUp(p))
    ensures SameContent(p, GiveUp(p)) && KeepsPinned(p, GiveUp(p))
    ensures forall x :: Pins(GiveUp(p), x) == Pins(p, x)
  {
    var q := GiveUp(p);
    forall i | 0 <= i < |q.table|
      ensures FrameOk(q, i)
    {
      assert FrameOk(p, i);
    }
  }

  lemma PinAgainLaw(p: Pool, id: PageId)
    requires Ok(p) && id in p.index
    ensures Ok(PinAgain(p, id))
    ensures SameContent(p, PinAgain(p, id)) && KeepsPinned(p, PinAgain(p, id))
    ensures forall x :: Pins(PinAgain(p, id), x) == Pins(p, x) + if x == id then 1 else 0
    ensures Owes(PinAgain(p, id), id) <==> Owes(p, id)
  {
    var q := PinAgain(p, id);
    forall i | 0 <= i < |q.table|
      ensures FrameOk(q, i)
    {
      assert FrameOk(p, i);
    }
  }

  // ----- laws of the operations -----

  /** Taking a frame and setting it up for page id touches no other page. */
  lemma TakeInstallLaw(p: Pool, id: PageId, page: DiskPage)
    requires Ok(p) && InUse(p.disk, id) && id !in p.index && !Exhausted(p)
    ensures OkBut(Take(p), Take(p).hand)
    ensures var q := Install(Take(p), id, page);
            && Ok(q) && KeepsPinned(p, q)
            && (forall x :: InUse(q.disk, x) <==> InUse(p.disk, x))
            && (forall x :: InUse(p.disk, x) && x != id ==> Logical(q, x) == Logical(p, x))
            && (forall x :: Pins(q, x) == Pins(p, x) + if x == id then 1 else 0)
  {
    TakeOk(p);
    var t := Take(p);
    InstallOk(t, id, page);
    var q := Install(t, id, page);
    TakeKeeps(p, id);
    forall x
      ensures Pins(q, x) == Pins(p, x) + if x == id then 1 else 0
      ensures InUse(p.disk, x) && x != id ==> Logical(q, x) == Logical(p, x)
      ensures Pins(p, x) > 0 ==> Kept(p, q, x)
    {
      if x != id {
        TakeKeeps(p, x);
        InstallKeeps(t, id, page, x);
      }
    }
  }

  lemma ReadMissLaw(p: Pool, id: PageId)
    requires Ok(p) && InUse(p.disk, id) && id !in p.index && !Exhausted(p)
    ensures var q := ReadPage(p, id);
            && Ok(q) && SameContent(p, q) && KeepsPinned(p, q)
            && (forall x :: InUse(q.disk, x) <==> InUse(p.disk, x))
            && (forall x :: Pins(q, x) == Pins(p, x) + if x == id then 1 else 0)
            && !Owes(q, id)
  {
    TakeInstallLaw(p, id, Take(p).disk.pages[id]);
    TakeKeeps(p, id);
  }

  /** readPage is invisible: no content changes, and it pins the page it was asked for and nothing else. */
  lemma ReadLaw(p: Pool, id: PageId)
    requires Ok(p) && InUse(p.disk, id)
    ensures var q := ReadPage(p, id);
            && Ok(q) && SameContent(p, q) && KeepsPinned(p, q)
            && (forall x :: Pins(q, x) == Pins(p, x) + if x == id && ReadStatus(p, id) == OK then 1 else 0)
            && (forall x :: InUse(q.disk, x) <==> InUse(p.disk, x))
            && (ReadStatus(p, id) == OK ==> id in q.index && q.frames[q.index[id]] == Logical(p, id))
            && (Pins(p, id) == 0 ==> !Owes(q, id))
  {
    if id in p.index {
      PinAgainLaw(p, id);
      assert FrameOk(p, p.index[id]);
    } else if Exhausted(p) {
      GiveUpOk(p);
    } else {
      ReadMissLaw(p, id);
    }
  }

  /** unPinPage is invisible as long as the last holder of a changed page says that it is dirty. */
  lemma UnPinLaw(p: Pool, id: PageId, dirty: bool)
    requires Ok(p)
    requires Pins(p, id) == 1 && !dirty ==> !Owes(p, id)
    ensures var q := UnPin(p, id, dirty);
            && Ok(q) && SameContent(p, q) && q.disk == p.disk
            && (forall x :: Pins(q, x) == Pins(p, x) - if x == id && UnPinStatus(p, id) == OK then 1 else 0)
            && (forall x :: Pins(p, x) > 0 ==> Kept(p, q, x))
            && (dirty ==> !Owes(q, id))
  {
    hide DiskOk;
    var q := UnPin(p, id, dirty);
    forall i | 0 <= i < |q.table|
      ensures FrameOk(q, i)
    {
      assert FrameOk(p, i);
    }
  }

  lemma MoreDiskOk(p: Pool, disk: Disk)
    requires Ok(p) && DiskOk(disk)
    requires forall x :: InUse(p.disk, x) ==> InUse(disk, x) && disk.pages[x] == p.disk.pages[x]
    ensures var q := p.(disk := disk); Ok(q) && SameContent(p, q) && KeepsPinned(p, q)
  {
    var q := p.(disk := disk);
    forall i | 0 <= i < |q.table|
      ensures FrameOk(q, i)
    {
      assert FrameOk(p, i);
    }
    forall x | Pins(p, x) > 0 ensures Kept(p, q, x) {
      assert FrameOk(p, p.index[x]);
    }
  }

  lemma CachedInUse(p: Pool, id: PageId)
    requires Ok(p) && id in p.index
    ensures InUse(p.disk, id)
  {
    assert FrameOk(p, p.index[id]);
  }

  lemma NewPageOk(p: Pool, f: int)
    requires Ok(p) && f in p.disk.free
    ensures HasHeader(p.disk.pages, f)
    ensures var q, id := p.(disk := Alloc(p.disk, f)), PageId(f, NextAlloc(p.disk.pages, f));
            && Ok(q) && SameContent(p, q) && KeepsPinned(p, q)
            && !InUse(p.disk, id) && id !in p.index && 1 <= id.pageNo
            && (forall x :: InUse(q.disk, x) <==> InUse(p.disk, x) || x == id)
  {
    AllocLaw(p.disk, f);
    MoreDiskOk(p, Alloc(p.disk, f));
    var id := PageId(f, NextAlloc(p.disk.pages, f));
    if id in p.index {
      CachedInUse(p, id);
    }
  }

  /** allocPage adds a page that was not in use and changes the content of no other page. */
  lemma AllocPageLaw(p: Pool, f: int)
    requires Ok(p) && f in p.disk.free
    ensures HasHeader(p.disk.pages, f)
    ensures var q, id := AllocPage(p, f), PageId(f, NextAlloc(p.disk.pages, f));
            && Ok(q) && SameContent(p, q) && KeepsPinned(p, q)
            && !InUse(p.disk, id) && 1 <= id.pageNo
            && (forall x :: InUse(q.disk, x) <==> InUse(p.disk, x) || x == id)
            && (forall x :: Pins(q, x) == Pins(p, x) + if x == id && !Exhausted(p) then 1 else 0)
            && (!Exhausted(p) ==> id in q.index && q.index[id] == q.hand)
  {
    NewPageOk(p, f);
    var n, id := p.(disk := Alloc(p.disk, f)), PageId(f, NextAlloc(p.disk.pages, f));
    if Exhausted(p) {
      GiveUpOk(n);
      Compose(p, n, GiveUp(n));
    } else {
      TakeInstallLaw(n, id, n.frames[Take(n).hand]);
      AllocCompose(p, n, AllocPage(p, f), id);
    }
  }

  lemma AllocCompose(p: Pool, n: Pool, q: Pool, id: PageId)
    requires Ok(p) && Ok(n) && Ok(q)
    requires SameContent(p, n) && KeepsPinned(p, n) && KeepsPinned(n, q) && !InUse(p.disk, id)
    requires forall x :: InUse(n.disk, x) ==> InUse(q.disk, x)
    requires forall x :: InUse(n.disk, x) && x != id ==> Logical(q, x) == Logical(n, x)
    requires forall x :: Pins(p, x) > 0 ==> Pins(n, x) > 0
    ensures SameContent(p, q) && KeepsPinned(p, q)
  {
    forall x | Pins(p, x) > 0 ensures Kept(p, q, x) {
      assert Kept(p, n, x) && Kept(n, q, x);
    }
  }

  /** A client overwrites the frame of a page it has pinned. */
  function Poke(p: Pool, id: PageId, page: DiskPage): Pool
    requires id in p.index && 0 <= p.index[id] < |p.frames|
  {
    p.(frames := p.frames[p.index[id] := page])
  }

  lemma PokeLaw(p: Pool, id: PageId, page: DiskPage)
    requires Ok(p) && Pins(p, id) > 0
    ensures var q := Poke(p, id, page);
            && Ok(q) && InUse(p.disk, id) && Logical(q, id) == page
            && (forall x :: InUse(p.disk, x) && x != id ==> Logical(q, x) == Logical(p, x))
            && (forall x :: Pins(q, x) == Pins(p, x))
            && (forall x :: Pins(p, x) > 0 && x != id ==> Kept(p, q, x))
  {
    var q := Poke(p, id, page);
    assert FrameOk(p, p.index[id]);
    forall i | 0 <= i < |q.table|
      ensures FrameOk(q, i)
    {
      assert FrameOk(p, i);
    }
  }

  // ----- second chance -----

  /** Page id given back once for each mark, in order; a mark says whether its holder changed the page. */
  ghost function UnPins(p: Pool, id: PageId, marks: seq<bool>): (q: Pool)
    requires id in p.index ==> 0 <= p.index[id] < |p.table|
    ensures q.hand == p.hand && q.index == p.index && |q.table| == |p.table| && |q.frames| == |p.frames|
    ensures id in p.index ==> var f := p.index[id];
              && q.table[f].valid == p.table[f].valid && q.table[f].id == p.table[f].id
              && q.table[f].refbit == p.table[f].refbit && q.frames == p.frames && q.disk == p.disk
              && (q.table[f].dirty <==> p.table[f].dirty || true in marks)
    decreases |marks|
  {
    if marks == [] then p else UnPins(UnPin(p, id, marks[0]), id, marks[1..])
  }

  /** allocBuf takes the frame of page id only if every frame it could take holds a page with its
      reference bit set. */
  ghost predicate SecondChance(r: Pool, id: PageId)
    requires 0 <= r.hand < |r.table| == |r.frames|
  {
    && id in r.index
    && (!Exhausted(r) && Take(r).hand == r.index[id] ==>
          forall i :: 0 <= i < |r.table| && Available(r.table[i]) ==> r.table[i].valid && r.table[i].refbit)
  }

  lemma Spared(r: Pool, id: PageId)
    requires 0 <= r.hand < |r.table| == |r.frames| && id in r.index && 0 <= r.index[id] < |r.table|
    requires r.table[r.index[id]].valid && r.table[r.index[id]].refbit
    ensures SecondChance(r, id)
  {
    VictimRotation(r.table, r.hand);
  }

  /** A page that readPage has just delivered, from its frame or from the disk, is passed over once
      however often it is unpinned. */
  lemma ReadGetsSecondChance(p: Pool, id: PageId, marks: seq<bool>)
    requires Ok(p) && ReadStatus(p, id) == OK
    ensures var q := ReadPage(p, id);
            id in q.index && 0 <= q.index[id] < |q.table| && Sized(q) && SecondChance(UnPins(q, id, marks), id)
  {
    if id !in p.index {
      TakeOk(p);
    }
    Spared(UnPins(ReadPage(p, id), id, marks), id);
  }

  /** So is a page that allocPage has just added to file f. */
  lemma AllocGetsSecondChance(p: Pool, f: int, marks: seq<bool>)
    requires Ok(p) && f in p.disk.free && HasHeader(p.disk.pages, f) && !Exhausted(p)
    ensures var q, id := AllocPage(p, f), PageId(f, NextAlloc(p.disk.pages, f));
            id in q.index && 0 <= q.index[id] < |q.table| && Sized(q) && SecondChance(UnPins(q, id, marks), id)
  {
    var id := PageId(f, NextAlloc(p.disk.pages, f));
    AllocPageLaw(p, f);
    Spared(UnPins(AllocPage(p, f), id, marks), id);
  }

  /** What is written into a page that was not cached before reaches the disk with its frame exactly when somebody
      who gives it back says so. */
  lemma MarkDecides(p: Pool, id: PageId, page: DiskPage, marks: seq<bool>)
    requires Ok(p) && ReadStatus(p, id) == OK && id !in p.index
    ensures var q := ReadPage(p, id);
            && id in q.index && 0 <= q.index[id] < |q.table| == |q.frames| && 0 <= q.hand < |q.table|
            && var r := UnPins(Poke(q, id, page), id, marks);
            (!Exhausted(r) && Take(r).hand == r.index[id] ==>
               Take(r).disk == if true in marks then Write(q.disk, id, page) else q.disk)
  {
    TakeOk(p);
  }

  /** Unless all frames that are not pinned have their bit set, the page is still in its frame after the
      next allocBuf. */
  lemma SecondChanceKeeps(r: Pool, id: PageId, i: int)
    requires Ok(r) && SecondChance(r, id) && !Exhausted(r)
    requires 0 <= i < |r.table| && Available(r.table[i]) && (r.table[i].valid ==> !r.table[i].refbit)
    ensures id in Take(r).index && Take(r).index[id] == r.index[id]
  {
    VictimFree(r);
  }

  // ----- flushFile -----

  function WriteBack(p: Pool, i: int): Pool
    requires 0 <= i < |p.table| == |p.frames|
  {
    var d := p.table[i];
    if d.dirty then
      p.(disk := Write(p.disk, d.id, p.frames[i]), table := p.table[i := d.(dirty := false)])
    else p
  }

  function Drop(p: Pool, i: int): Pool
    requires 0 <= i < |p.table|
  {
    var d := p.table[i];
    p.(index := p.index - {d.id}, table := p.table[i := d.(id := NO_PAGE, valid := false)])
  }

  /** flushFile writes back and drops one unpinned frame of the file. */
  function FlushFrame(p: Pool, i: int): Pool
    requires 0 <= i < |p.table| == |p.frames|
  {
    Drop(WriteBack(p, i), i)
  }

  /** flushFile having passed the first m frames, none of which is a pinned frame of the file. */
  function Flushed(p: Pool, f: int, m: nat): (q: Pool)
    requires m <= |p.table| == |p.frames|
    ensures |q.table| == |p.table| && q.frames == p.frames && q.hand == p.hand
    ensures forall i :: m <= i < |p.table| ==> q.table[i] == p.table[i]
  {
    if m == 0 then p
    else
      var q := Flushed(p, f, m - 1);
      if q.table[m - 1].valid && q.table[m - 1].id.file == f then FlushFrame(q, m - 1) else q
  }

  predicate PinnedOf(d: BufDesc, f: int) {
    d.valid && d.id.file == f && d.pinCnt > 0
  }

  /** The frame at which flushFile stops: the first pinned one of the file. */
  function FlushStop(t: seq<BufDesc>, f: int, i: nat): (r: nat)
    requires i <= |t|
    ensures i <= r <= |t|
    ensures r < |t| ==> PinnedOf(t[r], f)
    ensures forall j :: i <= j < r ==> !PinnedOf(t[j], f)
    decreases |t| - i
  {
    if i < |t| && !PinnedOf(t[i], f) then FlushStop(t, f, i + 1) else i
  }

  lemma WriteBackLaw(p: Pool, i: int)
    requires Ok(p) && 0 <= i < |p.table| && p.table[i].valid
    ensures var q := WriteBack(p, i);
            && Ok(q) && SameContent(p, q) && KeepsPinned(p, q) && !q.table[i].dirty
            && (forall x :: Pins(q, x) == Pins(p, x))
  {
    hide DiskOk, FileOk;
    var q := WriteBack(p, i);
    var d := p.table[i];
    assert FrameOk(p, i);
    if d.dirty {
      WriteLaw(p.disk, d.id, p.frames[i]);
      forall j | 0 <= j < |q.table|
        ensures FrameOk(q, j)
      {
        assert FrameOk(p, j);
      }
    }
  }

  lemma DropLaw(p: Pool, i: int)
    requires Ok(p) && 0 <= i < |p.table| && p.table[i].valid && p.table[i].pinCnt == 0 && !p.table[i].dirty
    ensures var q := Drop(p, i);
            && Ok(q) && SameContent(p, q) && KeepsPinned(p, q)
            && (forall x :: Pins(q, x) == Pins(p, x))
  {
    var q := Drop(p, i);
    assert FrameOk(p, i);
    forall j | 0 <= j < |q.table|
      ensures FrameOk(q, j)
    {
      assert FrameOk(p, j);
    }
  }

  lemma FlushFrameLaw(p: Pool, i: int)
    requires Ok(p) && 0 <= i < |p.table| && p.table[i].valid && p.table[i].pinCnt == 0
    ensures var q := FlushFrame(p, i);
            && Ok(q) && SameContent(p, q) && KeepsPinned(p, q)
            && (forall x :: Pins(q, x) == Pins(p, x))
  {
    WriteBackLaw(p, i);
    var q := WriteBack(p, i);
    DropLaw(q, i);
    Compose(p, q, FlushFrame(p, i));
  }

  lemma FlushFrameTable(p: Pool, i: int)
    requires 0 <= i < |p.table| == |p.frames|
    ensures FlushFrame(p, i).table == p.table[i := FlushFrame(p, i).table[i]] && !FlushFrame(p, i).table[i].valid
  {}

  /** q has the contents and pins of p, and no page of file f in its first m frames. */
  ghost predicate PassedFrames(p: Pool, f: int, m: nat, q: Pool) {
    && Ok(q) && SameContent(p, q) && KeepsPinned(p, q)
    && (forall x :: Pins(q, x) == Pins(p, x))
    && (forall i :: 0 <= i < m && i < |q.table| && q.table[i].valid ==> q.table[i].id.file != f)
  }

  lemma PassNone(p: Pool, f: int)
    requires Ok(p)
    ensures PassedFrames(p, f, 0, p)
  {
    forall id | Pins(p, id) > 0 ensures Kept(p, p, id) {
      assert id in p.index;
    }
  }

  lemma PassFrame(p: Pool, f: int, m: nat, q: Pool)
    requires Ok(p) && PassedFrames(p, f, m, q) && m < |q.table| && !PinnedOf(q.table[m], f)
    ensures PassedFrames(p, f, m + 1, if q.table[m].valid && q.table[m].id.file == f then FlushFrame(q, m) else q)
  {
    hide DiskOk, IndexOk, Kept, Logical, Owes, SameContent, KeepsPinned, Pins, FlushFrame;
    assert FrameOk(q, m);
    if q.table[m].valid && q.table[m].id.file == f {
      FlushFrameLaw(q, m);
      FlushFrameTable(q, m);
      Compose(p, q, FlushFrame(q, m));
    }
  }

  /** However far flushFile gets, no content changes and no pin is lost, and the frames it has passed
      hold no page of the file. */
  lemma {:induction false} FlushedLaw(p: Pool, f: int, m: nat)
    requires Ok(p) && m <= FlushStop(p.table, f, 0)
    ensures PassedFrames(p, f, m, Flushed(p, f, m))
  {
    assert |p.table| == |p.frames|;
    hide Ok, PassedFrames, FlushFrame, FrameOk, FlushStop;
    if m == 0 {
      PassNone(p, f);
    } else {
      FlushedLaw(p, f, m - 1);
      PassFrame(p, f, m - 1, Flushed(p, f, m - 1));
    }
  }

  /** No page has entered the pool. */
  ghost predicate Shrunk(p: Pool, q: Pool) {
    forall id :: id in q.index ==> id in p.index
  }

  lemma {:induction false} FlushedShrinks(p: Pool, f: int, m: nat)
    requires m <= |p.table| == |p.frames|
    ensures Shrunk(p, Flushed(p, f, m))
  {
    if m > 0 {
      FlushedShrinks(p, f, m - 1);
    }
  }

  /** A completed flushFile leaves every page of the file on disk as its clients last saw it. */
  lemma FlushFileDurable(p: Pool, f: int, id: PageId)
    requires Ok(p) && FlushStop(p.table, f, 0) == |p.table|
    requires InUse(p.disk, id) && id.file == f
    ensures var q := Flushed(p, f, |p.table|);
            id !in q.index && InUse(q.disk, id) && q.disk.pages[id] == Logical(p, id)
  {
    FlushedLaw(p, f, |p.table|);
    var q := Flushed(p, f, |p.table|);
  }

  // ----- disposePage -----

  /** disposePage first forgets the frame of the page, whatever it holds. */
  function Forget(p: Pool, id: PageId): Pool
    requires id in p.index ==> 0 <= p.index[id] < |p.table|
  {
    if id in p.index then
      p.(table := p.table[p.index[id] := ClearDesc(p.table[p.index[id]])], index := p.index - {id})
    else p
  }

  ghost function DisposePage(p: Pool, id: PageId): Pool
    requires Ok(p) && id.file in p.disk.free && HasHeader(p.disk.pages, id.file)
  {
    var q := Forget(p, id);
    if Disposable(p.disk.pages, id) then q.(disk := DiskSpec.Dispose(p.disk, id)) else q
  }

  lemma ForgetLaw(p: Pool, id: PageId)
    requires Ok(p) && InUse(p.disk, id)
    ensures var q := Forget(p, id);
            && Ok(q) && id !in q.index
            && (forall x :: InUse(p.disk, x) && x != id ==> Logical(q, x) == Logical(p, x))
            && (forall x :: Pins(q, x) == if x == id then 0 else Pins(p, x))
            && (forall x :: Pins(p, x) > 0 && x != id ==> Kept(p, q, x))
  {
    var q := Forget(p, id);
    forall j | 0 <= j < |q.table|
      ensures FrameOk(q, j)
    {
      assert FrameOk(p, j);
    }
  }

  lemma LessDiskOk(p: Pool, disk: Disk, id: PageId)
    requires Ok(p) && DiskOk(disk) && id !in p.index
    requires forall x :: InUse(p.disk, x) && x != id ==> InUse(disk, x) && disk.pages[x] == p.disk.pages[x]
    ensures var q := p.(disk := disk);
            && Ok(q) && KeepsPinned(p, q)
            && (forall x :: InUse(p.disk, x) && x != id ==> Logical(q, x) == Logical(p, x))
  {
    var q := p.(disk := disk);
    forall i | 0 <= i < |q.table|
      ensures FrameOk(q, i)
    {
      assert FrameOk(p, i);
    }
    forall x | Pins(p, x) > 0 ensures Kept(p, q, x) {
      assert FrameOk(p, p.index[x]);
    }
  }

  /** disposePage takes one page out of use and changes the content of no other. */
  lemma DisposePageLaw(p: Pool, id: PageId)
    requires Ok(p) && InUse(p.disk, id) && HasHeader(p.disk.pages, id.file)
    requires Disposable(p.disk.pages, id)
    ensures var q := DisposePage(p, id);
            && Ok(q)
            && (forall x :: InUse(q.disk, x) <==> InUse(p.disk, x) && x != id)
            && (forall x :: InUse(q.disk, x) ==> Logical(q, x) == Logical(p, x))
            && (forall x :: Pins(q, x) == if x == id then 0 else Pins(p, x))
  {
    ForgetLaw(p, id);
    DisposeLaw(p.disk, id);
    LessDiskOk(Forget(p, id), DiskSpec.Dispose(p.disk, id), id);
  }

  /** When the file refuses (the first page), the frame is gone all the same: the page reads as its disk copy,
      so nothing is lost exactly when the two agreed. */
  lemma RefusedDisposeKeepsContentIff(p: Pool, id: PageId)
    requires Ok(p) && InUse(p.disk, id) && HasHeader(p.disk.pages, id.file)
    requires !Disposable(p.disk.pages, id)
    ensures Ok(DisposePage(p, id))
    ensures SameContent(p, DisposePage(p, id)) <==> (id in p.index ==> p.frames[p.index[id]] == p.disk.pages[id])
  {
    ForgetLaw(p, id);
    var q := DisposePage(p, id);
    assert Logical(q, id) == p.disk.pages[id];
  }

  /** Whatever the bytes in its frame, refusing to dispose of the page would lose none of them. */
  ghost predicate SafeRefusal(p: Pool, id: PageId)
    requires Ok(p) && id.file in p.disk.free && HasHeader(p.disk.pages, id.file)
  {
    forall page :: id in p.index ==>
      (var q := Poke(p, id, page); Ok(q) ==> SameContent(q, DisposePage(q, id)))
  }

  /** What a caller can know beforehand: the refusal is safe exactly when the page is in no frame or in one that is
      unpinned and clean. */
  lemma RefusalSafeIffClean(p: Pool, id: PageId)
    requires Ok(p) && InUse(p.disk, id) && HasHeader(p.disk.pages, id.file)
    requires !Disposable(p.disk.pages, id)
    ensures id in p.index ==> 0 <= p.index[id] < |p.table|
    ensures SafeRefusal(p, id) <==> (id in p.index ==> p.table[p.index[id]].pinCnt == 0 && !p.table[p.index[id]].dirty)
  {
    if id in p.index {
      var d := p.table[p.index[id]];
      assert FrameOk(p, p.index[id]);
      if d.pinCnt == 0 && !d.dirty {
        forall page ensures var q := Poke(p, id, page); Ok(q) ==> SameContent(q, DisposePage(q, id)) {
          if Ok(Poke(p, id, page)) {
            assert FrameOk(Poke(p, id, page), p.index[id]);
            RefusedDisposeKeepsContentIff(Poke(p, id, page), id);
          }
        }
      } else {
        var q := Poke(p, id, if p.disk.pages[id] == Blank then FreePage(-1) else Blank);
        PokedOk(p, id, q.frames[p.index[id]]);
        RefusedDisposeKeepsContentIff(q, id);
      }
    }
  }

  lemma PokedOk(p: Pool, id: PageId, page: DiskPage)
    requires Ok(p) && id in p.index
    ensures 0 <= p.index[id] < |p.table| == |p.frames|
    ensures p.table[p.index[id]].pinCnt != 0 || p.table[p.index[id]].dirty ==> Ok(Poke(p, id, page))
  {
    assert FrameOk(p, p.index[id]);
    if p.table[p.index[id]].pinCnt != 0 || p.table[p.index[id]].dirty {
      var q := Poke(p, id, page);
      forall i | 0 <= i < |q.table| ensures FrameOk(q, i) {
        assert FrameOk(p, i);
      }
    }
  }

  // ----- ~BufMgr -----

  /** The disk after the destructor has written the valid dirty frames among the first m. */
  function WrittenOut(p: Pool, m: nat): Disk
    requires m <= |p.table| == |p.frames|
  {
    if m == 0 then p.disk
    else
      var d := p.table[m - 1];
      if d.valid && d.dirty then Write(WrittenOut(p, m - 1), d.id, p.frames[m - 1]) else WrittenOut(p, m - 1)
  }

  lemma {:induction false} WrittenOutOk(p: Pool, m: nat)
    requires Ok(p) && m <= |p.table|
    ensures DiskOk(WrittenOut(p, m))
    ensures forall id :: InUse(WrittenOut(p, m), id) <==> InUse(p.disk, id)
  {
    if m > 0 {
      WrittenOutOk(p, m - 1);
      var d := p.table[m - 1];
      assert FrameOk(p, m - 1);
      if d.valid && d.dirty {
        WriteLaw(WrittenOut(p, m - 1), d.id, p.frames[m - 1]);
      }
    }
  }

  predicate HeldIn(p: Pool, i: int, id: PageId)
    requires 0 <= i < |p.table|
  {
    p.table[i].valid && p.table[i].id == id
  }

  lemma HeldInIffIndexed(p: Pool, id: PageId)
    requires Ok(p)
    ensures forall i :: 0 <= i < |p.table| ==> (HeldIn(p, i, id) <==> id in p.index && p.index[id] == i)
  {
    forall i | 0 <= i < |p.table|
      ensures HeldIn(p, i, id) <==> id in p.index && p.index[id] == i
    {
      assert FrameOk(p, i);
    }
  }

  lemma {:induction false} WrittenOutPage(p: Pool, m: nat, id: PageId)
    requires m <= |p.table| == |p.frames| && id in p.disk.pages
    requires forall i :: 0 <= i < |p.table| ==> (HeldIn(p, i, id) <==> id in p.index && p.index[id] == i)
    requires id in p.index ==> 0 <= p.index[id] < |p.table|
    ensures id in WrittenOut(p, m).pages
    ensures WrittenOut(p, m).pages[id] ==
            if id in p.index && p.index[id] < m && p.table[p.index[id]].dirty then p.frames[p.index[id]]
            else p.disk.pages[id]
  {
    if m > 0 {
      WrittenOutPage(p, m - 1, id);
      assert HeldIn(p, m - 1, id) <==> id in p.index && p.index[id] == m - 1;
    }
  }

  /** Shutting the pool down loses nothing but changes whose holders have not unpinned them dirty. */
  lemma ShutdownDurable(p: Pool, id: PageId)
    requires Ok(p) && InUse(p.disk, id)
    ensures InUse(WrittenOut(p, |p.table|), id)
    ensures WrittenOut(p, |p.table|).pages[id] == Logical(p, id) <==> !Owes(p, id)
  {
    WrittenOutOk(p, |p.table|);
    HeldInIffIndexed(p, id);
    WrittenOutPage(p, |p.table|, id);
  }

  // ----- the parts of the laws that the methods of BufMgr need -----

  /** A frame has been taken from a page for one that cannot be read: its descriptor still names the old page. */
  ghost predicate Orphans(p: Pool, id: PageId)
    requires Ok(p)
  {
    && id !in p.index
    && !Exhausted(p)
    && ReadError(p.disk, id) != OK
    && p.table[FrameAt(|p.table|, p.hand, Victim(p))].valid
  }

  /** A page that is on the free list is read into the pool. */
  ghost predicate ReadsFree(p: Pool, id: PageId)
    requires Ok(p)
  {
    !Exhausted(p) && ReadError(p.disk, id) == OK && !InUse(p.disk, id)
  }

  lemma TakeOkIff(p: Pool)
    requires Ok(p) && !Exhausted(p)
    ensures Ok(Take(p)) <==> !p.table[FrameAt(|p.table|, p.hand, Victim(p))].valid
  {
    hide DiskOk, FirstCandidate, InUse;
    TakeOk(p);
    var q := Take(p);
    assert FrameOk(p, q.hand);
    if Ok(q) || !q.table[q.hand].valid {
      assert FrameOk(q, q.hand);
    }
  }

  /** readPage keeps the invariant exactly when it neither reads a free page nor orphans a frame. */
  lemma ReadOkIff(p: Pool, id: PageId)
    requires Ok(p)
    ensures Ok(ReadPage(p, id)) <==> !Orphans(p, id) && !ReadsFree(p, id)
    ensures id in p.index ==> 0 <= p.index[id] < |p.table|
    ensures id !in p.index && !Exhausted(p) ==> ReadError(Take(p).disk, id) == ReadError(p.disk, id)
    ensures InUse(p.disk, id) ==> Ok(ReadPage(p, id)) && ReadError(p.disk, id) == OK
  {
    if id in p.index {
      assert FrameOk(p, p.index[id]);
      ReadLaw(p, id);
    } else if Exhausted(p) {
      GiveUpOk(p);
    } else {
      TakeOk(p);
      TakeOkIff(p);
      if InUse(p.disk, id) {
        ReadLaw(p, id);
      } else if ReadError(p.disk, id) == OK {
        assert !FrameOk(ReadPage(p, id), Take(p).hand);
      }
    }
  }

  /** The last holder of a changed page gives it back without saying so. */
  ghost predicate LosesChange(p: Pool, id: PageId, dirty: bool) {
    Pins(p, id) == 1 && !dirty && Owes(p, id)
  }

  /** unPinPage keeps the invariant of the pool exactly when it loses no change. */
  lemma UnPinOkIff(p: Pool, id: PageId, dirty: bool)
    requires Ok(p)
    ensures id in p.index ==> 0 <= p.index[id] < |p.table|
    ensures Ok(UnPin(p, id, dirty)) <==> !LosesChange(p, id, dirty)
  {
    if LosesChange(p, id, dirty) {
      assert !FrameOk(UnPin(p, id, dirty), p.index[id]);
    } else {
      UnPinLaw(p, id, dirty);
    }
  }

  lemma AllocOk(p: Pool, f: int)
    requires Ok(p) && f in p.disk.free
    ensures HasHeader(p.disk.pages, f)
    ensures var q := p.(disk := Alloc(p.disk, f)); Ok(q) && Exhausted(q) == Exhausted(p)
    ensures PageId(f, NextAlloc(p.disk.pages, f)) !in p.index
    ensures Ok(AllocPage(p, f))
  {
    NewPageOk(p, f);
    AllocPageLaw(p, f);
  }

  lemma FlushedOk(p: Pool, f: int, m: nat)
    requires Ok(p) && m <= FlushStop(p.table, f, 0)
    ensures Ok(Flushed(p, f, m))
  {
    FlushedLaw(p, f, m);
  }

  lemma FlushNext(p: Pool, f: int, m: nat)
    requires Ok(p) && m <= FlushStop(p.table, f, 0) && m < |p.table| && f != NO_PAGE.file
    ensures var d := Flushed(p, f, m).table[m];
            && (d.valid ==> InUse(Flushed(p, f, m).disk, d.id))
            && (!d.valid ==> d.id.file != f)
            && (d.valid && d.id.file == f && d.pinCnt > 0 <==> m == FlushStop(p.table, f, 0))
  {
    FlushedLaw(p, f, m);
    assert FrameOk(Flushed(p, f, m), m);
    assert PinnedOf(p.table[m], f) <==> m == FlushStop(p.table, f, 0);
  }

  /** A page that is on the free list is given to the file once more, which the file does not notice. */
  ghost predicate DoubleFree(d: Disk, id: PageId)
    requires id.file in d.free && HasHeader(d.pages, id.file)
  {
    Disposable(d.pages, id) && id.pageNo in d.free[id.file]
  }

  /** disposePage keeps the invariant exactly when it does not free a page twice. */
  lemma DisposeOkIff(p: Pool, id: PageId)
    requires Ok(p) && id.file in p.disk.free && HasHeader(p.disk.pages, id.file)
    ensures id in p.index ==> 0 <= p.index[id] < |p.table|
    ensures Ok(DisposePage(p, id)) <==> !DoubleFree(p.disk, id)
  {
    assert FileOk(p.disk.pages, id.file, p.disk.free[id.file]);
    if InUse(p.disk, id) {
      ForgetLaw(p, id);
      if Disposable(p.disk.pages, id) {
        DisposePageLaw(p, id);
      }
    } else {
      if id in p.index {
        CachedInUse(p, id);
      }
      if Disposable(p.disk.pages, id) {
        DisposeOkIffNotFree(p.disk, id);
      }
    }
  }

  /** Set overwrites the whole descriptor, so the two versions of allocBuf lead to the same pool. */
  lemma Phase3SamePool(p: Pool, id: PageId, page: DiskPage)
    requires 0 <= p.hand < |p.table| == |p.frames|
    ensures Install(Cleaned(p), id, page) == Install(p, id, page)
  {
    assert p.table[p.hand := p.table[p.hand].(dirty := false)][p.hand := SetDesc(id)] == p.table[p.hand := SetDesc(id)];
  }
}
