/** Whole sessions on heap files: what opening, using and closing them leaves of the pool, also with two files
    open at once. */
module HeapSessions {
  import opened Statuses
  import opened DiskSpec
  import opened Clock
  import opened PoolSpec
  import opened HeapSpec
  import opened HeapPool

  /** Nobody has a data page of the file pinned. */
  ghost predicate Unpinned(p: Pool, f: int, chain: seq<int>) {
    forall i :: 0 <= i < |chain| ==> Pins(p, PageId(f, chain[i])) == 0
  }

  /** Every page has as many pins in q as in p. */
  ghost predicate SamePins(p: Pool, q: Pool) {
    forall id :: Pins(q, id) == Pins(p, id)
  }

  lemma OpenedExclusive(p: Pool, f: int, q: Pool, hd: Handle, h: Heap)
    requires Unpinned(p, f, h.chain) && Quiet(p, Closed(f, h.hdrNo), q, hd)
    ensures Exclusive(q, hd, h.chain)
  {
    forall i | 0 <= i < |h.chain|
      ensures Pins(q, PageId(f, h.chain[i])) == Own(hd, PageId(f, h.chain[i]))
    {
      var id := PageId(f, h.chain[i]);
      assert Pins(q, id) - Own(hd, id) == Pins(p, id) - Own(Closed(f, h.hdrNo), id);
    }
  }

  lemma ClosedSamePins(p: Pool, f: int, hdrNo: int, q: Pool, dirty: bool)
    requires Quiet(p, Closed(f, hdrNo), q, Closed(f, hdrNo).(hdrDirty := dirty))
    ensures SamePins(p, q)
  {
    forall id ensures Pins(q, id) == Pins(p, id) {
      assert Pins(q, id) - Own(Closed(f, hdrNo).(hdrDirty := dirty), id) == Pins(p, id) - Own(Closed(f, hdrNo), id);
    }
  }

  lemma CloseLaw(p: Pool, a: Handle, q: Pool, b: Handle, r: Pool, c: Handle)
    requires Quiet(p, a, q, b) && Unseen(q, b, r, c)
    ensures Quiet(p, a, r, c)
  {
    QuietCompose(p, a, q, b, r, c);
  }

  // ----- several files open at once -----

  /** The pins that several heap file objects have on a page. */
  function Owns(hs: seq<Handle>, id: PageId): int {
    if hs == [] then 0 else Own(hs[0], id) + Owns(hs[1..], id)
  }

  ghost predicate NoneOf(hs: seq<Handle>, f: int) {
    forall i :: 0 <= i < |hs| ==> hs[i].file != f
  }

  /** Since p the heap file objects hs together have changed no pins but their own and no content of any other file,
      and they have not moved its pinned pages. */
  ghost predicate Session(p: Pool, q: Pool, hs: seq<Handle>) {
    && (forall id :: Pins(q, id) == Pins(p, id) + Owns(hs, id))
    && (forall id: PageId :: NoneOf(hs, id.file) && Pins(p, id) > 0 ==> Kept(p, q, id))
    && (forall id: PageId, page :: NoneOf(hs, id.file) && Has(p, id, page) ==> Has(q, id, page))
  }

  lemma {:induction false} OwnsUpdate(hs: seq<Handle>, k: nat, hd: Handle, id: PageId)
    requires k < |hs|
    ensures Owns(hs[k := hd], id) == Owns(hs, id) - Own(hs[k], id) + Own(hd, id)
  {
    if k > 0 {
      assert hs[k := hd][1..] == hs[1..][k - 1 := hd];
      OwnsUpdate(hs[1..], k - 1, hd, id);
    } else {
      assert hs[0 := hd][1..] == hs[1..];
    }
  }

  lemma {:induction false} OwnsNothing(hs: seq<Handle>, id: PageId)
    requires NoneOf(hs, id.file)
    ensures Owns(hs, id) == 0
  {
    if hs != [] {
      assert forall i :: 0 <= i < |hs[1..]| ==> hs[1..][i] == hs[i + 1];
      OwnsNothing(hs[1..], id);
    }
  }

  lemma {:induction false} OwnsClosed(hs: seq<Handle>, id: PageId)
    requires forall i :: 0 <= i < |hs| ==> !hs[i].HasHdr() && !hs[i].HasCur()
    ensures Owns(hs, id) == 0
  {
    if hs != [] {
      assert forall i :: 0 <= i < |hs[1..]| ==> hs[1..][i] == hs[i + 1];
      OwnsClosed(hs[1..], id);
    }
  }

  /** Objects that have not pinned anything yet start a session. */
  lemma SessionStart(p: Pool, hs: seq<Handle>)
    requires Ok(p)
    requires forall i :: 0 <= i < |hs| ==> !hs[i].HasHdr() && !hs[i].HasCur()
    ensures Session(p, p, hs)
  {
    forall id ensures Owns(hs, id) == 0 {
      OwnsClosed(hs, id);
    }
    forall id | Pins(p, id) > 0 ensures Kept(p, p, id) {}
  }

  /** One of them works on its file. */
  lemma SessionStep(p: Pool, q: Pool, hs: seq<Handle>, k: nat, r: Pool, hd: Handle)
    requires Session(p, q, hs) && k < |hs| && Quiet(q, hs[k], r, hd)
    ensures Session(p, r, hs[k := hd])
  {
    var hs' := hs[k := hd];
    forall id ensures Pins(r, id) == Pins(p, id) + Owns(hs', id) {
      OwnsUpdate(hs, k, hd, id);
      assert Pins(r, id) - Own(hd, id) == Pins(q, id) - Own(hs[k], id);
    }
    forall id: PageId, page | NoneOf(hs', id.file) && Has(p, id, page) ensures Has(r, id, page) {
      assert hs'[k].file != id.file;
      assert forall i :: 0 <= i < |hs| ==> hs[i].file == hs'[i].file;
      assert Has(q, id, page);
    }
    forall id: PageId | NoneOf(hs', id.file) && Pins(p, id) > 0 ensures Kept(p, r, id) {
      assert hs'[k].file != id.file;
      assert forall i :: 0 <= i < |hs| ==> hs[i].file == hs'[i].file;
      OwnsNothing(hs, id);
      assert Kept(p, q, id) && Kept(q, r, id);
    }
  }

  /** After all are closed every page has its old pins. */
  lemma SessionEnd(p: Pool, q: Pool, hs: seq<Handle>)
    requires Session(p, q, hs) && forall i :: 0 <= i < |hs| ==> !hs[i].HasHdr() && !hs[i].HasCur()
    ensures SamePins(p, q)
  {
    forall id ensures Pins(q, id) == Pins(p, id) {
      OwnsClosed(hs, id);
    }
  }

  /** The only object on a file that was idle is its only user. */
  lemma SessionSole(p: Pool, q: Pool, hs: seq<Handle>, k: nat)
    requires Session(p, q, hs) && k < |hs| && Idle(p, hs[k].file)
    requires forall i :: 0 <= i < |hs| && i != k ==> hs[i].file != hs[k].file
    ensures SoleUser(q, hs[k])
  {
    forall id: PageId | id.file == hs[k].file ensures Pins(q, id) == Own(hs[k], id) {
      OwnsOnly(hs, k, id);
    }
  }

  lemma {:induction false} OwnsOnly(hs: seq<Handle>, k: nat, id: PageId)
    requires k < |hs| && forall i :: 0 <= i < |hs| && i != k ==> hs[i].file != id.file
    ensures Owns(hs, id) == Own(hs[k], id)
  {
    assert forall i :: 0 <= i < |hs[1..]| ==> hs[1..][i] == hs[i + 1];
    if k > 0 {
      OwnsOnly(hs[1..], k - 1, id);
    } else {
      OwnsNothing(hs[1..], id);
    }
  }

  /** The pages that the objects may hold. */
  function Gripped(hs: seq<Handle>): (r: set<PageId>)
    ensures |r| <= 2 * |hs|
  {
    if hs == [] then {} else {hs[0].HdrId(), hs[0].CurId()} + Gripped(hs[1..])
  }

  lemma {:induction false} OwnedIsGripped(hs: seq<Handle>, id: PageId)
    requires Owns(hs, id) > 0
    ensures id in Gripped(hs)
  {
    if Own(hs[0], id) <= 0 {
      OwnedIsGripped(hs[1..], id);
    }
  }

  /** A session on n files pins at most 2 * n more pages. */
  lemma SessionPins(p: Pool, q: Pool, hs: seq<Handle>)
    requires Ok(p) && Session(p, q, hs)
    ensures |PinnedPages(q)| <= |PinnedPages(p)| + 2 * |hs|
  {
    forall id | id in PinnedPages(q) ensures id in PinnedPages(p) + Gripped(hs) {
      assert Pins(q, id) == Pins(p, id) + Owns(hs, id);
      if Owns(hs, id) > 0 {
        OwnedIsGripped(hs, id);
      }
    }
    Subset(PinnedPages(q), PinnedPages(p) + Gripped(hs));
  }

  /** So one frame more than that is room to grow one of them. */
  lemma RoomToGrow(p: Pool, q: Pool, hs: seq<Handle>)
    requires Ok(p) && Ok(q) && Session(p, q, hs) && |PinnedPages(p)| + 2 * |hs| < |q.table|
    ensures !Exhausted(q)
  {
    SessionPins(p, q, hs);
    NotFull(q);
  }

  lemma SessionOwes(p: Pool, q: Pool, hs: seq<Handle>, id: PageId)
    requires Ok(q) && Session(p, q, hs) && NoneOf(hs, id.file) && !Owes(p, id)
    ensures !Owes(q, id)
  {
    OwnsNothing(hs, id);
    if Pins(q, id) <= 0 {
      UnpinnedOwesNothing(q, id);
    } else {
      assert Kept(p, q, id);
    }
  }

  /** A session does not touch a file that none of its objects is on. */
  lemma SessionSettled(p: Pool, q: Pool, hs: seq<Handle>, f: int, h: Heap)
    requires Ok(q) && Session(p, q, hs) && NoneOf(hs, f) && Settled(p, f, h)
    ensures Settled(q, f, h)
  {
    SessionOwes(p, q, hs, PageId(f, h.hdrNo));
    forall i | 0 <= i < |h.chain| ensures !Owes(q, PageId(f, h.chain[i])) {
      SessionOwes(p, q, hs, PageId(f, h.chain[i]));
    }
  }

  lemma OtherFileOwes(p: Pool, hd: Handle, q: Pool, hd': Handle, id: PageId)
    requires Ok(q) && Quiet(p, hd, q, hd') && id.file != hd.file && !Owes(p, id)
    ensures !Owes(q, id)
  {
    assert Pins(q, id) - Own(hd', id) == Pins(p, id) - Own(hd, id);
    if Pins(q, id) <= 0 {
      UnpinnedOwesNothing(q, id);
    } else {
      assert Kept(p, q, id);
    }
  }

  /** Nor does a heap file notice that is not open. */
  lemma OtherFileSettled(p: Pool, hd: Handle, q: Pool, hd': Handle, f: int, h: Heap)
    requires Ok(q) && Quiet(p, hd, q, hd') && f != hd.file && Settled(p, f, h)
    ensures Settled(q, f, h)
  {
    OtherFileOwes(p, hd, q, hd', PageId(f, h.hdrNo));
    forall i | 0 <= i < |h.chain| ensures !Owes(q, PageId(f, h.chain[i])) {
      OtherFileOwes(p, hd, q, hd', PageId(f, h.chain[i]));
    }
  }

  lemma OtherFilePins(p: Pool, hd: Handle, q: Pool, hd': Handle, id: PageId)
    requires Quiet(p, hd, q, hd') && id.file != hd.file
    ensures Pins(q, id) == Pins(p, id)
  {
    assert Pins(q, id) - Own(hd', id) == Pins(p, id) - Own(hd, id);
  }

  lemma OtherFileExclusive(p: Pool, hd: Handle, q: Pool, hd': Handle, other: Handle, chain: seq<int>)
    requires Quiet(p, hd, q, hd') && other.file != hd.file && Exclusive(p, other, chain)
    ensures Exclusive(q, other, chain)
  {
    forall i | 0 <= i < |chain|
      ensures Pins(q, PageId(other.file, chain[i])) == Own(other, PageId(other.file, chain[i]))
    {
      OtherFilePins(p, hd, q, hd', PageId(other.file, chain[i]));
    }
  }

  lemma OtherFileUnpinned(p: Pool, hd: Handle, q: Pool, hd': Handle, f: int, chain: seq<int>)
    requires Quiet(p, hd, q, hd') && f != hd.file && Unpinned(p, f, chain)
    ensures Unpinned(q, f, chain)
  {
    forall i | 0 <= i < |chain| ensures Pins(q, PageId(f, chain[i])) == 0 {
      OtherFilePins(p, hd, q, hd', PageId(f, chain[i]));
    }
  }

  // ----- room in the pool -----

  ghost function PinnedPages(p: Pool): set<PageId> {
    set id | id in p.index && Pins(p, id) > 0
  }

  /** How many of the first n frames can be taken. */
  function FreeFrames(t: seq<BufDesc>, n: nat): nat
    requires n <= |t|
  {
    if n == 0 then 0 else FreeFrames(t, n - 1) + if Available(t[n - 1]) then 1 else 0
  }

  /** The pages in the others. */
  function TakenIds(t: seq<BufDesc>, n: nat): set<PageId>
    requires n <= |t|
  {
    if n == 0 then {} else TakenIds(t, n - 1) + if Available(t[n - 1]) then {} else {t[n - 1].id}
  }

  lemma {:induction false} TakenFrom(t: seq<BufDesc>, n: nat, x: PageId)
    requires n <= |t| && x in TakenIds(t, n)
    ensures exists i :: 0 <= i < n && !Available(t[i]) && t[i].id == x
  {
    if x in TakenIds(t, n - 1) {
      TakenFrom(t, n - 1, x);
    }
  }

  /** No page is in two frames. */
  ghost predicate IdsDiffer(t: seq<BufDesc>) {
    forall i, j :: 0 <= i < j < |t| && !Available(t[i]) && !Available(t[j]) ==> t[i].id != t[j].id
  }

  lemma {:induction false} FramesAddUp(t: seq<BufDesc>, n: nat)
    requires n <= |t| && IdsDiffer(t)
    ensures FreeFrames(t, n) + |TakenIds(t, n)| == n
  {
    hide IdsDiffer, Available;
    if n > 0 {
      FramesAddUp(t, n - 1);
      NextId(t, n);
    }
  }

  lemma NextId(t: seq<BufDesc>, n: nat)
    requires 0 < n <= |t| && IdsDiffer(t)
    ensures |TakenIds(t, n)| == |TakenIds(t, n - 1)| + if Available(t[n - 1]) then 0 else 1
  {
    if !Available(t[n - 1]) && t[n - 1].id in TakenIds(t, n - 1) {
      TakenFrom(t, n - 1, t[n - 1].id);
    }
  }

  /** At least as many frames as are left over by the pinned pages can be taken. */
  lemma EnoughFrames(p: Pool)
    requires Ok(p)
    ensures FreeFrames(p.table, |p.table|) + |PinnedPages(p)| >= |p.table|
  {
    forall i | 0 <= i < |p.table| && !Available(p.table[i])
      ensures p.table[i].id in PinnedPages(p) && p.index[p.table[i].id] == i
    {
      assert FrameOk(p, i);
    }
    FramesAddUp(p.table, |p.table|);
    forall x | x in TakenIds(p.table, |p.table|) ensures x in PinnedPages(p) {
      TakenFrom(p.table, |p.table|, x);
    }
    Subset(TakenIds(p.table, |p.table|), PinnedPages(p));
  }

  lemma {:induction false} SomeFree(t: seq<BufDesc>, n: nat) returns (i: nat)
    requires n <= |t| && FreeFrames(t, n) >= 1
    ensures i < n && Available(t[i]) && FreeFrames(t, i) + 1 == FreeFrames(t, n)
  {
    if Available(t[n - 1]) {
      i := n - 1;
    } else {
      i := SomeFree(t, n - 1);
    }
  }

  /** A frame more than pinned pages can be taken. */
  lemma NotFull(p: Pool)
    requires Ok(p) && |PinnedPages(p)| < |p.table|
    ensures !Exhausted(p)
  {
    EnoughFrames(p);
    var i := SomeFree(p.table, |p.table|);
    AvailableFrame(p, i);
  }

  /** Every frame is pinned exactly when there are as many pinned pages as frames. */
  lemma FullIffPins(p: Pool)
    requires Ok(p)
    ensures |PinnedPages(p)| <= |p.table|
    ensures Exhausted(p) <==> |PinnedPages(p)| == |p.table|
  {
    PinnedHaveFrames(p);
    EnoughFrames(p);
    if FreeFrames(p.table, |p.table|) >= 1 {
      var i := SomeFree(p.table, |p.table|);
      AvailableFrame(p, i);
    } else {
      NoneFree(p.table, |p.table|);
      NoCandidateIffAllPinned(p.table, p.hand);
    }
  }

  lemma {:induction false} NoneFree(t: seq<BufDesc>, n: nat)
    requires n <= |t| && FreeFrames(t, n) == 0
    ensures forall i :: 0 <= i < n ==> !Available(t[i])
  {
    if n > 0 {
      NoneFree(t, n - 1);
    }
  }

  lemma {:induction false} TakenIdsHas(t: seq<BufDesc>, n: nat, i: nat)
    requires i < n <= |t| && !Available(t[i])
    ensures t[i].id in TakenIds(t, n)
  {
    if i < n - 1 {
      TakenIdsHas(t, n - 1, i);
    }
  }

  /** Every pinned page has a frame of its own that cannot be taken. */
  lemma PinnedHaveFrames(p: Pool)
    requires Ok(p)
    ensures FreeFrames(p.table, |p.table|) + |PinnedPages(p)| <= |p.table|
  {
    forall id | id in PinnedPages(p) ensures id in TakenIds(p.table, |p.table|) {
      assert FrameOk(p, p.index[id]);
      TakenIdsHas(p.table, |p.table|, p.index[id]);
    }
    forall i | 0 <= i < |p.table| && !Available(p.table[i])
      ensures p.table[i].id in p.index && p.index[p.table[i].id] == i
    {
      assert FrameOk(p, i);
    }
    FramesAddUp(p.table, |p.table|);
    Subset(PinnedPages(p), TakenIds(p.table, |p.table|));
  }

  /** A page that nobody has pinned can be read exactly when some frame is not pinned. */
  lemma ReadableIff(p: Pool, id: PageId)
    requires Ok(p) && InUse(p.disk, id) && Pins(p, id) == 0
    ensures 0 <= p.hand < |p.table| && (ReadStatus(p, id) == OK <==> |PinnedPages(p)| < |p.table|)
  {
    FullIffPins(p);
    if id in p.index {
      assert FrameOk(p, p.index[id]);
      AvailableFrame(p, p.index[id]);
    }
  }

  /** A heap file whose pages nobody has pinned can be opened exactly when two frames are not pinned. */
  lemma CanOpenIff(p: Pool, f: int, h: Heap)
    requires Ok(p) && Inv(h) && Settled(p, f, h) && Pins(p, PageId(f, h.hdrNo)) == 0 && Unpinned(p, f, h.chain)
    ensures CanOpen(p, f, h) <==> |PinnedPages(p)| + 2 <= |p.table|
  {
    hide Ok, Inv;
    OpensFile(p, f, h);
    var hdr, first := PageId(f, h.hdrNo), PageId(f, h.chain[0]);
    ReadableIff(p, hdr);
    if ReadStatus(p, hdr) == OK {
      ReadLaw(p, hdr);
      var q := ReadPage(p, hdr);
      OnePinned(p, hdr, q);
      ReadableIff(q, first);
      SameTable(p, hdr);
    }
  }

  lemma OpensFile(p: Pool, f: int, h: Heap)
    requires Inv(h) && Settled(p, f, h)
    ensures h.chain != [] && h.chain[0] != h.hdrNo && InUse(p.disk, PageId(f, h.hdrNo))
    ensures InUse(p.disk, PageId(f, h.chain[0]))
  {
    assert Has(p, PageId(f, h.chain[0]), DataPage(h.pages[0]));
  }

  lemma OnePinned(p: Pool, id: PageId, q: Pool)
    requires Pins(p, id) == 0 && forall x :: Pins(q, x) == Pins(p, x) + if x == id then 1 else 0
    ensures |PinnedPages(q)| == |PinnedPages(p)| + 1
  {
    assert PinnedPages(q) == PinnedPages(p) + {id};
  }

  lemma SameTable(p: Pool, id: PageId)
    requires Ok(p) && InUse(p.disk, id)
    ensures |ReadPage(p, id).table| == |p.table|
  {
    ReadLaw(p, id);
  }

  /** Two frames more than pinned pages are room for two. */
  lemma RoomFromPins(p: Pool)
    requires Ok(p) && |PinnedPages(p)| + 2 <= |p.table|
    ensures RoomForTwo(p)
  {
    EnoughFrames(p);
    var j := SomeFree(p.table, |p.table|);
    var i := SomeFree(p.table, j);
  }

  /** A heap file adds at most its two pages to the pinned ones. */
  lemma PinnedByOpen(p: Pool, hd: Handle, q: Pool, hd': Handle)
    requires Quiet(p, hd, q, hd') && Ok(p)
    ensures |PinnedPages(q)| <= |PinnedPages(p)| + 2
  {
    var more := PinnedPages(p) + {hd'.HdrId(), hd'.CurId()};
    forall id | id in PinnedPages(q) ensures id in more {
      assert Pins(q, id) - Own(hd', id) == Pins(p, id) - Own(hd, id);
    }
    Subset(PinnedPages(q), more);
  }

  lemma {:induction false} Subset(a: set<PageId>, b: set<PageId>)
    requires a <= b
    ensures |a| <= |b|
  {
    if x :| x in a {
      Subset(a - {x}, b - {x});
    }
  }
}
