/** The value of a slotted data page (page.h, page.C): what each operation of the class Page computes,
    and the laws that hold of it. Slot k of the model is slot[-k] of the source. */
module SlottedPage {
  import opened Bytes

  const PAGE_SIZE := 1024
  const DP_FIXED := 20
  const DATA_SIZE: int := PAGE_SIZE - DP_FIXED
  const SLOT_SIZE := 4

  datatype Slot = Slot(offset: int, length: int) {
    predicate Used() { length != -1 }
  }

  const FREE_SLOT := Slot(0, -1)

  datatype PageImage = PageImage(data: seq<byte>, slots: seq<Slot>, freePtr: int, freeSpace: int,
                                 nextPage: int, curPage: int)

  datatype Option<T> = None | Some(value: T)

  // ----- layout invariant -----

  predicate InBounds(s: Slot, freePtr: int) {
    s == FREE_SLOT || (0 <= s.offset && 0 <= s.length && s.offset + s.length <= freePtr)
  }

  /** Two used slots never share a byte. */
  predicate Apart(s: Slot, t: Slot) {
    s.Used() && t.Used() ==> s.offset + s.length <= t.offset || t.offset + t.length <= s.offset
  }

  predicate Covers(s: Slot, x: int) {
    s.Used() && s.offset <= x < s.offset + s.length
  }

  predicate Covered(slots: seq<Slot>, x: int) {
    exists k :: 0 <= k < |slots| && Covers(slots[k], x)
  }

  /** Every byte below freePtr belongs to some used slot. */
  ghost predicate Tiled(slots: seq<Slot>, freePtr: int) {
    forall x :: 0 <= x < freePtr ==> Covered(slots, x)
  }

  predicate Trimmed(slots: seq<Slot>) {
    slots != [] ==> slots[|slots| - 1].Used()
  }

  ghost predicate SlotsOk(slots: seq<Slot>, freePtr: int) {
    && (forall k :: 0 <= k < |slots| ==> InBounds(slots[k], freePtr))
    && (forall j, k :: 0 <= j < k < |slots| ==> Apart(slots[j], slots[k]))
    && Tiled(slots, freePtr)
  }

  ghost predicate Valid(p: PageImage) {
    && |p.data| == DATA_SIZE
    && 0 <= p.freePtr && 0 <= p.freeSpace
    && p.freeSpace + p.freePtr + SLOT_SIZE * |p.slots| == DATA_SIZE
    && SlotsOk(p.slots, p.freePtr)
    && Trimmed(p.slots)
  }

  // ----- contents -----

  predicate HasRec(p: PageImage, k: int) {
    0 <= k < |p.slots| && p.slots[k].Used()
  }

  /** The bytes a slot points at; out of bounds there are none. */
  function Slice(data: seq<byte>, s: Slot): Record {
    if 0 <= s.offset && 0 <= s.length && s.offset + s.length <= |data|
    then data[s.offset..s.offset + s.length] else []
  }

  function RecAt(p: PageImage, k: int): Record
    requires HasRec(p, k)
  {
    Slice(p.data, p.slots[k])
  }

  /** The records of the page by slot number. */
  function Recs(p: PageImage): map<int, Record> {
    map k | 0 <= k < |p.slots| && HasRec(p, k) :: RecAt(p, k)
  }

  // ----- operations -----

  /** Page::init; the data bytes are left as they are. */
  function Init(data: seq<byte>, pageNo: int): PageImage {
    PageImage(data, [], 0, DATA_SIZE, -1, pageNo)
  }

  /** First unused slot at or after i, or the slot count when all are used. */
  function FirstFree(slots: seq<Slot>, i: nat): (r: nat)
    requires i <= |slots|
    ensures i <= r <= |slots|
    ensures r < |slots| ==> !slots[r].Used()
    ensures forall k :: i <= k < r ==> slots[k].Used()
    decreases |slots| - i
  {
    if i < |slots| && slots[i].Used() then FirstFree(slots, i + 1) else i
  }

  /** First used slot at or after i, or the slot count when there is none. */
  function FirstUsed(slots: seq<Slot>, i: nat): (r: nat)
    ensures i <= |slots| ==> i <= r <= |slots|
    ensures r < |slots| ==> slots[r].Used()
    ensures forall k :: i <= k < r && k < |slots| ==> !slots[k].Used()
    ensures i > |slots| ==> r == i
    decreases |slots| - i
  {
    if i < |slots| && !slots[i].Used() then FirstUsed(slots, i + 1) else i
  }

  predicate Fits(p: PageImage, rec: Record) {
    |rec| + SLOT_SIZE <= p.freeSpace
  }

  function InsertSlot(p: PageImage): nat { FirstFree(p.slots, 0) }

  /** The record placed at freePtr and recorded in slot k. */
  function Stored(p: PageImage, k: int, rec: Record): PageImage
    requires 0 <= k <= |p.slots| && 0 <= p.freePtr && p.freePtr + |rec| <= |p.data|
  {
    var s := Slot(p.freePtr, |rec|);
    p.(data := p.data[..p.freePtr] + rec + p.data[p.freePtr + |rec|..],
       slots := if k == |p.slots| then p.slots + [s] else p.slots[k := s],
       freePtr := p.freePtr + |rec|,
       freeSpace := p.freeSpace - |rec| - (if k == |p.slots| then SLOT_SIZE else 0))
  }

  function Insert(p: PageImage, rec: Record): PageImage
    requires Valid(p) && Fits(p, rec)
  {
    Stored(p, InsertSlot(p), rec)
  }

  /** getRecord and deleteRecord accept a slot that is in use and holds at least one byte. */
  predicate Live(p: PageImage, k: int) {
    0 <= k < |p.slots| && p.slots[k].length > 0
  }

  function Shifted(s: Slot, off: int, len: int): Slot {
    if s.length >= 0 && s.offset > off then s.(offset := s.offset - len) else s
  }

  function ShiftAll(slots: seq<Slot>, off: int, len: int): (r: seq<Slot>)
    ensures |r| == |slots|
    ensures forall k :: 0 <= k < |slots| ==> r[k] == Shifted(slots[k], off, len)
  {
    seq(|slots|, k requires 0 <= k < |slots| => Shifted(slots[k], off, len))
  }

  /** The bytes after compaction: those after the hole move left by its length, and what lies
      beyond the new end of the data is whatever was there. */
  function CloseGap(d: seq<byte>, off: int, len: int, end: int): (r: seq<byte>)
    requires 0 <= off && 0 <= len && off + len <= end <= |d|
    ensures |r| == |d|
  {
    d[..off] + d[off + len..end] + d[end - len..]
  }

  /** Drop the unused slots at the end of the slot array. */
  function Trim(slots: seq<Slot>): (r: seq<Slot>)
    ensures |r| <= |slots| && r == slots[..|r|]
    ensures Trimmed(r)
    ensures forall k :: |r| <= k < |slots| ==> !slots[k].Used()
  {
    if slots != [] && !slots[|slots| - 1].Used() then Trim(slots[..|slots| - 1]) else slots
  }

  /** The slot array once slot k is given up. */
  function Freed(slots: seq<Slot>, k: int): seq<Slot>
    requires 0 <= k < |slots|
  {
    if k == |slots| - 1 then Trim(slots[..k]) else slots[k := FREE_SLOT]
  }

  /** The page after the record of slot k is compacted away and the slot given up. */
  function Removed(p: PageImage, k: int): PageImage
    requires 0 <= k < |p.slots|
    requires var s := p.slots[k]; 0 <= s.offset && 0 < s.length && s.offset + s.length <= p.freePtr <= |p.data|
  {
    var off, len := p.slots[k].offset, p.slots[k].length;
    var slots := Freed(ShiftAll(p.slots, off, len), k);
    p.(data := CloseGap(p.data, off, len, p.freePtr),
       slots := slots,
       freePtr := p.freePtr - len,
       freeSpace := p.freeSpace + len + SLOT_SIZE * (|p.slots| - |slots|))
  }

  function Delete(p: PageImage, k: int): PageImage
    requires Valid(p) && Live(p, k)
  {
    assert InBounds(p.slots[k], p.freePtr);
    Removed(p, k)
  }

  /** firstRecord is NextSlot(p, -1). */
  function NextSlot(p: PageImage, cur: int): (r: Option<int>)
    requires -1 <= cur
    ensures r.Some? ==> cur < r.value && HasRec(p, r.value)
    ensures r.Some? ==> forall k :: cur < k < r.value ==> !HasRec(p, k)
    ensures r.None? ==> forall k :: cur < k ==> !HasRec(p, k)
  {
    var k := FirstUsed(p.slots, cur + 1);
    if k < |p.slots| then Some(k) else None
  }

  // ----- laws -----

  lemma InitValid(data: seq<byte>, pageNo: int)
    requires |data| == DATA_SIZE
    ensures Valid(Init(data, pageNo)) && Recs(Init(data, pageNo)) == map[]
  {}

  /** The data grows up to freePtr and never reaches the slot array that grows down from the other end:
      slot k > 0 occupies the SLOT_SIZE bytes that start at DATA_SIZE - SLOT_SIZE * k. */
  lemma SlotArrayClear(p: PageImage, k: int)
    requires Valid(p) && 0 < k < |p.slots|
    ensures p.freePtr <= DATA_SIZE - SLOT_SIZE * k
  {}

  lemma InsertSlotsOk(p: PageImage, rec: Record)
    requires Valid(p) && Fits(p, rec)
    ensures SlotsOk(Insert(p, rec).slots, p.freePtr + |rec|)
  {
    var q := Insert(p, rec);
    var k := InsertSlot(p);
    forall x | 0 <= x < q.freePtr
      ensures Covered(q.slots, x)
    {
      if x < p.freePtr {
        assert Covered(p.slots, x);
        var j :| 0 <= j < |p.slots| && Covers(p.slots[j], x);
        assert q.slots[j] == p.slots[j];
      } else {
        assert Covers(q.slots[k], x);
      }
    }
  }

  lemma SliceKept(a: seq<byte>, b: seq<byte>, n: int, s: Slot)
    requires 0 <= n <= |a| == |b| && a[..n] == b[..n]
    requires 0 <= s.offset && 0 <= s.length && s.offset + s.length <= n
    ensures Slice(b, s) == Slice(a, s)
  {
    assert a[s.offset..s.offset + s.length] == a[..n][s.offset..s.offset + s.length];
    assert b[s.offset..s.offset + s.length] == b[..n][s.offset..s.offset + s.length];
  }

  // ----- the space on a page -----

  /** The bytes of the records in the first n slots. */
  function RecordBytes(p: PageImage, n: nat): nat
    requires n <= |p.slots|
  {
    if n == 0 then 0 else RecordBytes(p, n - 1) + if HasRec(p, n - 1) then |RecAt(p, n - 1)| else 0
  }

  /** Records and slots together, one more of each included, would not go into the 1004 bytes of the data area. */
  predicate Overflows(p: PageImage, len: nat) {
    RecordBytes(p, |p.slots|) + len + 4 * (|p.slots| + 1) > 1004
  }

  function Range(lo: int, len: nat): (r: set<int>)
    ensures |r| == len && forall x :: x in r <==> lo <= x < lo + len
  {
    if len == 0 then {} else Range(lo, len - 1) + {lo + len - 1}
  }

  /** The places of the bytes of the records in the first n slots. */
  ghost function Places(p: PageImage, n: nat): set<int>
    requires n <= |p.slots|
  {
    if n == 0 then {}
    else
      var s := p.slots[n - 1];
      Places(p, n - 1) + if 0 <= s.length then Range(s.offset, s.length) else {}
  }

  lemma {:induction false} InPlaces(p: PageImage, n: nat, x: int)
    requires Valid(p) && n <= |p.slots|
    ensures x in Places(p, n) <==> exists k :: 0 <= k < n && Covers(p.slots[k], x)
  {
    if n > 0 {
      InPlaces(p, n - 1, x);
      assert InBounds(p.slots[n - 1], p.freePtr);
    }
  }

  lemma RecLength(p: PageImage, k: int)
    requires Valid(p) && HasRec(p, k)
    ensures 0 <= p.slots[k].length == |RecAt(p, k)|
  {
    assert InBounds(p.slots[k], p.freePtr);
  }

  lemma NewPlaces(p: PageImage, n: nat)
    requires Valid(p) && 0 < n <= |p.slots| && p.slots[n - 1].Used() && 0 <= p.slots[n - 1].length
    ensures Places(p, n - 1) !! Range(p.slots[n - 1].offset, p.slots[n - 1].length)
  {
    var s := p.slots[n - 1];
    forall x | x in Range(s.offset, s.length) ensures x !in Places(p, n - 1) {
      InPlaces(p, n - 1, x);
      assert forall k :: 0 <= k < n - 1 ==> Apart(p.slots[k], s);
    }
  }

  lemma {:induction false} PlacesSize(p: PageImage, n: nat)
    requires Valid(p) && n <= |p.slots|
    ensures |Places(p, n)| == RecordBytes(p, n)
  {
    if n > 0 {
      PlacesSize(p, n - 1);
      if HasRec(p, n - 1) {
        RecLength(p, n - 1);
        NewPlaces(p, n);
      } else {
        assert InBounds(p.slots[n - 1], p.freePtr);
      }
      hide Valid, RecAt;
    }
  }

  /** What is free is what neither a record nor a slot takes: the test of insertRecord asks for the lengths of all
      records, the new one and one slot more than there are. */
  lemma SpaceLaw(p: PageImage, rec: Record)
    requires Valid(p)
    ensures p.freeSpace == 1004 - RecordBytes(p, |p.slots|) - 4 * |p.slots|
    ensures Fits(p, rec) <==> !Overflows(p, |rec|)
  {
    var n := |p.slots|;
    forall x ensures x in Places(p, n) <==> x in Range(0, p.freePtr) {
      InPlaces(p, n, x);
      if 0 <= x < p.freePtr {
        assert Covered(p.slots, x);
      }
      forall k | 0 <= k < n && Covers(p.slots[k], x) ensures 0 <= x < p.freePtr {
        assert InBounds(p.slots[k], p.freePtr);
      }
    }
    assert Places(p, n) == Range(0, p.freePtr);
    PlacesSize(p, n);
  }

  /** The first slot that is not in use. */
  predicate FirstFreeSlot(p: PageImage, k: int) {
    0 <= k && !HasRec(p, k) && forall j :: 0 <= j < k ==> HasRec(p, j)
  }

  lemma InsertSlotIsFirst(p: PageImage)
    ensures FirstFreeSlot(p, InsertSlot(p))
  {}

  lemma InsertReads(p: PageImage, rec: Record)
    requires Valid(p) && Fits(p, rec)
    ensures var q, k := Insert(p, rec), InsertSlot(p); HasRec(q, k) && RecAt(q, k) == rec
  {
    hide SlotsOk;
  }

  lemma InsertKeeps(p: PageImage, rec: Record, j: int)
    requires Valid(p) && Fits(p, rec) && HasRec(p, j)
    ensures var q := Insert(p, rec); HasRec(q, j) && RecAt(q, j) == RecAt(p, j)
  {
    var q := Insert(p, rec);
    assert q.slots[j] == p.slots[j];
    assert InBounds(p.slots[j], p.freePtr);
    SliceKept(p.data, q.data, p.freePtr, p.slots[j]);
  }

  /** A record goes to a fresh slot, reads back unchanged, and no other record changes. */
  lemma InsertLaw(p: PageImage, rec: Record)
    requires Valid(p) && Fits(p, rec)
    ensures Valid(Insert(p, rec))
    ensures !HasRec(p, InsertSlot(p))
    ensures Recs(Insert(p, rec)) == Recs(p)[InsertSlot(p) := rec]
  {
    hide SlotsOk, RecAt;
    InsertSlotsOk(p, rec);
    var q := Insert(p, rec);
    InsertReads(p, rec);
    forall j | HasRec(p, j)
      ensures HasRec(q, j) && RecAt(q, j) == RecAt(p, j)
    {
      InsertKeeps(p, rec, j);
    }
  }

  lemma InsertValid(p: PageImage, rec: Record)
    requires Valid(p) && Fits(p, rec)
    ensures Valid(Insert(p, rec))
  {
    InsertLaw(p, rec);
  }

  lemma ShiftedApart(p: PageImage, k: int, j: int)
    requires Valid(p) && Live(p, k) && HasRec(p, j) && j != k
    ensures var s, t := p.slots[k], p.slots[j];
            if t.offset > s.offset then s.offset + s.length <= t.offset else t.offset + t.length <= s.offset
  {
    assert InBounds(p.slots[j], p.freePtr);
    assert Apart(p.slots[if j < k then j else k], p.slots[if j < k then k else j]);
  }

  lemma DeleteSlotsOk(p: PageImage, k: int)
    requires Valid(p) && Live(p, k)
    ensures var off, len := p.slots[k].offset, p.slots[k].length;
            SlotsOk(ShiftAll(p.slots, off, len)[k := FREE_SLOT], p.freePtr - len)
  {
    var off, len := p.slots[k].offset, p.slots[k].length;
    assert InBounds(p.slots[k], p.freePtr);
    var t := ShiftAll(p.slots, off, len)[k := FREE_SLOT];
    forall j | 0 <= j < |t|
      ensures InBounds(t[j], p.freePtr - len)
    {
      if j != k && p.slots[j].Used() {
        ShiftedApart(p, k, j);
      }
      assert InBounds(p.slots[j], p.freePtr);
    }
    forall i, j | 0 <= i < j < |t|
      ensures Apart(t[i], t[j])
    {
      if i != k && j != k && p.slots[i].Used() && p.slots[j].Used() {
        ShiftedApart(p, k, i);
        ShiftedApart(p, k, j);
        assert Apart(p.slots[i], p.slots[j]);
        assert InBounds(p.slots[i], p.freePtr) && InBounds(p.slots[j], p.freePtr);
      }
    }
    forall x | 0 <= x < p.freePtr - len
      ensures Covered(t, x)
    {
      var y := if x < off then x else x + len;
      assert Covered(p.slots, y);
      var j :| 0 <= j < |p.slots| && Covers(p.slots[j], y);
      if j != k {
        ShiftedApart(p, k, j);
      }
      assert Covers(t[j], x);
    }
  }

  lemma TrimSlotsOk(slots: seq<Slot>, freePtr: int)
    requires SlotsOk(slots, freePtr)
    ensures SlotsOk(Trim(slots), freePtr)
  {
    var t := Trim(slots);
    forall x | 0 <= x < freePtr
      ensures Covered(t, x)
    {
      assert Covered(slots, x);
      var j :| 0 <= j < |slots| && Covers(slots[j], x);
      assert t[j] == slots[j];
    }
  }

  /** Deletion trims exactly the slots that freeing slot k leaves unused at the end. */
  lemma DeleteIsTrim(p: PageImage, k: int)
    requires Valid(p) && Live(p, k)
    ensures Delete(p, k).slots == Trim(ShiftAll(p.slots, p.slots[k].offset, p.slots[k].length)[k := FREE_SLOT])
  {
    hide SlotsOk, CloseGap, Slice;
    var t := ShiftAll(p.slots, p.slots[k].offset, p.slots[k].length);
    if k == |p.slots| - 1 {
      assert t[k := FREE_SLOT][..k] == t[..k];
    }
  }

  lemma DeleteValid(p: PageImage, k: int)
    requires Valid(p) && Live(p, k)
    ensures Valid(Delete(p, k))
    ensures forall j :: HasRec(Delete(p, k), j) <==> HasRec(p, j) && j != k
  {
    DeleteIsTrim(p, k);
    DeleteSlotsOk(p, k);
    assert InBounds(p.slots[k], p.freePtr);
    TrimSlotsOk(ShiftAll(p.slots, p.slots[k].offset, p.slots[k].length)[k := FREE_SLOT], p.freePtr - p.slots[k].length);
  }

  lemma CloseGapSlice(d: seq<byte>, off: int, len: int, end: int, a: int, n: int)
    requires 0 <= off && 0 <= len && off + len <= end <= |d|
    requires 0 <= a && 0 <= n && (a + n <= off || (off + len <= a && a + n <= end))
    ensures var b := if a + n <= off then a else a - len;
            CloseGap(d, off, len, end)[b..b + n] == d[a..a + n]
  {}

  lemma DeleteKeeps(p: PageImage, k: int, j: int)
    requires Valid(p) && Live(p, k) && HasRec(p, j) && j != k
    requires HasRec(Delete(p, k), j)
    ensures RecAt(Delete(p, k), j) == RecAt(p, j)
  {
    hide CloseGap, Trim;
    var s, t := p.slots[k], p.slots[j];
    ShiftedApart(p, k, j);
    DeleteIsTrim(p, k);
    assert Delete(p, k).slots[j] == Shifted(t, s.offset, s.length);
    assert InBounds(s, p.freePtr) && InBounds(t, p.freePtr);
    CloseGapSlice(p.data, s.offset, s.length, p.freePtr, t.offset, t.length);
  }

  lemma RecsMinus(p: PageImage, q: PageImage, k: int)
    requires forall j :: HasRec(q, j) <==> HasRec(p, j) && j != k
    requires forall j :: HasRec(q, j) ==> RecAt(q, j) == RecAt(p, j)
    ensures Recs(q) == Recs(p) - {k}
  {}

  lemma LiveIffNonEmpty(p: PageImage, k: int)
    requires Valid(p) && HasRec(p, k)
    ensures Live(p, k) <==> RecAt(p, k) != []
  {
    assert InBounds(p.slots[k], p.freePtr);
  }

  /** Compaction removes exactly one record: every other slot keeps its bytes. */
  lemma DeleteLaw(p: PageImage, k: int)
    requires Valid(p) && Live(p, k)
    ensures Valid(Delete(p, k))
    ensures HasRec(p, k) && Recs(Delete(p, k)) == Recs(p) - {k}
  {
    DeleteValid(p, k);
    forall j | HasRec(Delete(p, k), j)
      ensures RecAt(Delete(p, k), j) == RecAt(p, j)
    {
      DeleteKeeps(p, k, j);
    }
    RecsMinus(p, Delete(p, k), k);
  }

  // ----- consequences over runs of operations -----

  /** A page that holds no record has the space, the slots and the free pointer of a fresh page. */
  lemma EmptyIsInitial(p: PageImage)
    requires Valid(p) && Recs(p) == map[]
    ensures p == Init(p.data, p.curPage).(nextPage := p.nextPage)
  {
    assert p.slots != [] ==> HasRec(p, |p.slots| - 1) && |p.slots| - 1 in Recs(p);
    assert p.freePtr > 0 ==> Covered(p.slots, 0);
  }

  /** Delete the records in the given slots, one after the other. */
  function DeleteEach(p: PageImage, order: seq<int>): (r: Option<PageImage>)
    requires Valid(p)
    decreases |order|
  {
    if order == [] then Some(p)
    else if !Live(p, order[0]) then None
    else DeleteLaw(p, order[0]); DeleteEach(Delete(p, order[0]), order[1..])
  }

  /** Deleting every record of a page, in any order, succeeds and restores the initial layout. */
  lemma {:induction false} DeleteAllRestores(p: PageImage, order: seq<int>)
    requires Valid(p)
    requires forall k :: HasRec(p, k) ==> p.slots[k].length > 0
    requires forall i, j :: 0 <= i < j < |order| ==> order[i] != order[j]
    requires forall k :: k in order <==> HasRec(p, k)
    ensures var r := DeleteEach(p, order);
            r.Some? && |r.value.data| == DATA_SIZE
            && r.value == Init(r.value.data, p.curPage).(nextPage := p.nextPage)
    decreases |order|
  {
    if order == [] {
      EmptyIsInitial(p);
    } else {
      var k := order[0];
      assert k in order;
      DeleteStep(p, order);
      DeleteAllRestores(Delete(p, k), order[1..]);
    }
  }

  lemma DeleteLengths(p: PageImage, k: int)
    requires Valid(p) && Live(p, k)
    ensures forall j :: HasRec(Delete(p, k), j) && HasRec(p, j) && j != k ==>
      Delete(p, k).slots[j].length == p.slots[j].length
  {
    hide SlotsOk, CloseGap, InBounds;
    DeleteIsTrim(p, k);
  }

  lemma DeleteStep(p: PageImage, order: seq<int>)
    requires Valid(p) && order != [] && Live(p, order[0])
    requires forall k :: HasRec(p, k) ==> p.slots[k].length > 0
    requires forall i, j :: 0 <= i < j < |order| ==> order[i] != order[j]
    requires forall k :: k in order <==> HasRec(p, k)
    ensures var q := Delete(p, order[0]);
            && Valid(q)
            && (forall k :: HasRec(q, k) ==> q.slots[k].length > 0)
            && (forall k :: k in order[1..] <==> HasRec(q, k))
  {
    hide Valid, Delete;
    var k := order[0];
    DeleteValid(p, k);
    DeleteLengths(p, k);
    forall j ensures j in order[1..] <==> j in order && j != k {
      if j in order && j != k {
        var i :| 0 <= i < |order| && order[i] == j;
        assert order[1..][i - 1] == j;
      }
    }
  }

  /** Deleting what was just inserted gives back the page, up to the bytes beyond its data. */
  lemma InsertDeleteInverse(p: PageImage, rec: Record)
    requires Valid(p) && Fits(p, rec) && rec != []
    ensures var k, q := InsertSlot(p), Insert(p, rec);
            && Valid(q) && Live(q, k)
            && Delete(q, k) == p.(data := Delete(q, k).data)
            && Delete(q, k).data[..p.freePtr] == p.data[..p.freePtr]
  {
    InsertLaw(p, rec);
    var k, q := InsertSlot(p), Insert(p, rec);
    assert forall j :: 0 <= j < |p.slots| ==> InBounds(p.slots[j], p.freePtr);
    var t := ShiftAll(q.slots, p.freePtr, |rec|);
    if k == |p.slots| {
      assert t[..k] == p.slots;
      assert Trim(p.slots) == p.slots;
    } else {
      assert t[k := FREE_SLOT] == p.slots;
    }
  }
}
