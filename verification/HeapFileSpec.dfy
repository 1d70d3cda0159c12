/** A heap file as a value (heapfile.C): a chain of slotted pages and the entries it holds, in page order
    and, within a page, in slot order. */
module HeapSpec {
  import opened Bytes
  import opened Statuses
  import opened SlottedPage
  import opened ScanSpec

  /** The entries of a page from slot i on. */
  function FromSlot(img: PageImage, i: nat): seq<Entry>
    decreases |img.slots| - i
  {
    if i >= |img.slots| then []
    else if HasRec(img, i) then [Entry(RID(img.curPage, i), RecAt(img, i))] + FromSlot(img, i + 1)
    else FromSlot(img, i + 1)
  }

  function Entries(pages: seq<PageImage>): seq<Entry> {
    if pages == [] then [] else FromSlot(pages[0], 0) + Entries(pages[1..])
  }

  /** hdrNo is the page number of the header page, and lastNo, pageCnt and recCnt are what it records. */
  datatype Heap = Heap(hdrNo: int, chain: seq<int>, pages: seq<PageImage>, lastNo: int, pageCnt: int, recCnt: int)

  function NextNo(chain: seq<int>, i: nat): int {
    if i + 1 < |chain| then chain[i + 1] else -1
  }

  ghost predicate Linked(chain: seq<int>, pages: seq<PageImage>) {
    && |chain| == |pages|
    && forall i :: 0 <= i < |pages| ==>
        Valid(pages[i]) && pages[i].curPage == chain[i] && pages[i].nextPage == NextNo(chain, i)
  }

  ghost predicate Distinct(chain: seq<int>) {
    forall i, j :: 0 <= i < j < |chain| ==> chain[i] != chain[j]
  }

  /** The chain from the first page is finite and visits no page twice; the header records where it ends, how
      long it is and how many records it holds. */
  ghost predicate Inv(h: Heap) {
    && h.chain != [] && Linked(h.chain, h.pages) && Distinct(h.chain)
    && 1 <= h.hdrNo && h.hdrNo !in h.chain && (forall i :: 0 <= i < |h.chain| ==> 1 <= h.chain[i])
    && h.lastNo == h.chain[|h.chain| - 1] && h.pageCnt == |h.chain| && h.recCnt == |Entries(h.pages)|
  }

  /** What lies ahead of a cursor at slot s of page i. */
  function Ahead(pages: seq<PageImage>, i: nat, s: int): seq<Entry>
    requires i < |pages| && -1 <= s
  {
    FromSlot(pages[i], s + 1) + Entries(pages[i + 1..])
  }

  // ----- laws -----

  lemma {:induction false} FromSlotSkips(img: PageImage, i: nat, k: nat)
    requires i <= k <= |img.slots| && forall j :: i <= j < k ==> !HasRec(img, j)
    ensures FromSlot(img, i) == FromSlot(img, k)
    decreases k - i
  {
    if i < k {
      FromSlotSkips(img, i + 1, k);
    }
  }

  /** nextRecord moves the cursor to the first entry ahead on the page. */
  lemma FromSlotNext(img: PageImage, s: int)
    requires -1 <= s
    ensures var next := NextSlot(img, s);
            FromSlot(img, s + 1) == if next.None? then []
                                    else [EntryAt(img, next.value)] + FromSlot(img, next.value + 1)
  {
    if s + 1 <= |img.slots| {
      var k := FirstUsed(img.slots, s + 1);
      FromSlotSkips(img, s + 1, k);
    }
  }

  lemma {:induction false} EntriesConcat(a: seq<PageImage>, b: seq<PageImage>)
    ensures Entries(a + b) == Entries(a) + Entries(b)
  {
    if a == [] {
      assert a + b == b;
    } else {
      assert (a + b)[1..] == a[1..] + b;
      EntriesConcat(a[1..], b);
    }
  }

  lemma EntriesSplit(pages: seq<PageImage>, i: nat)
    requires i < |pages|
    ensures Entries(pages) == Entries(pages[..i]) + FromSlot(pages[i], 0) + Entries(pages[i + 1..])
  {
    assert pages == pages[..i] + pages[i..];
    EntriesConcat(pages[..i], pages[i..]);
    assert pages[i..][1..] == pages[i + 1..];
  }

  /** The entries of a page before slot k. */
  function Before(img: PageImage, k: nat): seq<Entry>
    requires k <= |img.slots|
  {
    if k == 0 then []
    else Before(img, k - 1) + if HasRec(img, k - 1) then [Entry(RID(img.curPage, k - 1), RecAt(img, k - 1))] else []
  }

  lemma {:induction false} PageSplit(img: PageImage, k: nat)
    requires k <= |img.slots|
    ensures FromSlot(img, 0) == Before(img, k) + FromSlot(img, k)
  {
    if k > 0 {
      PageSplit(img, k - 1);
    }
  }

  /** What a cursor at slot s of page i has passed. */
  function Behind(pages: seq<PageImage>, i: nat, s: int): seq<Entry>
    requires i < |pages| && -1 <= s
  {
    Entries(pages[..i]) + Before(pages[i], if s + 1 <= |pages[i].slots| then s + 1 else |pages[i].slots|)
  }

  lemma BehindAhead(pages: seq<PageImage>, i: nat, s: int)
    requires i < |pages| && -1 <= s
    ensures Entries(pages) == Behind(pages, i, s) + Ahead(pages, i, s)
  {
    EntriesSplit(pages, i);
    var img := pages[i];
    var k := if s + 1 <= |img.slots| then s + 1 else |img.slots|;
    PageSplit(img, k);
    assert FromSlot(img, k) == FromSlot(img, s + 1);
    Regroup(Entries(pages[..i]), Before(img, k), FromSlot(img, s + 1), Entries(pages[i + 1..]));
  }

  lemma Regroup(a: seq<Entry>, b: seq<Entry>, c: seq<Entry>, d: seq<Entry>)
    ensures a + (b + c) + d == (a + b) + (c + d)
  {}

  lemma {:induction false} SameBefore(p: PageImage, q: PageImage, k: nat)
    requires k <= |p.slots| && p.curPage == q.curPage
    requires forall j :: 0 <= j < k ==>
      (HasRec(q, j) <==> HasRec(p, j)) && (HasRec(p, j) ==> RecAt(q, j) == RecAt(p, j))
    requires k <= |q.slots|
    ensures Before(q, k) == Before(p, k)
  {
    if k > 0 {
      SameBefore(p, q, k - 1);
      assert HasRec(q, k - 1) <==> HasRec(p, k - 1);
    }
  }

  lemma {:induction false} SameFrom(p: PageImage, q: PageImage, i: nat)
    requires p.curPage == q.curPage
    requires forall j :: i <= j ==> (HasRec(q, j) <==> HasRec(p, j)) && (HasRec(p, j) ==> RecAt(q, j) == RecAt(p, j))
    ensures FromSlot(q, i) == FromSlot(p, i)
    decreases |p.slots| + |q.slots| - i
  {
    assert HasRec(q, i) <==> HasRec(p, i);
    if i < |p.slots| || i < |q.slots| {
      SameFrom(p, q, i + 1);
    }
  }

  /** Deleting the record under the cursor takes its entry out of the page and leaves the others in place. */
  lemma DeleteEntries(p: PageImage, k: int)
    requires Valid(p) && Live(p, k)
    ensures Valid(Delete(p, k))
    ensures FromSlot(p, 0) == Before(p, k) + [Entry(RID(p.curPage, k), RecAt(p, k))] + FromSlot(p, k + 1)
    ensures FromSlot(Delete(p, k), 0) == Before(p, k) + FromSlot(p, k + 1)
    ensures FromSlot(Delete(p, k), k + 1) == FromSlot(p, k + 1)
  {
    DeleteValid(p, k);
    var q := Delete(p, k);
    forall j | HasRec(q, j)
      ensures HasRec(p, j) && RecAt(q, j) == RecAt(p, j)
    {
      DeleteKeeps(p, k, j);
    }
    PageSplit(p, k);
    SameFrom(p, q, k + 1);
    DeletedPage(p, q, k);
  }

  lemma DeletedPage(p: PageImage, q: PageImage, k: nat)
    requires k < |p.slots| && p.curPage == q.curPage
    requires forall j :: HasRec(q, j) <==> HasRec(p, j) && j != k
    requires forall j :: HasRec(q, j) ==> RecAt(q, j) == RecAt(p, j)
    requires Trimmed(q.slots) && FromSlot(q, k + 1) == FromSlot(p, k + 1)
    ensures FromSlot(q, 0) == Before(p, k) + FromSlot(p, k + 1)
  {
    if k <= |q.slots| {
      PageSplit(q, k);
      SameBefore(p, q, k);
      assert FromSlot(q, k) == FromSlot(q, k + 1);
    } else {
      PageSplit(q, |q.slots|);
      SameBefore(p, q, |q.slots|);
      NoMoreBefore(p, |q.slots|, k);
      assert FromSlot(q, |q.slots|) == [] && FromSlot(q, k + 1) == [];
    }
  }

  lemma {:induction false} NoMoreBefore(p: PageImage, m: nat, k: nat)
    requires m <= k <= |p.slots| && forall j :: m <= j < k ==> !HasRec(p, j)
    ensures Before(p, k) == Before(p, m)
  {
    if m < k {
      NoMoreBefore(p, m, k - 1);
    }
  }

  /** Inserting puts one entry with a fresh record id among the entries of the page, after all of them
      when the page has no unused slot. */
  lemma InsertEntries(p: PageImage, rec: Record)
    requires Valid(p) && Fits(p, rec)
    ensures Valid(Insert(p, rec))
    ensures var k := InsertSlot(p);
            && !HasRec(p, k)
            && FromSlot(p, 0) == Before(p, k) + FromSlot(p, k)
            && FromSlot(Insert(p, rec), 0) == Before(p, k) + [Entry(RID(p.curPage, k), rec)] + FromSlot(p, k)
            && (k == |p.slots| ==> FromSlot(p, k) == [])
  {
    InsertLaw(p, rec);
    var k, q := InsertSlot(p), Insert(p, rec);
    assert k in Recs(q) && Recs(q)[k] == rec;
    forall j | j != k
      ensures HasRec(q, j) <==> HasRec(p, j)
      ensures HasRec(p, j) ==> RecAt(q, j) == RecAt(p, j)
    {
      assert j in Recs(q) <==> j in Recs(p);
    }
    PageSplit(p, k);
    PageSplit(q, k);
    SameBefore(p, q, k);
    SameFrom(p, q, k + 1);
    assert FromSlot(p, k) == FromSlot(p, k + 1);
  }

  // ----- deletion and insertion in a heap file -----

  function DeleteAt(h: Heap, i: nat, s: int): Heap
    requires i < |h.pages| && Valid(h.pages[i]) && Live(h.pages[i], s)
  {
    h.(pages := h.pages[i := Delete(h.pages[i], s)], recCnt := h.recCnt - 1)
  }

  /** The entry of a record. */
  function EntryAt(img: PageImage, k: int): Entry
    requires HasRec(img, k)
  {
    Entry(RID(img.curPage, k), RecAt(img, k))
  }

  lemma EntriesReplace(pages: seq<PageImage>, i: nat, img: PageImage)
    requires i < |pages|
    ensures Entries(pages[i := img]) == Entries(pages[..i]) + FromSlot(img, 0) + Entries(pages[i + 1..])
  {
    var next := pages[i := img];
    EntriesSplit(next, i);
    assert next[..i] == pages[..i] && next[i + 1..] == pages[i + 1..];
  }

  lemma Regroup3(a: seq<Entry>, b: seq<Entry>, e: seq<Entry>, c: seq<Entry>, d: seq<Entry>)
    ensures a + (b + e + c) + d == (a + b) + e + (c + d)
    ensures a + (b + c) + d == (a + b) + (c + d)
  {}

  /** Page i without the record of slot s. */
  lemma DeleteAtEntries(pages: seq<PageImage>, i: nat, s: int)
    requires i < |pages| && Valid(pages[i]) && Live(pages[i], s)
    ensures var behind := Entries(pages[..i]) + Before(pages[i], s);
            var next := pages[i := Delete(pages[i], s)];
            && Entries(pages) == behind + [EntryAt(pages[i], s)] + Ahead(pages, i, s)
            && Entries(next) == behind + Ahead(pages, i, s)
            && Ahead(next, i, s) == Ahead(pages, i, s)
  {
    var p := pages[i];
    DeleteEntries(p, s);
    EntriesSplit(pages, i);
    EntriesReplace(pages, i, Delete(p, s));
    Regroup3(Entries(pages[..i]), Before(p, s), [EntryAt(p, s)], FromSlot(p, s + 1), Entries(pages[i + 1..]));
    assert pages[i := Delete(p, s)][i + 1..] == pages[i + 1..];
  }

  lemma ReplaceLinked(chain: seq<int>, pages: seq<PageImage>, i: nat, img: PageImage)
    requires Linked(chain, pages) && i < |pages|
    requires Valid(img) && img.curPage == pages[i].curPage && img.nextPage == pages[i].nextPage
    ensures Linked(chain, pages[i := img])
  {}

  lemma DeletedPlace(h: Heap, i: nat, s: int)
    requires Inv(h) && i < |h.pages| && Live(h.pages[i], s)
    ensures Valid(h.pages[i]) && HasRec(h.pages[i], s)
    ensures var q := Delete(h.pages[i], s);
            Valid(q) && q.curPage == h.pages[i].curPage && q.nextPage == h.pages[i].nextPage
  {
    hide Entries;
    DeleteValid(h.pages[i], s);
  }

  /** Deleting the record under a cursor removes exactly its entry; what is ahead of the cursor stays. */
  lemma DeleteAtLaw(h: Heap, i: nat, s: int)
    requires Inv(h) && i < |h.pages| && Live(h.pages[i], s)
    ensures Inv(DeleteAt(h, i, s))
    ensures var behind := Entries(h.pages[..i]) + Before(h.pages[i], s);
            && Entries(h.pages) == behind + [EntryAt(h.pages[i], s)] + Ahead(h.pages, i, s)
            && Entries(DeleteAt(h, i, s).pages) == behind + Ahead(h.pages, i, s)
    ensures Ahead(DeleteAt(h, i, s).pages, i, s) == Ahead(h.pages, i, s)
  {
    hide Valid, Delete, Before, Entries, FromSlot, Ahead, Inv;
    DeletedPlace(h, i, s);
    DeleteAtEntries(h.pages, i, s);
    DeletedInv(h, i, s, Entries(h.pages[..i]) + Before(h.pages[i], s), EntryAt(h.pages[i], s), Ahead(h.pages, i, s));
  }

  lemma DeletedInv(h: Heap, i: nat, s: int, behind: seq<Entry>, e: Entry, ahead: seq<Entry>)
    requires Inv(h) && i < |h.pages| && Live(h.pages[i], s) && Valid(h.pages[i])
    requires Entries(h.pages) == behind + [e] + ahead && Entries(DeleteAt(h, i, s).pages) == behind + ahead
    ensures Inv(DeleteAt(h, i, s))
  {
    DeletedPlace(h, i, s);
    hide Valid, Live, Delete, Entries;
    ReplaceLinked(h.chain, h.pages, i, Delete(h.pages[i], s));
    assert |behind + [e] + ahead| == |behind + ahead| + 1;
  }

  lemma DeletedOne(h: Heap, i: nat, s: int)
    requires Inv(h) && i < |h.chain| && Valid(h.pages[i]) && Live(h.pages[i], s)
    ensures Inv(DeleteAt(h, i, s)) && HasRec(h.pages[i], s)
    ensures Ahead(DeleteAt(h, i, s).pages, i, s) == Ahead(h.pages, i, s)
    ensures TookOut(Entries(h.pages), Entries(DeleteAt(h, i, s).pages), EntryAt(h.pages[i], s), Ahead(h.pages, i, s))
    ensures h.pages[i].curPage == h.chain[i]
  {
    hide Before, FromSlot;
    DeleteAtLaw(h, i, s);
  }

  function Last(h: Heap): PageImage
    requires h.pages != []
  {
    h.pages[|h.pages| - 1]
  }

  function InsertLast(h: Heap, rec: Record): Heap
    requires h.pages != [] && Valid(Last(h)) && Fits(Last(h), rec)
  {
    h.(pages := h.pages[|h.pages| - 1 := Insert(Last(h), rec)], recCnt := h.recCnt + 1)
  }

  lemma InsertLastEntries(pages: seq<PageImage>, rec: Record)
    requires pages != [] && Valid(pages[|pages| - 1]) && Fits(pages[|pages| - 1], rec)
    ensures var n := |pages| - 1;
            var k := InsertSlot(pages[n]);
            var before := Entries(pages[..n]) + Before(pages[n], k);
            && Entries(pages) == before + FromSlot(pages[n], k)
            && Entries(pages[n := Insert(pages[n], rec)]) == before + [Entry(RID(pages[n].curPage, k), rec)]
                + FromSlot(pages[n], k)
  {
    hide Valid, Fits;
    var n := |pages| - 1;
    var p := pages[n];
    InsertEntries(p, rec);
    EntriesSplit(pages, n);
    EntriesReplace(pages, n, Insert(p, rec));
    assert Entries(pages[n + 1..]) == [];
    var k := InsertSlot(p);
    Regroup3(Entries(pages[..n]), Before(p, k), [Entry(RID(p.curPage, k), rec)], FromSlot(p, k), []);
  }

  /** A successful insertion adds one entry with a record id that was not in the file, and changes no other
      entry; without unused slots on the last page it adds it at the end. */
  lemma InsertLastLaw(h: Heap, rec: Record)
    requires Inv(h) && Fits(Last(h), rec)
    ensures Inv(InsertLast(h, rec))
    ensures var k := InsertSlot(Last(h));
            var before := Entries(h.pages[..|h.pages| - 1]) + Before(Last(h), k);
            && Entries(h.pages) == before + FromSlot(Last(h), k)
            && Entries(InsertLast(h, rec).pages) == before + [Entry(RID(Last(h).curPage, k), rec)]
                + FromSlot(Last(h), k)
            && !HasRec(Last(h), k)
            && (k == |Last(h).slots| ==> FromSlot(Last(h), k) == [])
  {
    InsertEntries(Last(h), rec);
    ReplaceLinked(h.chain, h.pages, |h.pages| - 1, Insert(Last(h), rec));
    InsertLastEntries(h.pages, rec);
  }

  /** A fresh page linked in behind the last one. */
  function Grow(h: Heap, pageNo: int, data: seq<byte>): Heap
    requires h.pages != []
  {
    var n := |h.pages| - 1;
    h.(lastNo := pageNo, pageCnt := h.pageCnt + 1,
       chain := h.chain + [pageNo], pages := h.pages[n := Last(h).(nextPage := pageNo)] + [Init(data, pageNo)])
  }

  lemma {:induction false} SameEntries(p: PageImage, no: int, i: nat)
    ensures FromSlot(p.(nextPage := no), i) == FromSlot(p, i)
    decreases |p.slots| - i
  {
    if i < |p.slots| {
      SameEntries(p, no, i + 1);
    }
  }

  lemma GrowEntries(h: Heap, pageNo: int, data: seq<byte>)
    requires h.pages != []
    ensures Entries(Grow(h, pageNo, data).pages) == Entries(h.pages)
  {
    var n, p := |h.pages| - 1, Last(h);
    var q := p.(nextPage := pageNo);
    SameEntries(p, pageNo, 0);
    EntriesSplit(h.pages, n);
    EntriesReplace(h.pages, n, q);
    EntriesConcat(h.pages[n := q], [Init(data, pageNo)]);
    assert Entries([Init(data, pageNo)]) == [];
  }

  lemma GrowLinked(h: Heap, pageNo: int, data: seq<byte>)
    requires h.pages != [] && Linked(h.chain, h.pages) && |data| == DATA_SIZE
    ensures Linked(Grow(h, pageNo, data).chain, Grow(h, pageNo, data).pages)
  {
    InitValid(data, pageNo);
    var g := Grow(h, pageNo, data);
    forall i | 0 <= i < |g.pages|
      ensures Valid(g.pages[i]) && g.pages[i].curPage == g.chain[i] && g.pages[i].nextPage == NextNo(g.chain, i)
    {
      if i < |h.pages| {
        assert Valid(h.pages[i]) && h.pages[i].nextPage == NextNo(h.chain, i);
      }
    }
  }

  lemma GrowLaw(h: Heap, pageNo: int, data: seq<byte>)
    requires Inv(h) && |data| == DATA_SIZE && 1 <= pageNo && pageNo !in h.chain && pageNo != h.hdrNo
    ensures Inv(Grow(h, pageNo, data)) && Entries(Grow(h, pageNo, data).pages) == Entries(h.pages)
  {
    GrowEntries(h, pageNo, data);
    GrowLinked(h, pageNo, data);
  }

  // ----- moving a cursor -----

  /** On a page with no record after the cursor, all that is ahead is on the pages that follow. */
  lemma AheadNextPage(pages: seq<PageImage>, i: nat, s: int)
    requires i + 1 < |pages| && -1 <= s && NextSlot(pages[i], s).None?
    ensures Ahead(pages, i, s) == Ahead(pages, i + 1, -1)
  {
    FromSlotNext(pages[i], s);
    assert pages[i + 1..][1..] == pages[i + 2..];
  }

  lemma AheadNextSlot(pages: seq<PageImage>, i: nat, s: int)
    requires i < |pages| && -1 <= s
    ensures var next := NextSlot(pages[i], s);
            next.Some? ==> Ahead(pages, i, s) == [EntryAt(pages[i], next.value)] + Ahead(pages, i, next.value)
  {
    hide FromSlot, Entries, NextSlot, RecAt;
    FromSlotNext(pages[i], s);
  }

  lemma AheadEnd(pages: seq<PageImage>, i: nat, s: int)
    requires i + 1 == |pages| && -1 <= s && NextSlot(pages[i], s).None?
    ensures Ahead(pages, i, s) == []
  {
    FromSlotNext(pages[i], s);
  }

  /** A page without records has nothing ahead of any cursor. */
  lemma EmptyPageAhead(pages: seq<PageImage>, i: nat, s: int)
    requires i < |pages| && -1 <= s && NextSlot(pages[i], -1).None?
    ensures NextSlot(pages[i], s).None?
    ensures Ahead(pages, i, s) == Ahead(pages, i, -1) && FromSlot(pages[i], 0) == []
  {
    FromSlotNext(pages[i], -1);
    FromSlotNext(pages[i], s);
  }

  lemma LastPage(h: Heap, i: nat)
    requires Inv(h) && i < |h.chain| && NextNo(h.chain, i) == -1
    ensures i + 1 == |h.chain| == |h.pages|
  {}

  lemma NotLastPage(h: Heap, i: nat)
    requires Inv(h) && i < |h.chain| && NextNo(h.chain, i) != -1
    ensures i + 1 < |h.chain| == |h.pages|
  {}

  lemma PageOfChain(h: Heap, i: nat)
    requires Inv(h) && i < |h.chain|
    ensures |h.pages| == |h.chain|
    ensures var p := h.pages[i]; Valid(p) && p.curPage == h.chain[i] && p.nextPage == NextNo(h.chain, i)
  {}

  lemma FirstPageAhead(h: Heap)
    requires Inv(h)
    ensures |h.pages| > 0 && Ahead(h.pages, 0, -1) == Entries(h.pages)
    ensures FromSlot(h.pages[0], 0) == [] <==> NextSlot(h.pages[0], -1).None?
  {
    FromSlotNext(h.pages[0], -1);
  }

  lemma RecCntIsCount(h: Heap)
    requires Inv(h)
    ensures h.recCnt == |Entries(h.pages)| && 0 < |h.chain| == |h.pages|
  {}

  lemma HeldParts(h: Heap)
    requires Inv(h)
    ensures Distinct(h.chain) && h.hdrNo !in h.chain
  {}

  /** deleteRecord takes one off the count whether or not the page gives up a record: the header counts the records
      afterwards exactly when there was one to delete. */
  lemma DeleteCountsIffLive(h: Heap, i: nat, s: int)
    requires Inv(h) && i < |h.pages|
    ensures Inv(if Live(h.pages[i], s) then DeleteAt(h, i, s) else h.(recCnt := h.recCnt - 1)) <==> Live(h.pages[i], s)
  {
    if Live(h.pages[i], s) {
      DeleteAtLaw(h, i, s);
    }
  }

  lemma HeaderLast(h: Heap)
    requires Inv(h)
    ensures h.chain != [] && h.lastNo == h.chain[|h.chain| - 1]
  {}

  /** One entry has been added, with a record id that was not in use. */
  ghost predicate Inserted(before: seq<Entry>, after: seq<Entry>, rid: RID, rec: Record) {
    && (forall i :: 0 <= i < |before| ==> before[i].rid != rid)
    && exists k :: 0 <= k <= |before| && after == before[..k] + [Entry(rid, rec)] + before[k..]
  }

  // ----- record ids -----

  lemma {:induction false} FromSlotMember(img: PageImage, i: nat, j: nat) returns (k: nat)
    requires j < |FromSlot(img, i)|
    ensures i <= k && HasRec(img, k) && FromSlot(img, i)[j] == EntryAt(img, k)
    decreases |img.slots| - i
  {
    if HasRec(img, i) {
      if j == 0 { k := i; } else { k := FromSlotMember(img, i + 1, j - 1); }
    } else {
      k := FromSlotMember(img, i + 1, j);
    }
  }

  /** Every entry of a file is the record of a slot in use. */
  lemma {:induction false} EntriesMember(pages: seq<PageImage>, j: nat) returns (i: nat, k: nat)
    requires j < |Entries(pages)|
    ensures i < |pages| && HasRec(pages[i], k) && Entries(pages)[j] == EntryAt(pages[i], k)
  {
    var first := FromSlot(pages[0], 0);
    if j < |first| {
      i := 0;
      k := FromSlotMember(pages[0], 0, j);
    } else {
      i, k := EntriesMember(pages[1..], j - |first|);
      i := i + 1;
    }
  }

  lemma EntriesHas(pages: seq<PageImage>, i: nat, k: nat)
    requires i < |pages| && HasRec(pages[i], k)
    ensures EntryAt(pages[i], k) in Entries(pages)
  {
    EntriesSplit(pages, i);
    PageSplit(pages[i], k);
    assert FromSlot(pages[i], k)[0] == EntryAt(pages[i], k);
    assert EntryAt(pages[i], k) in FromSlot(pages[i], 0);
  }

  /** A record id names at most one record of a file: the one in its slot. */
  lemma RidLookup(h: Heap, i: nat, rid: RID, e: Entry)
    requires Inv(h) && i < |h.chain| && h.chain[i] == rid.pageNo && e.rid == rid
    ensures e in Entries(h.pages) <==> HasRec(h.pages[i], rid.slotNo) && e.rec == RecAt(h.pages[i], rid.slotNo)
  {
    if e in Entries(h.pages) {
      var j :| 0 <= j < |Entries(h.pages)| && Entries(h.pages)[j] == e;
      var i', k := EntriesMember(h.pages, j);
      assert h.chain[i'] == h.pages[i'].curPage;
      assert i' == i;
    }
    if HasRec(h.pages[i], rid.slotNo) && e.rec == RecAt(h.pages[i], rid.slotNo) {
      EntriesHas(h.pages, i, rid.slotNo);
    }
  }

  // ----- record ids -----

  lemma {:induction false} FromSlotRids(img: PageImage, i: nat)
    ensures var es := FromSlot(img, i);
            && (forall k :: 0 <= k < |es| ==> es[k].rid.pageNo == img.curPage && i <= es[k].rid.slotNo)
            && DistinctRids(es)
    decreases |img.slots| - i
  {
    if i < |img.slots| {
      FromSlotRids(img, i + 1);
    }
  }

  function PageNos(pages: seq<PageImage>): seq<int> {
    if pages == [] then [] else [pages[0].curPage] + PageNos(pages[1..])
  }

  lemma {:induction false} EntriesRids(pages: seq<PageImage>)
    requires Distinct(PageNos(pages))
    ensures DistinctRids(Entries(pages))
    ensures forall k :: 0 <= k < |Entries(pages)| ==> Entries(pages)[k].rid.pageNo in PageNos(pages)
  {
    if pages != [] {
      hide FromSlot;
      var nos, rest := PageNos(pages), PageNos(pages[1..]);
      assert forall i :: 0 <= i < |rest| ==> rest[i] == nos[i + 1];
      EntriesRids(pages[1..]);
      FromSlotRids(pages[0], 0);
      assert nos[0] !in rest;
    }
  }

  lemma {:induction false} PageNosOfChain(chain: seq<int>, pages: seq<PageImage>)
    requires |chain| == |pages| && forall i :: 0 <= i < |pages| ==> pages[i].curPage == chain[i]
    ensures PageNos(pages) == chain
  {
    if pages != [] {
      assert forall i :: 0 <= i < |pages[1..]| ==> pages[1..][i] == pages[i + 1];
      PageNosOfChain(chain[1..], pages[1..]);
      assert chain == [chain[0]] + chain[1..];
    }
  }

  /** The records of a heap file have different ids, on pages of its chain. */
  lemma HeapRids(h: Heap)
    requires Inv(h)
    ensures DistinctRids(Entries(h.pages))
    ensures forall k :: 0 <= k < |Entries(h.pages)| ==>
      1 <= Entries(h.pages)[k].rid.pageNo && Entries(h.pages)[k].rid.pageNo in h.chain
  {
    PageNosOfChain(h.chain, h.pages);
    EntriesRids(h.pages);
  }

  lemma InsertedLaw(h: Heap, rec: Record)
    requires Inv(h) && Fits(Last(h), rec)
    ensures Inserted(Entries(h.pages), Entries(InsertLast(h, rec).pages),
                     RID(Last(h).curPage, InsertSlot(Last(h))), rec)
    ensures InsertSlot(Last(h)) == |Last(h).slots| ==>
              Entries(InsertLast(h, rec).pages) == Entries(h.pages)
                  + [Entry(RID(Last(h).curPage, InsertSlot(Last(h))), rec)]
  {
    InsertLastLaw(h, rec);
    var n, k := |h.pages| - 1, InsertSlot(Last(h));
    var rid := RID(Last(h).curPage, k);
    var es := Entries(h.pages);
    forall j | 0 <= j < |es| ensures es[j].rid != rid {
      if es[j].rid == rid {
        PageOfChain(h, n);
        RidLookup(h, n, rid, es[j]);
      }
    }
    var before := Entries(h.pages[..n]) + Before(Last(h), k);
    InsertedAt(before, FromSlot(Last(h), k), Entry(rid, rec));
  }

  lemma InsertedAt(a: seq<Entry>, b: seq<Entry>, e: Entry)
    ensures exists k :: 0 <= k <= |a + b| && a + [e] + b == (a + b)[..k] + [e] + (a + b)[k..]
  {
    assert a + [e] + b == (a + b)[..|a|] + [e] + (a + b)[|a|..];
  }

  lemma NoHolesInsert(p: PageImage, rec: Record)
    requires Valid(p) && Fits(p, rec) && InsertSlot(p) == |p.slots|
    ensures InsertSlot(Insert(p, rec)) == |Insert(p, rec).slots|
  {}

  lemma LastFreeSpace(h: Heap)
    requires Inv(h)
    ensures h.pages != [] && Last(h).freeSpace <= DATA_SIZE
  {
    PageOfChain(h, |h.chain| - 1);
  }

  lemma SamePlace(h: Heap, i: nat, j: nat)
    requires Inv(h) && i < |h.chain| && j < |h.chain| && h.chain[i] == h.chain[j]
    ensures i == j
  {}
}
