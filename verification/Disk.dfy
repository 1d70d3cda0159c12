/** Unix files as arrays of pages and the free list threaded through them (db.C). */
module DiskSpec {
  import opened Statuses
  import opened SlottedPage

  datatype PageId = PageId(file: int, pageNo: int)

  /** What the layers above see in the 1024 bytes of a page, by the structure they cast it to. */
  datatype DiskPage =
    | Blank
    | DbHeader(nextFree: int, firstPage: int, numPages: int)
    | FreePage(link: int)
    | HeapHeader(hdrFirst: int, hdrLast: int, pageCnt: int, recCnt: int)
    | DataPage(image: PageImage)

  type Pages = map<PageId, DiskPage>

  /** The pages of all files, and for each existing file the page numbers on its free list, head first. */
  datatype Disk = Disk(pages: Pages, free: map<int, seq<int>>)

  function Link(free: seq<int>, k: nat): int {
    if k < |free| then free[k] else -1
  }

  predicate HasHeader(pages: Pages, f: int) {
    PageId(f, 0) in pages && pages[PageId(f, 0)].DbHeader?
  }

  /** Following nextFree from the header visits exactly the pages of free and then ends with -1. */
  ghost predicate Chained(pages: Pages, f: int, free: seq<int>)
    requires HasHeader(pages, f)
  {
    && pages[PageId(f, 0)].nextFree == Link(free, 0)
    && forall k :: 0 <= k < |free| ==>
        PageId(f, free[k]) in pages && pages[PageId(f, free[k])] == FreePage(Link(free, k + 1))
  }

  ghost predicate FreeOk(free: seq<int>, firstPage: int, numPages: int) {
    && (forall k :: 0 <= k < |free| ==> 1 <= free[k] < numPages && free[k] != firstPage)
    && (forall j, k :: 0 <= j < k < |free| ==> free[j] != free[k])
  }

  ghost predicate FileOk(pages: Pages, f: int, free: seq<int>) {
    && HasHeader(pages, f)
    && Chained(pages, f, free)
    && var h := pages[PageId(f, 0)];
    && FreeOk(free, h.firstPage, h.numPages)
    && 1 <= h.numPages
    && h.firstPage == (if h.numPages == 1 then -1 else 1)
    && forall p :: PageId(f, p) in pages <==> 0 <= p < h.numPages
  }

  ghost predicate DiskOk(d: Disk) {
    && (forall f :: f in d.free ==> FileOk(d.pages, f, d.free[f]))
    && (forall id :: id in d.pages ==> id.file in d.free)
  }

  /** Allocated to a client: neither the header page nor on the free list. */
  ghost predicate InUse(d: Disk, id: PageId) {
    id in d.pages && 1 <= id.pageNo && id.file in d.free && id.pageNo !in d.free[id.file]
  }

  /** What keeps a page from being read. */
  function ReadError(d: Disk, id: PageId): Status {
    if id.pageNo < 1 then BADPAGENO else if id !in d.pages then UNIXERR else OK
  }

  // ----- operations, computed from the pages alone -----

  function CreatePages(pages: Pages, f: int): Pages {
    pages[PageId(f, 0) := DbHeader(-1, -1, 1)]
  }

  /** The page number File::allocatePage returns. */
  function NextAlloc(pages: Pages, f: int): int
    requires HasHeader(pages, f)
  {
    var h := pages[PageId(f, 0)];
    if h.nextFree != -1 then h.nextFree else h.numPages
  }

  function AllocPages(pages: Pages, f: int): Pages
    requires HasHeader(pages, f)
    requires var n := pages[PageId(f, 0)].nextFree;
             n != -1 ==> PageId(f, n) in pages && pages[PageId(f, n)].FreePage?
  {
    var h := pages[PageId(f, 0)];
    if h.nextFree != -1 then
      pages[PageId(f, 0) := h.(nextFree := pages[PageId(f, h.nextFree)].link)]
    else
      pages[PageId(f, h.numPages) := Blank]
           [PageId(f, 0) := DbHeader(-1, if h.firstPage == -1 then h.numPages else h.firstPage, h.numPages + 1)]
  }

  /** File::disposePage refuses pages outside the file and its first page. */
  predicate Disposable(pages: Pages, id: PageId)
    requires HasHeader(pages, id.file)
  {
    var h := pages[PageId(id.file, 0)];
    1 <= id.pageNo < h.numPages && id.pageNo != h.firstPage
  }

  function DisposePages(pages: Pages, id: PageId): Pages
    requires HasHeader(pages, id.file)
  {
    var h := pages[PageId(id.file, 0)];
    pages[id := FreePage(h.nextFree)][PageId(id.file, 0) := h.(nextFree := id.pageNo)]
  }

  function Create(d: Disk, f: int): Disk {
    Disk(CreatePages(d.pages, f), d.free[f := []])
  }

  ghost function Alloc(d: Disk, f: int): Disk
    requires DiskOk(d) && f in d.free
  {
    assert FileOk(d.pages, f, d.free[f]);
    Disk(AllocPages(d.pages, f), if d.free[f] == [] then d.free else d.free[f := d.free[f][1..]])
  }

  ghost function Dispose(d: Disk, id: PageId): Disk
    requires DiskOk(d) && id.file in d.free
  {
    assert FileOk(d.pages, id.file, d.free[id.file]);
    Disk(DisposePages(d.pages, id), d.free[id.file := [id.pageNo] + d.free[id.file]])
  }

  function Write(d: Disk, id: PageId, page: DiskPage): Disk {
    d.(pages := d.pages[id := page])
  }

  // ----- laws -----

  lemma OtherFileOk(pages: Pages, pages': Pages, f: int, free: seq<int>)
    requires FileOk(pages, f, free)
    requires forall p :: PageId(f, p) in pages' <==> PageId(f, p) in pages
    requires forall p :: PageId(f, p) in pages ==> pages'[PageId(f, p)] == pages[PageId(f, p)]
    ensures FileOk(pages', f, free)
  {}

  lemma OneFileChanged(d: Disk, e: Disk, f: int)
    requires DiskOk(d) && f in e.free && FileOk(e.pages, f, e.free[f])
    requires forall g :: g != f ==> (g in e.free <==> g in d.free) && (g in e.free ==> e.free[g] == d.free[g])
    requires forall id: PageId :: id.file != f ==>
      (id in e.pages <==> id in d.pages) && (id in e.pages ==> e.pages[id] == d.pages[id])
    ensures DiskOk(e)
  {
    forall g | g in e.free ensures FileOk(e.pages, g, e.free[g]) {
      if g != f {
        OtherFileOk(d.pages, e.pages, g, d.free[g]);
      }
    }
  }

  lemma CreateLaw(d: Disk, f: int)
    requires DiskOk(d) && f !in d.free
    ensures DiskOk(Create(d, f))
    ensures forall id :: InUse(Create(d, f), id) <==> InUse(d, id)
  {
    OneFileChanged(d, Create(d, f), f);
  }

  lemma AllocFileOk(pages: Pages, f: int, free: seq<int>)
    requires FileOk(pages, f, free)
    ensures FileOk(AllocPages(pages, f), f, if free == [] then free else free[1..])
    ensures NextAlloc(pages, f) == if free == [] then pages[PageId(f, 0)].numPages else free[0]
  {
    var pages' := AllocPages(pages, f);
    if free != [] {
      var rest := free[1..];
      assert Chained(pages', f, rest) by {
        forall k | 0 <= k < |rest|
          ensures PageId(f, rest[k]) in pages' && pages'[PageId(f, rest[k])] == FreePage(Link(rest, k + 1))
        {
          assert rest[k] == free[k + 1];
        }
        assert pages[PageId(f, free[0])] == FreePage(Link(free, 1));
      }
    }
  }

  lemma AllocDiskOk(d: Disk, f: int)
    requires DiskOk(d) && f in d.free
    ensures DiskOk(Alloc(d, f))
  {
    AllocFileOk(d.pages, f, d.free[f]);
    OneFileChanged(d, Alloc(d, f), f);
  }

  lemma NextAllocIsNew(pages: Pages, f: int, free: seq<int>)
    requires FileOk(pages, f, free)
    ensures var n := NextAlloc(pages, f);
            && 1 <= n && (pages[PageId(f, 0)].nextFree == -1 <==> free == [])
            && if free == [] then n == pages[PageId(f, 0)].numPages && PageId(f, n) !in pages
               else n == free[0] && n !in free[1..] && PageId(f, n) in pages && pages[PageId(f, n)].FreePage?
  {}

  lemma AllocPagesAt(pages: Pages, f: int, free: seq<int>, x: PageId)
    requires FileOk(pages, f, free)
    ensures x in AllocPages(pages, f) <==> x in pages || x == PageId(f, NextAlloc(pages, f))
    ensures x in pages && x != PageId(f, 0) ==> AllocPages(pages, f)[x] == pages[x]
  {
    NextAllocIsNew(pages, f, free);
  }

  lemma AllocInUse(d: Disk, f: int, x: PageId)
    requires f in d.free && FileOk(d.pages, f, d.free[f]) && DiskOk(d)
    ensures var id := PageId(f, NextAlloc(d.pages, f));
            && 1 <= id.pageNo
            && !InUse(d, id)
            && (InUse(Alloc(d, f), x) <==> InUse(d, x) || x == id)
            && (InUse(d, x) ==> Alloc(d, f).pages[x] == d.pages[x])
  {
    NextAllocIsNew(d.pages, f, d.free[f]);
    AllocPagesAt(d.pages, f, d.free[f], x);
    hide FileOk, DiskOk, NextAlloc, AllocPages;
    var free := d.free[f];
    if free != [] {
      assert free == [free[0]] + free[1..];
    }
  }

  /** An allocated page was not in use; no page in use changes or is lost. */
  lemma AllocLaw(d: Disk, f: int)
    requires DiskOk(d) && f in d.free
    ensures DiskOk(Alloc(d, f))
    ensures HasHeader(d.pages, f)
    ensures var id := PageId(f, NextAlloc(d.pages, f));
            && 1 <= id.pageNo
            && !InUse(d, id)
            && (forall x :: InUse(Alloc(d, f), x) <==> InUse(d, x) || x == id)
            && (forall x :: InUse(d, x) ==> Alloc(d, f).pages[x] == d.pages[x])
  {
    AllocDiskOk(d, f);
    forall x {
      AllocInUse(d, f, x);
    }
  }

  lemma DisposeFileOk(pages: Pages, id: PageId, free: seq<int>)
    requires FileOk(pages, id.file, free) && Disposable(pages, id) && id.pageNo !in free
    ensures FileOk(DisposePages(pages, id), id.file, [id.pageNo] + free)
  {
    var f := id.file;
    var pages' := DisposePages(pages, id);
    var free' := [id.pageNo] + free;
    assert Chained(pages', f, free') by {
      forall k | 0 <= k < |free'|
        ensures PageId(f, free'[k]) in pages' && pages'[PageId(f, free'[k])] == FreePage(Link(free', k + 1))
      {
        if k > 0 {
          assert free'[k] == free[k - 1];
        }
      }
    }
  }

  lemma DisposeDiskOk(d: Disk, id: PageId)
    requires DiskOk(d) && InUse(d, id) && HasHeader(d.pages, id.file) && Disposable(d.pages, id)
    ensures DiskOk(Dispose(d, id))
  {
    DisposeFileOk(d.pages, id, d.free[id.file]);
    OneFileChanged(d, Dispose(d, id), id.file);
  }

  lemma DisposeInUse(d: Disk, id: PageId, x: PageId)
    requires DiskOk(d) && InUse(d, id) && HasHeader(d.pages, id.file) && Disposable(d.pages, id)
    ensures InUse(Dispose(d, id), x) <==> InUse(d, x) && x != id
    ensures InUse(d, x) && x != id ==> Dispose(d, id).pages[x] == d.pages[x]
  {}

  /** Disposing of a page in use takes exactly that page out of use. */
  lemma DisposeLaw(d: Disk, id: PageId)
    requires DiskOk(d) && InUse(d, id) && HasHeader(d.pages, id.file) && Disposable(d.pages, id)
    ensures DiskOk(Dispose(d, id))
    ensures forall x :: InUse(Dispose(d, id), x) <==> InUse(d, x) && x != id
    ensures forall x :: InUse(d, x) && x != id ==> Dispose(d, id).pages[x] == d.pages[x]
  {
    DisposeDiskOk(d, id);
    forall x {
      DisposeInUse(d, id, x);
    }
  }

  lemma WriteLaw(d: Disk, id: PageId, page: DiskPage)
    requires DiskOk(d) && InUse(d, id)
    ensures DiskOk(Write(d, id, page))
    ensures forall x :: InUse(Write(d, id, page), x) <==> InUse(d, x)
  {
    var e := Write(d, id, page);
    forall g | g in e.free ensures FileOk(e.pages, g, e.free[g]) {
      assert FileOk(d.pages, g, d.free[g]);
      if g != id.file {
        OtherFileOk(d.pages, e.pages, g, d.free[g]);
      }
    }
  }

  /** The page disposed of last is the page allocated next, and the free list is back where it was. */
  lemma DisposeThenAlloc(d: Disk, id: PageId)
    requires DiskOk(d) && InUse(d, id) && HasHeader(d.pages, id.file) && Disposable(d.pages, id)
    ensures DiskOk(Dispose(d, id))
    ensures var e := Dispose(d, id);
            && HasHeader(e.pages, id.file) && NextAlloc(e.pages, id.file) == id.pageNo
            && Alloc(e, id.file).free[id.file] == d.free[id.file]
            && AllocPages(e.pages, id.file) == d.pages[id := FreePage(d.pages[PageId(id.file, 0)].nextFree)]
  {
    DisposeDiskOk(d, id);
    var e := Dispose(d, id);
    assert e.free[id.file][1..] == d.free[id.file];
    DisposeFileOk(d.pages, id, d.free[id.file]);
    AllocFileOk(e.pages, id.file, e.free[id.file]);
  }

  /** Page j of the list links to its successor, and page k back to the first. */
  ghost predicate LoopsAt(after: Pages, f: int, free: seq<int>, k: nat, j: nat)
    requires j <= k < |free|
  {
    PageId(f, free[j]) in after && after[PageId(f, free[j])] == FreePage(if j == k then free[0] else free[j + 1])
  }

  lemma DoubleFreeStep(pages: Pages, f: int, free: seq<int>, k: nat, j: nat)
    requires FileOk(pages, f, free) && j <= k < |free|
    ensures LoopsAt(DisposePages(pages, PageId(f, free[k])), f, free, k, j)
  {
    assert pages[PageId(f, free[j])] == FreePage(Link(free, j + 1));
  }

  /** In the pages left by a second disposal of page free[k], nextFree leads back to that page. */
  lemma {:induction false} DoubleFreeWalk(after: Pages, f: int, free: seq<int>, k: nat, bad: seq<int>, i: nat)
    requires HasHeader(after, f) && Chained(after, f, bad)
    requires k < |free| && i <= k + 1 && after[PageId(f, 0)].nextFree == free[k]
    requires forall j :: 0 <= j < |free| ==> free[j] != -1
    requires forall j :: 0 <= j <= k ==> LoopsAt(after, f, free, k, j)
    ensures i < |bad| && bad[i] == if i == 0 then free[k] else free[i - 1]
    decreases i
  {
    if i > 0 {
      DoubleFreeWalk(after, f, free, k, bad, i - 1);
      assert after[PageId(f, bad[i - 1])] == FreePage(Link(bad, i));
      var j := if i == 1 then k else i - 2;
      assert LoopsAt(after, f, free, k, j);
    }
  }

  /** File::disposePage does not look for the page on the free list. Among the page numbers it accepts,
      the list stays well formed exactly for those that were not free already. */
  lemma DisposeKeepsListIffNotFree(pages: Pages, id: PageId, free: seq<int>)
    requires FileOk(pages, id.file, free) && Disposable(pages, id)
    ensures (exists free' :: FileOk(DisposePages(pages, id), id.file, free')) <==> id.pageNo !in free
  {
    if id.pageNo !in free {
      DisposeFileOk(pages, id, free);
    } else {
      var k :| 0 <= k < |free| && free[k] == id.pageNo;
      var after := DisposePages(pages, id);
      forall j | 0 <= j <= k
        ensures LoopsAt(after, id.file, free, k, j)
      {
        DoubleFreeStep(pages, id.file, free, k, j);
      }
      forall bad ensures !FileOk(after, id.file, bad) {
        if FileOk(after, id.file, bad) {
          DoubleFreeWalk(after, id.file, free, k, bad, 0);
          DoubleFreeWalk(after, id.file, free, k, bad, k + 1);
          assert false;
        }
      }
    }
  }

  /** The whole disk stays well formed exactly when the page was not free. */
  lemma DisposeOkIffNotFree(d: Disk, id: PageId)
    requires DiskOk(d) && id.file in d.free && HasHeader(d.pages, id.file) && Disposable(d.pages, id)
    ensures DiskOk(Dispose(d, id)) <==> id.pageNo !in d.free[id.file]
  {
    var free := d.free[id.file];
    assert FileOk(d.pages, id.file, free);
    DisposeKeepsListIffNotFree(d.pages, id, free);
    if id.pageNo !in free {
      DisposeDiskOk(d, id);
    } else {
      assert !FileOk(Dispose(d, id).pages, id.file, [id.pageNo] + free);
    }
  }
}
