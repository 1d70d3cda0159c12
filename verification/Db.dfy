/** The disk as the class File works on it (db.C): header and free pages are read, edited and written back. */
module Db {
  import opened Statuses
  import opened DiskSpec

  class DiskFiles {
    var pages: Pages
    ghost var free: map<int, seq<int>>

    ghost function View(): Disk
      reads this
    {
      Disk(pages, free)
    }

    ghost predicate Valid()
      reads this
    {
      DiskOk(View())
    }

    constructor ()
      ensures Valid() && View() == Disk(map[], map[])
    {
      pages, free := map[], map[];
    }

    method Create(f: int) returns (status: Status)
      requires Valid()
      modifies this
      ensures Valid()
      ensures status == if f in old(free) then FILEEXISTS else OK
      ensures View() == if status == OK then DiskSpec.Create(old(View()), f) else old(View())
    {
      assert f in free ==> FileOk(pages, f, free[f]);
      assert PageId(f, 0) in pages <==> f in free;
      if PageId(f, 0) in pages { return FILEEXISTS; }
      CreateLaw(View(), f);
      pages := CreatePages(pages, f);
      free := free[f := []];
      return OK;
    }

    /** The header and page updates of File::allocatePage. */
    method TakePage(f: int) returns (pageNo: int)
      requires HasHeader(pages, f)
      requires var n := pages[PageId(f, 0)].nextFree;
               n != -1 ==> PageId(f, n) in pages && pages[PageId(f, n)].FreePage?
      modifies this`pages
      ensures pageNo == NextAlloc(old(pages), f) && pages == AllocPages(old(pages), f)
    {
      var header := pages[PageId(f, 0)];
      if header.nextFree != -1 {
        pageNo := header.nextFree;
        var firstFree := pages[PageId(f, pageNo)];
        header := header.(nextFree := firstFree.link);
      } else {
        pageNo := header.numPages;
        pages := pages[PageId(f, pageNo) := Blank];
        header := header.(numPages := header.numPages + 1);
        if header.firstPage == -1 {
          header := header.(firstPage := pageNo);
        }
      }
      pages := pages[PageId(f, 0) := header];
    }

    method AllocatePage(f: int) returns (pageNo: int)
      requires Valid() && f in free
      modifies this
      ensures Valid() && HasHeader(old(pages), f)
      ensures pageNo == NextAlloc(old(pages), f) && View() == Alloc(old(View()), f)
    {
      AllocDiskOk(View(), f);
      assert FileOk(pages, f, free[f]);
      pageNo := TakePage(f);
      free := if free[f] == [] then free else free[f := free[f][1..]];
    }

    /** The free list stays well formed exactly when the page is not on it already. */
    method DisposePage(id: PageId) returns (status: Status)
      requires Valid() && id.file in free && HasHeader(pages, id.file)
      modifies this
      ensures status == if Disposable(old(pages), id) then OK else BADPAGENO
      ensures var header := old(pages)[PageId(id.file, 0)];
              status == BADPAGENO <==> id.pageNo < 1 || id.pageNo >= header.numPages || id.pageNo == header.firstPage
      ensures View() == if status == OK then Dispose(old(View()), id) else old(View())
      ensures Valid() <==> !(status == OK && id.pageNo in old(free)[id.file])
    {
      if id.pageNo < 1 { return BADPAGENO; }
      var header := pages[PageId(id.file, 0)];
      if header.firstPage == id.pageNo || id.pageNo >= header.numPages { return BADPAGENO; }
      DisposeOkIffNotFree(View(), id);
      var away := FreePage(header.nextFree);
      header := header.(nextFree := id.pageNo);
      pages := pages[id := away];
      pages := pages[PageId(id.file, 0) := header];
      free := free[id.file := [id.pageNo] + free[id.file]];
      return OK;
    }

    /** File::readPage does not ask whether the page is allocated; beyond the end of the file nothing can be read. */
    method ReadPage(id: PageId) returns (status: Status, page: DiskPage)
      requires Valid() && id.file in free
      ensures status == ReadError(View(), id) && HasHeader(pages, id.file)
      ensures status == if id.pageNo < 1 then BADPAGENO
                        else if id.pageNo >= pages[PageId(id.file, 0)].numPages then UNIXERR else OK
      ensures status == OK ==> id in pages && page == pages[id]
    {
      assert FileOk(pages, id.file, free[id.file]);
      page := Blank;
      if id.pageNo < 1 { return BADPAGENO, page; }
      if id !in pages { return UNIXERR, page; }
      return OK, pages[id];
    }

    method WritePage(id: PageId, page: DiskPage)
      requires Valid() && InUse(View(), id)
      modifies this`pages
      ensures Valid() && View() == Write(old(View()), id, page)
    {
      WriteLaw(View(), id, page);
      pages := pages[id := page];
    }

    /** File::getFirstPage */
    method GetFirstPage(f: int) returns (pageNo: int)
      requires Valid() && f in free
      ensures pageNo == -1 || InUse(View(), PageId(f, pageNo))
      ensures pageNo == if PageId(f, 1) in pages then 1 else -1
    {
      assert FileOk(pages, f, free[f]);
      pageNo := pages[PageId(f, 0)].firstPage;
    }
  }
}
