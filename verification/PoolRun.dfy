/** Whole runs of the buffer pool (buf.C): whatever is read, evicted, flushed and allocated in between, every
    page holds what was last written to it. */
module PoolRuns {
  import opened Statuses
  import opened DiskSpec
  import opened Clock
  import opened PoolSpec

  /** The calls of clients, and their writes through the pointers that readPage and allocPage have given them. */
  datatype Event =
    | Read(id: PageId)
    | Unpin(id: PageId, dirty: bool)
    | NewPage(f: int)
    | Modify(id: PageId, page: DiskPage)
    | Flush(f: int)
    | Free(id: PageId)

  /** What the pool expects of its clients. */
  ghost predicate Legal(p: Pool, e: Event)
    requires Ok(p)
  {
    match e
    case Read(id) => InUse(p.disk, id)
    case Unpin(id, dirty) => Pins(p, id) == 1 && !dirty ==> !Owes(p, id)
    case NewPage(f) => f in p.disk.free
    case Modify(id, _) => Pins(p, id) > 0
    case Flush(f) => f != NO_PAGE.file
    case Free(id) => InUse(p.disk, id) && HasHeader(p.disk.pages, id.file) && Disposable(p.disk.pages, id)
  }

  ghost function Step(p: Pool, e: Event): Pool
    requires Ok(p) && Legal(p, e)
  {
    match e
    case Read(id) => ReadPage(p, id)
    case Unpin(id, dirty) => UnPin(p, id, dirty)
    case NewPage(f) => AllocPageLaw(p, f); AllocPage(p, f)
    case Modify(id, page) => Poke(p, id, page)
    case Flush(f) => Flushed(p, f, FlushStop(p.table, f, 0))
    case Free(id) => DisposePage(p, id)
  }

  lemma StepOk(p: Pool, e: Event)
    requires Ok(p) && Legal(p, e)
    ensures Ok(Step(p, e))
  {
    hide Ok, InUse, DisposePage, AllocPage, ReadPage;
    match e
    case Read(id) => ReadLaw(p, id);
    case Unpin(id, dirty) => UnPinLaw(p, id, dirty);
    case NewPage(f) => AllocPageLaw(p, f);
    case Modify(id, page) => PokeLaw(p, id, page);
    case Flush(f) => FlushedLaw(p, f, FlushStop(p.table, f, 0));
    case Free(id) => DisposePageLaw(p, id);
  }

  /** A step leaves a page alone unless it writes to it or frees it. */
  lemma StepKeeps(p: Pool, e: Event, id: PageId)
    requires Ok(p) && Legal(p, e) && InUse(p.disk, id) && e != Free(id)
    ensures InUse(Step(p, e).disk, id)
    ensures Logical(Step(p, e), id) == if e.Modify? && e.id == id then e.page else Logical(p, id)
  {
    hide Ok, InUse, DisposePage, AllocPage, ReadPage, Flushed;
    match e
    case Read(x) => ReadLaw(p, x);
    case Unpin(x, dirty) => UnPinLaw(p, x, dirty);
    case NewPage(f) => AllocPageLaw(p, f);
    case Modify(x, page) => PokeLaw(p, x, page);
    case Flush(f) => FlushedLaw(p, f, FlushStop(p.table, f, 0));
    case Free(x) => DisposePageLaw(p, x);
  }

  /** Every event of the run is legal in the state it meets. */
  ghost predicate LegalRun(p: Pool, es: seq<Event>)
    requires Ok(p)
    decreases |es|
  {
    es == [] || (Legal(p, es[0]) && (StepOk(p, es[0]); LegalRun(Step(p, es[0]), es[1..])))
  }

  ghost function Run(p: Pool, es: seq<Event>): (q: Pool)
    requires Ok(p) && LegalRun(p, es)
    ensures Ok(q)
    decreases |es|
  {
    if es == [] then p
    else
      StepOk(p, es[0]);
      Run(Step(p, es[0]), es[1..])
  }

  /** What a page holds that started with a content, frames and disk forgotten. */
  function LastWrite(es: seq<Event>, id: PageId, content: DiskPage): DiskPage {
    if es == [] then content
    else LastWrite(es[1..], id, if es[0].Modify? && es[0].id == id then es[0].page else content)
  }

  /** Over any run, evictions, flushes and all, a page that is not freed holds what was last written to it. */
  lemma {:induction false} HoldsLastWrite(p: Pool, es: seq<Event>, id: PageId)
    requires Ok(p) && LegalRun(p, es) && InUse(p.disk, id) && Free(id) !in es
    ensures InUse(Run(p, es).disk, id) && Logical(Run(p, es), id) == LastWrite(es, id, Logical(p, id))
    decreases |es|
  {
    hide Ok, InUse, Logical, Legal, Step;
    if es != [] {
      assert es[0] in es;
      StepOk(p, es[0]);
      StepKeeps(p, es[0], id);
      assert Free(id) !in es[1..];
      HoldsLastWrite(Step(p, es[0]), es[1..], id);
    }
  }

  /** So a readPage at the end of the run that finds a frame finds the last write in it. */
  lemma ReadsLastWrite(p: Pool, es: seq<Event>, id: PageId)
    requires Ok(p) && LegalRun(p, es) && InUse(p.disk, id) && Free(id) !in es
    ensures var q := Run(p, es);
            ReadStatus(q, id) == OK ==>
            && InUse(q.disk, id) && id in ReadPage(q, id).index
            && 0 <= ReadPage(q, id).index[id] < |ReadPage(q, id).frames|
            && ReadPage(q, id).frames[ReadPage(q, id).index[id]] == LastWrite(es, id, Logical(p, id))
  {
    hide FrameOk, DiskOk, InUse, Run, LegalRun, ReadPage, Logical, LastWrite;
    HoldsLastWrite(p, es, id);
    ReadLaw(Run(p, es), id);
    if ReadStatus(Run(p, es), id) == OK {
      IndexBound(ReadPage(Run(p, es), id), id);
    }
  }

  lemma IndexBound(p: Pool, id: PageId)
    requires Ok(p) && id in p.index
    ensures 0 <= p.index[id] < |p.frames|
  {}

  /** And a completed flush of its file has put the last write on disk. */
  lemma FlushesLastWrite(p: Pool, es: seq<Event>, id: PageId)
    requires Ok(p) && LegalRun(p, es) && InUse(p.disk, id) && Free(id) !in es
    requires var q := Run(p, es); FlushStop(q.table, id.file, 0) == |q.table|
    ensures var q := Run(p, es); var r := Flushed(q, id.file, |q.table|);
            InUse(r.disk, id) && r.disk.pages[id] == LastWrite(es, id, Logical(p, id))
  {
    HoldsLastWrite(p, es, id);
    FlushFileDurable(Run(p, es), id.file, id);
  }

  /** The size of the pool, and everything else about frames, is invisible: two pools that start with the same
      content of a page and see the same writes end with the same content. */
  lemma FramesAreInvisible(p: Pool, q: Pool, es: seq<Event>, ds: seq<Event>, id: PageId)
    requires Ok(p) && LegalRun(p, es) && InUse(p.disk, id) && Free(id) !in es
    requires Ok(q) && LegalRun(q, ds) && InUse(q.disk, id) && Free(id) !in ds
    requires Logical(p, id) == Logical(q, id) && Writes(es, id) == Writes(ds, id)
    ensures Logical(Run(p, es), id) == Logical(Run(q, ds), id)
  {
    HoldsLastWrite(p, es, id);
    HoldsLastWrite(q, ds, id);
    LastOfWrites(es, id, Logical(p, id));
    LastOfWrites(ds, id, Logical(q, id));
  }

  /** The contents written to a page, in order. */
  function Writes(es: seq<Event>, id: PageId): seq<DiskPage> {
    if es == [] then []
    else (if es[0].Modify? && es[0].id == id then [es[0].page] else []) + Writes(es[1..], id)
  }

  lemma {:induction false} LastOfWrites(es: seq<Event>, id: PageId, content: DiskPage)
    ensures var ws := Writes(es, id);
            LastWrite(es, id, content) == if ws == [] then content else ws[|ws| - 1]
  {
    if es != [] {
      LastOfWrites(es[1..], id, if es[0].Modify? && es[0].id == id then es[0].page else content);
    }
  }
}
