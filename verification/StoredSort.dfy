/** The sorted runs of sort.C as heap files, all of them open in one pool. */
module StoredSorts {
  import opened Bytes
  import opened Statuses
  import opened DiskSpec
  import opened Clock
  import opened PoolSpec
  import opened Buffer
  import opened ScanSpec
  import opened HeapSpec
  import opened HeapPool
  import opened HeapSessions
  import opened HeapFiles
  import opened Sorting
  import SlottedPage
  import BufHash
  import Db

  /** A sub-run (RUN in sort.h): the scan of its file, the record read ahead and the remembered position. */
  datatype Cell = Cell(inFile: HeapFile, valid: bool, rec: Record, rid: RID, mark: RID)

  // ----- where a scan stands -----

  /** How many records of the file the scan has passed. */
  ghost function Passed(hf: HeapFile): nat
    reads hf
    requires hf.CursorOk()
  {
    if |hf.Rest()| <= |hf.Contents()| then |hf.Contents()| - |hf.Rest()| else 0
  }

  /** How many it had passed when the position was marked. */
  ghost function MarkedAt(hf: HeapFile): nat
    reads hf
  {
    if hf.MarkOk() && |hf.MarkedRest()| <= |hf.Contents()| then |hf.Contents()| - |hf.MarkedRest()| else 0
  }

  lemma AheadIsRest(pages: seq<SlottedPage.PageImage>, i: nat, s: int)
    requires i < |pages| && -1 <= s
    ensures |Ahead(pages, i, s)| <= |Entries(pages)|
    ensures Entries(pages)[|Entries(pages)| - |Ahead(pages, i, s)|..] == Ahead(pages, i, s)
  {
    BehindAhead(pages, i, s);
  }

  lemma RecordAhead(pages: seq<SlottedPage.PageImage>, i: nat, s: int)
    requires i < |pages| && SlottedPage.HasRec(pages[i], s)
    ensures |Ahead(pages, i, s)| < |Entries(pages)|
    ensures Entries(pages)[|Entries(pages)| - |Ahead(pages, i, s)| - 1] == EntryAt(pages[i], s)
  {
    AheadIsRest(pages, i, s - 1);
    assert FromSlot(pages[i], s) == [EntryAt(pages[i], s)] + FromSlot(pages[i], s + 1);
    assert Ahead(pages, i, s - 1) == [EntryAt(pages[i], s)] + Ahead(pages, i, s);
    var es, rest := Entries(pages), Ahead(pages, i, s - 1);
    assert es[|es| - |rest|..][0] == rest[0];
  }

  /** What is ahead of the scan is the file from there on. */
  lemma PassedLaw(hf: HeapFile)
    requires hf.CursorOk() && hf.curFrame >= 0
    ensures |hf.Rest()| <= |hf.Contents()| && Passed(hf) == |hf.Contents()| - |hf.Rest()|
    ensures hf.Contents()[Passed(hf)..] == hf.Rest()
  {
    AheadIsRest(hf.heap.pages, hf.ci, hf.curRec.slotNo);
  }

  /** A scan on a record has just passed it. */
  lemma CurrentAt(hf: HeapFile)
    requires Inv(hf.heap) && hf.OnRecord()
    ensures 1 <= Passed(hf) <= |hf.Contents()| && hf.Contents()[Passed(hf) - 1] == hf.Current()
  {
    hide Inv, HeapSpec.Entries, HeapSpec.Ahead, FromSlot, SlottedPage.RecAt, SlottedPage.HasRec;
    RecordAhead(hf.heap.pages, hf.ci, hf.curRec.slotNo);
    PageOfChain(hf.heap, hf.ci);
  }

  /** A marked position on a record. */
  ghost predicate MarkOnRecord(hf: HeapFile)
    reads hf
  {
    && hf.MarkOk()
    && SlottedPage.HasRec(hf.heap.pages[hf.mi], hf.markedRec.slotNo)
    && hf.markedRec.pageNo == hf.markedPageNo
  }

  // ----- one run -----

  /** The run that a cell stands for. */
  ghost function RunOf(c: Cell): Run
    reads c.inFile
    requires c.inFile.CursorOk()
  {
    Run(Scan(c.inFile.Contents(), NoFilter, Passed(c.inFile)), c.valid, c.rec, c.rid, MarkedAt(c.inFile), c.mark)
  }

  /** The scan of the run is open on its file and nobody else is on that file. */
  ghost predicate CellOk(c: Cell, p: Pool, off: nat)
    reads c.inFile
    ensures CellOk(c, p, off) ==> c.inFile.CursorOk()
  {
    && Parked(c.inFile, p) && c.inFile.filter == NoFilter && RunOk(RunOf(c), off)
    && (c.rid.pageNo >= 0 ==> c.inFile.OnRecord())
    && (c.inFile.MarkOk() && c.mark.pageNo >= 0 ==> MarkOnRecord(c.inFile))
  }

  lemma Unpark(hf: HeapFile)
    requires Parked(hf, hf.bm.View()) && hf.bm.Valid()
    ensures hf.Valid() && hf.curFrame >= 0 && Inv(hf.heap) && Exclusive(hf.bm.View(), hf.Hd(), hf.heap.chain)
  {}

  lemma Park(hf: HeapFile)
    requires hf.Valid() && hf.curFrame >= 0 && Exclusive(hf.bm.View(), hf.Hd(), hf.heap.chain)
    ensures Parked(hf, hf.bm.View()) && Inv(hf.heap) && hf.bm.Valid()
  {}

  /** One step of an unfiltered scan, by position. */
  method Step(hf: HeapFile) returns (status: Status, rid: RID)
    requires hf.bm.Valid() && Parked(hf, hf.bm.View()) && hf.filter == NoFilter && NoEmpty(hf.Contents())
    modifies hf`curFrame, hf`curPageNo, hf`curDirtyFlag, hf`curRec, hf`ci, hf.bm.Repr()
    ensures hf.Valid() && Parked(hf, hf.bm.View()) && fresh(hf.bm.Repr() - old(hf.bm.Repr()))
    ensures Quiet(old(hf.bm.View()), old(hf.Hd()), hf.bm.View(), hf.Hd())
    ensures status == if old(Passed(hf)) == |hf.Contents()| then FILEEOF else OK
    ensures Passed(hf) == old(Passed(hf)) + if status == OK then 1 else 0
    ensures status == OK ==> hf.OnRecord() && rid == hf.curRec
  {
    hide BufMgr.Linked, PoolSpec.Ok, HeapSpec.Inv, HeapSpec.Entries, HeapFile.Hd, HeapFile.Rest, HeapFile.OnRecord,
         HeapFile.Current, HeapFile.CursorOk, HeapPool.Holding, HeapPool.Quiet, HeapPool.Unseen, HeapPool.Exclusive,
         Parked, NextStatus, NextRest, Skip, Passed;
    ghost var p, hd := hf.bm.View(), hf.Hd();
    Unpark(hf);
    PassedLaw(hf);
    ghost var rest := hf.Rest();
    PlainStep(rest);
    status, rid := hf.ScanNext();
    UnseenIsQuiet(p, hd, hf.bm.View(), hf.Hd());
    QuietExclusive(p, hd, hf.bm.View(), hf.Hd(), hf.heap.chain);
    Park(hf);
    PassedLaw(hf);
  }

  /** One step, and getRecord. */
  method Forward(hf: HeapFile) returns (status: Status, rid: RID, rec: Record)
    requires hf.bm.Valid() && Parked(hf, hf.bm.View()) && hf.filter == NoFilter && NoEmpty(hf.Contents())
    modifies hf`curFrame, hf`curPageNo, hf`curDirtyFlag, hf`curRec, hf`ci, hf.bm.Repr()
    ensures hf.bm.Valid() && Parked(hf, hf.bm.View()) && fresh(hf.bm.Repr() - old(hf.bm.Repr()))
    ensures Quiet(old(hf.bm.View()), old(hf.Hd()), hf.bm.View(), hf.Hd())
    ensures status == if old(Passed(hf)) == |hf.Contents()| then FILEEOF else OK
    ensures Passed(hf) == old(Passed(hf)) + if status == OK then 1 else 0
    ensures status == OK ==>
      hf.OnRecord() && 1 <= Passed(hf) <= |hf.Contents()| && hf.Contents()[Passed(hf) - 1] == Entry(rid, rec)
  {
    hide BufMgr.Linked, PoolSpec.Ok, HeapSpec.Inv, HeapSpec.Entries, HeapFile.Hd, HeapFile.OnRecord, HeapFile.Current,
         HeapFile.CursorOk, HeapPool.Holding, HeapPool.Quiet, HeapPool.Exclusive, Parked, Passed;
    rec := [];
    status, rid := Step(hf);
    if status == OK {
      Unpark(hf);
      CurrentAt(hf);
      CurrentRid(hf);
      FullRecord(hf);
      status, rec := hf.GetCurrent();
    }
  }

  lemma FullRecord(hf: HeapFile)
    requires Inv(hf.heap) && hf.OnRecord() && NoEmpty(hf.Contents())
    ensures hf.Current().rec != []
  {
    CurrentAt(hf);
  }

  lemma CurrentRid(hf: HeapFile)
    requires hf.OnRecord()
    ensures hf.Current().rid == hf.curRec
  {}

  lemma CellParts(c: Cell, p: Pool, off: nat)
    requires CellOk(c, p, off)
    ensures Parked(c.inFile, p) && c.inFile.filter == NoFilter && NoEmpty(c.inFile.Contents())
    ensures RunOk(RunOf(c), off)
    ensures Passed(c.inFile) <= |c.inFile.Contents()|
  {
    RunScan(RunOf(c), off);
  }

  lemma FilterKept(c: Cell, p: Pool, off: nat)
    requires CellOk(c, p, off)
    ensures RunOf(c).inFile == Scan(c.inFile.Contents(), NoFilter, Passed(c.inFile))
    ensures c.inFile.MarkOk() && c.mark.pageNo >= 0 ==> MarkOnRecord(c.inFile)
  {}

  /** The cell of a run whose scan has moved. */
  lemma MovedCell(c: Cell, p: Pool, off: nat, run: Run)
    requires Parked(c.inFile, p) && c.inFile.filter == NoFilter && RunOk(run, off)
    requires run == Run(Scan(c.inFile.Contents(), NoFilter, Passed(c.inFile)), c.valid, c.rec, c.rid,
                        MarkedAt(c.inFile), c.mark)
    requires c.rid.pageNo >= 0 ==> c.inFile.OnRecord()
    requires c.inFile.MarkOk() && c.mark.pageNo >= 0 ==> MarkOnRecord(c.inFile)
    ensures CellOk(c, p, off) && RunOf(c) == run
  {}

  /** The next() step on the scan of a run whose record is not in memory. */
  method FetchCell(c: Cell, ghost off: nat) returns (next: Cell)
    requires c.inFile.bm.Valid() && CellOk(c, c.inFile.bm.View(), off) && !c.valid
    modifies c.inFile`curFrame, c.inFile`curPageNo, c.inFile`curDirtyFlag, c.inFile`curRec, c.inFile`ci
    modifies c.inFile.bm.Repr()
    ensures next.inFile == c.inFile && c.inFile.bm.Valid() && fresh(c.inFile.bm.Repr() - old(c.inFile.bm.Repr()))
    ensures CellOk(next, c.inFile.bm.View(), off) && RunOf(next) == Peek(old(RunOf(c)))
    ensures c.inFile.MarkOk() == old(c.inFile.MarkOk())
    ensures Quiet(old(c.inFile.bm.View()), old(c.inFile.Hd()), c.inFile.bm.View(), c.inFile.Hd())
  {
    hide BufMgr.Linked, PoolSpec.Ok, HeapSpec.Inv, HeapSpec.Entries, HeapFile.Hd, HeapFile.Rest, HeapFile.OnRecord,
         HeapFile.Current, HeapFile.CursorOk, HeapPool.Holding, HeapPool.Quiet, HeapPool.Exclusive,
         Parked, Passed, Ahead, RunOk, NoEmpty, Peek, CellOk;
    var hf := c.inFile;
    ghost var was := RunOf(c);
    CellParts(c, hf.bm.View(), off);
    FilterKept(c, hf.bm.View(), off);
    var status, rid, rec := Forward(hf);
    if status == FILEEOF {
      PeekEnd(was, off);
      next := c.(rid := c.rid.(pageNo := -1), valid := true);
    } else {
      PeekMore(was, off);
      next := c.(rid := rid, rec := rec, valid := true);
    }
    MovedCell(next, hf.bm.View(), off, Peek(was));
  }

  /** The next() step on the scan of a run: read ahead unless that has been done. */
  method ReadCell(c: Cell, ghost off: nat) returns (next: Cell)
    requires c.inFile.bm.Valid() && CellOk(c, c.inFile.bm.View(), off)
    modifies c.inFile`curFrame, c.inFile`curPageNo, c.inFile`curDirtyFlag, c.inFile`curRec, c.inFile`ci
    modifies c.inFile.bm.Repr()
    ensures next.inFile == c.inFile && c.inFile.bm.Valid() && fresh(c.inFile.bm.Repr() - old(c.inFile.bm.Repr()))
    ensures CellOk(next, c.inFile.bm.View(), off) && RunOf(next) == Peek(old(RunOf(c)))
    ensures c.inFile.MarkOk() == old(c.inFile.MarkOk())
    ensures Quiet(old(c.inFile.bm.View()), old(c.inFile.Hd()), c.inFile.bm.View(), c.inFile.Hd())
  {
    hide BufMgr.Linked, PoolSpec.Ok, HeapFile.Hd, HeapPool.Quiet, CellOk, HeapFile.MarkOk, HeapFile.CursorOk;
    next := c;
    if c.valid {
      QuietRefl(c.inFile.bm.View(), c.inFile.Hd());
      CellParts(c, c.inFile.bm.View(), off);
    } else {
      next := FetchCell(c, off);
    }
  }

  lemma MarkIsHere(hf: HeapFile)
    requires hf.CursorOk() && hf.curFrame >= 0 && hf.MarkOk() && hf.mi == hf.ci && hf.markedRec == hf.curRec
    requires hf.markedPageNo == hf.curPageNo
    ensures MarkedAt(hf) == Passed(hf) && (hf.OnRecord() ==> MarkOnRecord(hf))
  {}

  method MarkCell(c: Cell, ghost off: nat) returns (next: Cell)
    requires c.inFile.bm.Valid() && CellOk(c, c.inFile.bm.View(), off)
    modifies c.inFile`markedPageNo, c.inFile`markedRec, c.inFile`mi
    ensures next.inFile == c.inFile && CellOk(next, c.inFile.bm.View(), off) && c.inFile.MarkOk()
    ensures RunOf(next) == MarkedHere(old(RunOf(c))) && c.inFile.Hd() == old(c.inFile.Hd())
  {
    hide BufMgr.Linked, PoolSpec.Ok, HeapSpec.Inv, HeapSpec.Entries, HeapPool.Holding, HeapPool.Exclusive, Ahead;
    CellParts(c, c.inFile.bm.View(), off);
    Unpark(c.inFile);
    c.inFile.MarkScan();
    MarkIsHere(c.inFile);
    next := c.(mark := c.rid);
  }

  /** gotoMark on one run. */
  method RestoreCell(c: Cell, ghost off: nat) returns (next: Cell)
    requires c.inFile.bm.Valid() && CellOk(c, c.inFile.bm.View(), off) && c.inFile.MarkOk()
    modifies c.inFile`curFrame, c.inFile`curPageNo, c.inFile`curDirtyFlag, c.inFile`curRec, c.inFile`ci
    modifies c.inFile.bm.Repr()
    ensures next.inFile == c.inFile && c.inFile.bm.Valid() && fresh(c.inFile.bm.Repr() - old(c.inFile.bm.Repr()))
    ensures CellOk(next, c.inFile.bm.View(), off) && RunOf(next) == Restored(old(RunOf(c))) && c.inFile.MarkOk()
    ensures Quiet(old(c.inFile.bm.View()), old(c.inFile.Hd()), c.inFile.bm.View(), c.inFile.Hd())
  {
    hide BufMgr.Linked, PoolSpec.Ok, HeapSpec.Inv, HeapSpec.Entries, HeapFile.Hd, HeapFile.Rest, HeapFile.OnRecord,
         HeapFile.Current, HeapFile.CursorOk, HeapPool.Holding, HeapPool.Quiet, HeapPool.Exclusive,
         Parked, Passed, Ahead, RunOk, NoEmpty;
    var hf := c.inFile;
    ghost var was := RunOf(c);
    CellParts(c, hf.bm.View(), off);
    var rec := Back(hf, c.mark.pageNo >= 0);
    RestoredLaw(was, off);
    next := c.(rid := c.mark, rec := if c.mark.pageNo >= 0 then rec else c.rec, valid := true);
  }

  /** resetScan, and getRecord if the marked position was on a record. */
  method Back(hf: HeapFile, onRecord: bool) returns (rec: Record)
    requires hf.bm.Valid() && Parked(hf, hf.bm.View()) && hf.MarkOk() && (onRecord ==> MarkOnRecord(hf))
    modifies hf`curFrame, hf`curPageNo, hf`curDirtyFlag, hf`curRec, hf`ci, hf.bm.Repr()
    ensures hf.bm.Valid() && Parked(hf, hf.bm.View()) && fresh(hf.bm.Repr() - old(hf.bm.Repr()))
    ensures Quiet(old(hf.bm.View()), old(hf.Hd()), hf.bm.View(), hf.Hd())
    ensures hf.MarkOk() && Passed(hf) == MarkedAt(hf) == old(MarkedAt(hf))
    ensures onRecord ==> hf.OnRecord() && 1 <= Passed(hf) <= |hf.Contents()| && hf.Contents()[Passed(hf) - 1].rec == rec
  {
    hide BufMgr.Linked, PoolSpec.Ok, HeapSpec.Inv, HeapSpec.Entries, HeapFile.Hd, HeapPool.Holding, HeapPool.Quiet,
         HeapPool.Unseen, HeapPool.Exclusive, Parked, Ahead;
    ghost var p, hd := hf.bm.View(), hf.Hd();
    Unpark(hf);
    rec := [];
    var status := hf.ResetScan();
    UnseenIsQuiet(p, hd, hf.bm.View(), hf.Hd());
    QuietExclusive(p, hd, hf.bm.View(), hf.Hd(), hf.heap.chain);
    Park(hf);
    if onRecord {
      CurrentAt(hf);
      status, rec := hf.GetCurrent();
    }
  }

  // ----- all runs in one pool -----

  /** A cell, the run it stands for and the pins of its scan. */
  ghost predicate CellIs(c: Cell, bm: BufMgr, p: Pool, off: nat, run: Run, hd: Handle)
    reads c.inFile
  {
    c.inFile.bm == bm && CellOk(c, p, off) && RunOf(c) == run && c.inFile.Hd() == hd
  }

  ghost predicate FilesDiffer(runs: seq<Cell>) {
    forall i, j :: 0 <= i < j < |runs| ==> runs[i].inFile.filePtr != runs[j].inFile.filePtr
  }

  /** The scans of the other runs do not notice what one scan does. */
  lemma OthersStay(runs: seq<Cell>, k: nat, bm: BufMgr, off: nat, abs: seq<Run>, hs: seq<Handle>, p: Pool, hd: Handle,
                   q: Pool, hd': Handle)
    requires k < |runs| == |abs| == |hs| && FilesDiffer(runs) && hd.file == runs[k].inFile.filePtr
    requires PoolSpec.Ok(p) && PoolSpec.Ok(q) && Quiet(p, hd, q, hd')
    requires forall i :: 0 <= i < |runs| && i != k ==> CellIs(runs[i], bm, p, off, abs[i], hs[i])
    ensures forall i :: 0 <= i < |runs| && i != k ==> CellIs(runs[i], bm, q, off, abs[i], hs[i])
  {
    hide PoolSpec.Ok, Quiet, Parked, RunOf, RunOk, MarkOnRecord, HeapFile.OnRecord, HeapFile.Hd;
    forall i | 0 <= i < |runs| && i != k ensures CellIs(runs[i], bm, q, off, abs[i], hs[i]) {
      assert CellIs(runs[i], bm, p, off, abs[i], hs[i]);
      ParkedStays(runs[i].inFile, p, hd, q, hd');
    }
  }

  ghost function ScansOf(runs: seq<Cell>): set<object> {
    set i | 0 <= i < |runs| :: runs[i].inFile
  }

  lemma SameScans(runs: seq<Cell>, k: nat, c: Cell)
    requires k < |runs| && c.inFile == runs[k].inFile
    ensures ScansOf(runs[k := c]) == ScansOf(runs) && runs[k].inFile in ScansOf(runs)
    ensures FilesDiffer(runs) ==> FilesDiffer(runs[k := c])
  {
    var next := runs[k := c];
    forall x: object | x in ScansOf(runs) ensures x in ScansOf(next) {
      var i :| 0 <= i < |runs| && x == runs[i].inFile;
      assert next[i].inFile == x;
    }
    forall x: object | x in ScansOf(next) ensures x in ScansOf(runs) {
      var i :| 0 <= i < |next| && x == next[i].inFile;
      assert runs[i].inFile == x;
    }
  }

  ghost predicate AllCells(runs: seq<Cell>, bm: BufMgr, p: Pool, off: nat, abs: seq<Run>, hs: seq<Handle>)
    reads ScansOf(runs)
    requires |runs| == |abs| == |hs|
  {
    forall i :: 0 <= i < |runs| ==> CellIs(runs[i], bm, p, off, abs[i], hs[i])
  }

  lemma EachCell(runs: seq<Cell>, k: nat, bm: BufMgr, p: Pool, off: nat, abs: seq<Run>, hs: seq<Handle>)
    requires |runs| == |abs| == |hs| && AllCells(runs, bm, p, off, abs, hs) && FilesDiffer(runs) && k < |runs|
    ensures forall i :: 0 <= i < |runs| && i != k ==>
      CellIs(runs[i], bm, p, off, abs[i], hs[i]) && runs[i].inFile != runs[k].inFile
    ensures var c := runs[k];
            && c.inFile.bm == bm && CellOk(c, p, off) && RunOf(c) == abs[k] && c.inFile.Hd() == hs[k]
            && hs[k].file == c.inFile.filePtr
            && abs[k].inFile.Valid() && RunOk(abs[k], off)
  {
    hide CellOk, RunOf, HeapFile.Hd;
    assert CellIs(runs[k], bm, p, off, abs[k], hs[k]);
    CellRun(runs[k], bm, p, off, abs[k], hs[k]);
    HandleFile(runs[k].inFile);
  }

  lemma IsCell(c: Cell, bm: BufMgr, p: Pool, off: nat)
    requires c.inFile.bm == bm && CellOk(c, p, off)
    ensures CellIs(c, bm, p, off, RunOf(c), c.inFile.Hd())
  {}

  /** The scan of one run has moved, the others have not. */
  lemma OneMoved(runs: seq<Cell>, k: nat, next: Cell, bm: BufMgr, off: nat, abs: seq<Run>, hs: seq<Handle>, p0: Pool,
                 p: Pool, run: Run, q: Pool, hd: Handle)
    requires k < |runs| == |abs| == |hs| && FilesDiffer(runs) && hs[k].file == runs[k].inFile.filePtr
    requires next.inFile == runs[k].inFile
    requires PoolSpec.Ok(p) && PoolSpec.Ok(q) && Quiet(p, hs[k], q, hd) && Session(p0, p, hs)
    requires forall i :: 0 <= i < |runs| && i != k ==> CellIs(runs[i], bm, p, off, abs[i], hs[i])
    requires CellIs(next, bm, q, off, run, hd)
    ensures AllCells(runs[k := next], bm, q, off, abs[k := run], hs[k := hd]) && Session(p0, q, hs[k := hd])
    ensures FilesDiffer(runs[k := next]) && ScansOf(runs[k := next]) == ScansOf(runs)
  {
    hide PoolSpec.Ok, Quiet, Session, CellIs, ScansOf;
    OthersStay(runs, k, bm, off, abs, hs, p, hs[k], q, hd);
    SessionStep(p0, p, hs, k, q, hd);
    SameScans(runs, k, next);
  }

  lemma CellRun(c: Cell, bm: BufMgr, p: Pool, off: nat, run: Run, hd: Handle)
    requires CellIs(c, bm, p, off, run, hd)
    ensures run.inFile.Valid() && RunOk(run, off)
  {}

  ghost predicate AllMarked(runs: seq<Cell>)
    reads ScansOf(runs)
  {
    forall i :: 0 <= i < |runs| ==> runs[i].inFile.MarkOk()
  }

  /** Read ahead in run i, while the scans of all the others are open. */
  method AdvanceRun(bm: BufMgr, runs: seq<Cell>, i: nat, ghost off: nat, ghost p0: Pool, ghost abs: seq<Run>,
                    ghost hs: seq<Handle>)
    returns (next: Cell, ghost hd: Handle)
    requires bm.Valid() && i < |runs| == |abs| == |hs| && FilesDiffer(runs) && Session(p0, bm.View(), hs)
    requires AllCells(runs, bm, bm.View(), off, abs, hs)
    modifies runs[i].inFile, bm.Repr()
    ensures bm.Valid() && fresh(bm.Repr() - old(bm.Repr())) && next.inFile == runs[i].inFile
    ensures FilesDiffer(runs[i := next])
    ensures abs[i].inFile.Valid() && AllCells(runs[i := next], bm, bm.View(), off, abs[i := Peek(abs[i])], hs[i := hd])
    ensures Session(p0, bm.View(), hs[i := hd]) && ScansOf(runs[i := next]) == ScansOf(runs)
    ensures old(AllMarked(runs)) ==> AllMarked(runs[i := next])
  {
    hide BufMgr.Linked, BufMgr.View, PoolSpec.Ok, Session, CellIs, CellOk, RunOf, HeapFile.Hd, HeapPool.Quiet, Peek,
         RunOk, HeapFile.MarkOk, AllCells, FilesDiffer;
    ghost var p := bm.View();
    EachCell(runs, i, bm, p, off, abs, hs);
    next := ReadCell(runs[i], off);
    hd := runs[i].inFile.Hd();
    IsCell(next, bm, bm.View(), off);
    OneMoved(runs, i, next, bm, off, abs, hs, p0, p, Peek(abs[i]), bm.View(), hd);
  }

  /** Remember the position of run i. */
  method MarkRun(bm: BufMgr, runs: seq<Cell>, i: nat, ghost off: nat, ghost abs: seq<Run>, ghost hs: seq<Handle>)
    returns (next: Cell)
    requires bm.Valid() && i < |runs| == |abs| == |hs| && FilesDiffer(runs)
    requires AllCells(runs, bm, bm.View(), off, abs, hs)
    modifies runs[i].inFile
    ensures next.inFile == runs[i].inFile && FilesDiffer(runs[i := next]) && ScansOf(runs[i := next]) == ScansOf(runs)
    ensures AllCells(runs[i := next], bm, bm.View(), off, abs[i := MarkedHere(abs[i])], hs) && next.inFile.MarkOk()
    ensures forall j :: 0 <= j < |runs| && old(runs[j].inFile.MarkOk()) ==> runs[j].inFile.MarkOk()
  {
    hide BufMgr.Linked, BufMgr.View, PoolSpec.Ok, CellIs, CellOk, RunOf, HeapFile.Hd, RunOk, HeapFile.MarkOk, AllCells,
         FilesDiffer;
    EachCell(runs, i, bm, bm.View(), off, abs, hs);
    next := MarkCell(runs[i], off);
    IsCell(next, bm, bm.View(), off);
    OneMarked(runs, i, next, bm, bm.View(), off, abs, hs, MarkedHere(abs[i]));
  }

  lemma OneMarked(runs: seq<Cell>, k: nat, next: Cell, bm: BufMgr, p: Pool, off: nat, abs: seq<Run>, hs: seq<Handle>,
                  run: Run)
    requires k < |runs| == |abs| == |hs| && FilesDiffer(runs) && next.inFile == runs[k].inFile
    requires forall i :: 0 <= i < |runs| && i != k ==> CellIs(runs[i], bm, p, off, abs[i], hs[i])
    requires CellIs(next, bm, p, off, run, hs[k])
    ensures AllCells(runs[k := next], bm, p, off, abs[k := run], hs)
    ensures FilesDiffer(runs[k := next]) && ScansOf(runs[k := next]) == ScansOf(runs)
  {
    hide CellIs, ScansOf;
    SameScans(runs, k, next);
  }

  /** Go back to the marked position of run i. */
  method RestoreRun(bm: BufMgr, runs: seq<Cell>, i: nat, ghost off: nat, ghost p0: Pool, ghost abs: seq<Run>,
                    ghost hs: seq<Handle>)
    returns (next: Cell, ghost hd: Handle)
    requires bm.Valid() && i < |runs| == |abs| == |hs| && FilesDiffer(runs) && Session(p0, bm.View(), hs)
    requires AllCells(runs, bm, bm.View(), off, abs, hs) && AllMarked(runs)
    modifies runs[i].inFile, bm.Repr()
    ensures bm.Valid() && fresh(bm.Repr() - old(bm.Repr())) && next.inFile == runs[i].inFile
    ensures FilesDiffer(runs[i := next])
    ensures AllCells(runs[i := next], bm, bm.View(), off, abs[i := Restored(abs[i])], hs[i := hd])
    ensures Session(p0, bm.View(), hs[i := hd]) && ScansOf(runs[i := next]) == ScansOf(runs)
    ensures AllMarked(runs[i := next])
  {
    hide BufMgr.Linked, BufMgr.View, PoolSpec.Ok, Session, CellIs, CellOk, RunOf, HeapFile.Hd, HeapPool.Quiet, Restored,
         RunOk, HeapFile.MarkOk, AllCells, FilesDiffer;
    ghost var p := bm.View();
    EachCell(runs, i, bm, p, off, abs, hs);
    next := RestoreCell(runs[i], off);
    hd := runs[i].inFile.Hd();
    IsCell(next, bm, bm.View(), off);
    OneMoved(runs, i, next, bm, off, abs, hs, p0, p, Restored(abs[i]), bm.View(), hd);
  }

  lemma GivenUpCell(c: Cell, p: Pool, off: nat)
    requires CellOk(c, p, off) && RunOf(c).valid
    ensures CellOk(c.(valid := false), p, off) && RunOf(c.(valid := false)) == RunOf(c).(valid := false)
  {
    GivenUp(RunOf(c), off);
  }

  /** The run gives up its record. */
  lemma OneGivenUp(runs: seq<Cell>, k: nat, bm: BufMgr, p: Pool, off: nat, abs: seq<Run>, hs: seq<Handle>)
    requires k < |runs| == |abs| == |hs| && FilesDiffer(runs) && AllCells(runs, bm, p, off, abs, hs) && abs[k].valid
    ensures var next := runs[k].(valid := false);
            && AllCells(runs[k := next], bm, p, off, abs[k := abs[k].(valid := false)], hs)
            && FilesDiffer(runs[k := next]) && ScansOf(runs[k := next]) == ScansOf(runs)
            && (AllMarked(runs) ==> AllMarked(runs[k := next]))
  {
    hide CellOk, RunOf, ScansOf, HeapFile.MarkOk, HeapFile.Hd, FilesDiffer, AllCells;
    EachCell(runs, k, bm, p, off, abs, hs);
    var next := runs[k].(valid := false);
    GivenUpCell(runs[k], p, off);
    IsCell(next, bm, p, off);
    hide CellIs;
    SameScans(runs, k, next);
    OneMarked(runs, k, next, bm, p, off, abs, hs, abs[k].(valid := false));
  }

  // ----- opening the runs -----

  /** A run of which nothing has been read. */
  function Unread(file: seq<Entry>): Run { Run(Open(file, NoFilter), false, [], RID(-1, -1), 0, RID(-1, -1)) }

  lemma JustOpened(hf: HeapFile, off: nat)
    requires hf.CursorOk() && hf.Rest() == hf.Contents() && !hf.MarkOk()
    ensures RunOf(Cell(hf, false, [], RID(-1, -1), RID(-1, -1))) == Unread(hf.Contents())
  {}

  /** One more file takes part in a session. */
  lemma SessionJoined(p: Pool, q: Pool, hs: seq<Handle>, c: Handle)
    requires Session(p, q, hs) && !c.HasHdr() && !c.HasCur()
    ensures Session(p, q, hs + [c])
  {
    forall id ensures Owns(hs + [c], id) == Owns(hs, id) {
      OwnsAppend(hs, c, id);
    }
    forall id: PageId | NoneOf(hs + [c], id.file) ensures NoneOf(hs, id.file) {
      assert forall i :: 0 <= i < |hs| ==> (hs + [c])[i] == hs[i];
    }
  }

  lemma {:induction false} OwnsAppend(hs: seq<Handle>, c: Handle, id: PageId)
    ensures Owns(hs + [c], id) == Owns(hs, id) + Own(c, id)
  {
    if hs == [] {
      assert hs + [c] == [c] && [c][1..] == [];
    } else {
      assert (hs + [c])[1..] == hs[1..] + [c];
      OwnsAppend(hs[1..], c, id);
    }
  }

  /** The scans that are open already do not notice that another file is opened. */
  lemma AllStay(runs: seq<Cell>, bm: BufMgr, off: nat, abs: seq<Run>, hs: seq<Handle>, p: Pool, a: Handle, q: Pool,
                hd: Handle)
    requires |runs| == |abs| == |hs| && forall i :: 0 <= i < |runs| ==> CellIs(runs[i], bm, p, off, abs[i], hs[i])
    requires forall i :: 0 <= i < |runs| ==> runs[i].inFile.filePtr != a.file
    requires PoolSpec.Ok(p) && PoolSpec.Ok(q) && Quiet(p, a, q, hd)
    ensures AllCells(runs, bm, q, off, abs, hs)
  {
    hide PoolSpec.Ok, Quiet, Parked, RunOf, RunOk, MarkOnRecord, HeapFile.OnRecord, HeapFile.Hd;
    forall i | 0 <= i < |runs| ensures CellIs(runs[i], bm, q, off, abs[i], hs[i]) {
      assert CellIs(runs[i], bm, p, off, abs[i], hs[i]);
      ParkedStays(runs[i].inFile, p, a, q, hd);
    }
  }

  lemma EveryCell(runs: seq<Cell>, bm: BufMgr, p: Pool, off: nat, abs: seq<Run>, hs: seq<Handle>)
    requires |runs| == |abs| == |hs| && AllCells(runs, bm, p, off, abs, hs)
    ensures forall i :: 0 <= i < |runs| ==> CellIs(runs[i], bm, p, off, abs[i], hs[i])
  {}

  lemma OneAdded(runs: seq<Cell>, c: Cell, bm: BufMgr, q: Pool, off: nat, abs: seq<Run>, hs: seq<Handle>, run: Run,
                 hd: Handle)
    requires |runs| == |abs| == |hs| && AllCells(runs, bm, q, off, abs, hs) && CellIs(c, bm, q, off, run, hd)
    ensures AllCells(runs + [c], bm, q, off, abs + [run], hs + [hd])
  {
    hide CellIs;
  }

  lemma StillDiffer(runs: seq<Cell>, c: Cell)
    requires FilesDiffer(runs) && forall i :: 0 <= i < |runs| ==> runs[i].inFile.filePtr != c.inFile.filePtr
    ensures FilesDiffer(runs + [c])
  {}

  lemma SessionOpened(p0: Pool, p: Pool, hs: seq<Handle>, a: Handle, q: Pool, hd: Handle)
    requires Session(p0, p, hs) && !a.HasHdr() && !a.HasCur() && Quiet(p, a, q, hd)
    ensures Session(p0, q, hs + [hd])
  {
    hide Session, Quiet;
    SessionJoined(p0, p, hs, a);
    SessionStep(p0, p, hs + [a], |hs|, q, hd);
    assert (hs + [a])[|hs| := hd] == hs + [hd];
  }

  /** startScans for one run. */
  method OpenRun(bm: BufMgr, runs: seq<Cell>, f: int, ghost h: Heap, ghost off: nat, ghost p0: Pool,
                 ghost abs: seq<Run>, ghost hs: seq<Handle>)
    returns (c: Cell, ghost hd: Handle)
    requires bm.Valid() && |runs| == |abs| == |hs| && FilesDiffer(runs) && Session(p0, bm.View(), hs)
    requires AllCells(runs, bm, bm.View(), off, abs, hs) && forall i :: 0 <= i < |runs| ==> runs[i].inFile.filePtr != f
    requires Ready(bm.View(), f, h) && Sorting.FileOk(Entries(h.pages), off)
    requires |PinnedPages(bm.View())| + 2 <= bm.numBufs
    modifies bm.Repr()
    ensures bm.Valid() && fresh(bm.Repr() - old(bm.Repr())) && fresh(c.inFile) && c.inFile.filePtr == f
    ensures AllCells(runs + [c], bm, bm.View(), off, abs + [Unread(Entries(h.pages))], hs + [hd])
    ensures FilesDiffer(runs + [c])
    ensures Session(p0, bm.View(), hs + [hd]) && Quiet(old(bm.View()), Closed(f, 1), bm.View(), hd)
  {
    hide BufMgr.Linked, PoolSpec.Ok, HeapSpec.Inv, HeapSpec.Entries, HeapFile.Hd, HeapFile.Rest, HeapFile.CursorOk,
         HeapPool.Quiet, HeapPool.Unseen, HeapPool.Exclusive, HeapPool.CanOpen, HeapPool.Settled, HeapPool.Holding;
    hide Unpinned, PinnedPages, Session, Parked, AllCells, CellIs, FilesDiffer, Unread, HeapFile.MarkOk;
    ghost var p, a := bm.View(), Closed(f, 1);
    FirstCanOpen(bm, f, h);
    ReadyIsFile(p, f, h);
    EveryCell(runs, bm, p, off, abs, hs);
    var hf := new HeapFile(bm, f, h);
    hd := hf.Hd();
    ghost var q := bm.View();
    UnseenIsQuiet(p, a, q, hd);
    OpenedExclusive(p, f, q, hd, h);
    Park(hf);
    JustOpened(hf, off);
    c := Cell(hf, false, [], RID(-1, -1), RID(-1, -1));
    UnreadOk(Entries(h.pages), off);
    NewCell(c, bm, off);
    AllStay(runs, bm, off, abs, hs, p, a, q, hd);
    OneAdded(runs, c, bm, q, off, abs, hs, Unread(Entries(h.pages)), hd);
    StillDiffer(runs, c);
    SessionOpened(p0, p, hs, a, q, hd);
  }

  lemma UnreadOk(file: seq<Entry>, off: nat)
    requires Sorting.FileOk(file, off)
    ensures RunOk(Unread(file), off)
  {}

  lemma NewCell(c: Cell, bm: BufMgr, off: nat)
    requires c.inFile.bm == bm && Parked(c.inFile, bm.View()) && c.inFile.filter == NoFilter
    requires RunOk(RunOf(c), off)
    requires c.rid.pageNo < 0 && c.mark.pageNo < 0
    ensures CellIs(c, bm, bm.View(), off, RunOf(c), c.inFile.Hd())
  {}

  /** The files of the runs from n on are closed and hold the attribute in every record. */
  ghost predicate RunsReady(p: Pool, files: seq<int>, heaps: seq<Heap>, off: nat, n: nat) {
    |files| == |heaps| && forall i :: n <= i < |files| ==>
        Ready(p, files[i], heaps[i]) && Sorting.FileOk(Entries(heaps[i].pages), off)
  }

  predicate AllDiffer(files: seq<int>) {
    forall i, j :: 0 <= i < j < |files| ==> files[i] != files[j]
  }

  lemma RunsStayReady(p: Pool, hd: Handle, q: Pool, hd': Handle, files: seq<int>, heaps: seq<Heap>, off: nat, n: nat)
    requires RunsReady(p, files, heaps, off, n) && n < |files| && AllDiffer(files) && hd.file == files[n]
    requires PoolSpec.Ok(q) && Quiet(p, hd, q, hd')
    ensures RunsReady(q, files, heaps, off, n + 1)
  {
    hide PoolSpec.Ok, Quiet, Ready, Sorting.FileOk;
    forall i | n < i < |files| ensures Ready(q, files[i], heaps[i]) {
      ReadyStays(p, hd, q, hd', files[i], heaps[i]);
    }
  }

  function UnreadRuns(heaps: seq<Heap>): seq<Run> {
    seq(|heaps|, i requires 0 <= i < |heaps| => Unread(Entries(heaps[i].pages)))
  }

  function FilesOf(heaps: seq<Heap>): seq<seq<Entry>> {
    seq(|heaps|, i requires 0 <= i < |heaps| => Entries(heaps[i].pages))
  }

  lemma UnreadRems(heaps: seq<Heap>)
    ensures Rems(UnreadRuns(heaps)) == FileRecs(FilesOf(heaps))
  {
    assert forall i :: 0 <= i < |heaps| ==> Entries(heaps[i].pages)[0..] == Entries(heaps[i].pages);
  }

  /** SortedFile on heap files: abs is what its runs stand for, hs what its scans have pinned since p0. */
  class StoredSortedFile {
    const bm: BufMgr
    const offset: nat
    var runs: seq<Cell>
    ghost const p0: Pool
    ghost var abs: seq<Run>
    ghost var hs: seq<Handle>

    ghost function Scans(): set<object>
      reads this
    {
      ScansOf(runs)
    }

    ghost predicate Valid()
      reads this, Scans(), bm, bm.bufTable, bm.bufPool, bm.hashTable, bm.hashTable.ht, bm.hashTable.buckets, bm.disk
      ensures Valid() ==> |abs| == |runs|
    {
      && bm.Valid() && PoolSpec.Ok(p0) && |abs| == |hs| == |runs| && FilesDiffer(runs) && Session(p0, bm.View(), hs)
      && AllCells(runs, bm, bm.View(), offset, abs, hs)
    }

    ghost predicate Marked()
      reads this, Scans()
    {
      AllMarked(runs)
    }

    /** What next() returns from here on, would return if its last record were given back, and returns after
        gotoMark. */
    ghost function Output(): seq<Record>
      reads this
    {
      MergeOut(Rems(abs), offset)
    }

    ghost function Rewound(): seq<Record>
      reads this
    {
      MergeOut(Replays(abs), offset)
    }

    ghost function MarkedOutput(): seq<Record>
      reads this
    {
      MergeOut(Marks(abs), offset)
    }

    constructor (bm: BufMgr, offset: nat, runs: seq<Cell>, ghost p0: Pool, ghost abs: seq<Run>, ghost hs: seq<Handle>)
      requires bm.Valid() && PoolSpec.Ok(p0) && |abs| == |hs| == |runs| && FilesDiffer(runs)
      requires Session(p0, bm.View(), hs)
      requires AllCells(runs, bm, bm.View(), offset, abs, hs)
      ensures Valid() && this.bm == bm && this.offset == offset && this.runs == runs && this.p0 == p0 && this.abs == abs
      ensures this.hs == hs
    {
      hide BufMgr.Linked, PoolSpec.Ok, Session, CellOk, RunOf, HeapFile.Hd, FilesDiffer, ScansOf;
      this.bm, this.offset, this.runs, this.p0, this.abs, this.hs := bm, offset, runs, p0, abs, hs;
    }

    /** Get the next record of run i into memory. */
    method ReadAhead(i: nat)
      requires Valid() && i < |runs|
      modifies this`runs, this`abs, this`hs, runs[i].inFile, bm.Repr()
      ensures Valid() && fresh(bm.Repr() - old(bm.Repr())) && Scans() == old(Scans())
      ensures old(abs)[i].inFile.Valid() && abs == old(abs)[i := Peek(old(abs)[i])]
      ensures old(Marked()) ==> Marked()
    {
      hide BufMgr.Linked, BufMgr.View, PoolSpec.Ok, Session, Peek, AllCells, AllMarked, FilesDiffer;
      var next;
      ghost var hd;
      next, hd := AdvanceRun(bm, runs, i, offset, p0, abs, hs);
      runs, abs, hs := runs[i := next], abs[i := Peek(abs[i])], hs[i := hd];
    }

    /** Between calls every run holds two pages. */
    lemma TwoPagesEach()
      requires Valid() && forall i :: 0 <= i < |runs| ==> Idle(p0, runs[i].inFile.filePtr)
      ensures OpenHandles(hs) && |PinnedPages(bm.View())| == |PinnedPages(p0)| + 2 * |runs|
    {
      forall i | 0 <= i < |runs| ensures OpenHandle(hs[i]) && hs[i].file == runs[i].inFile.filePtr {
        EveryCell(runs, bm, bm.View(), offset, abs, hs);
        CellIsOpen(runs[i], bm, bm.View(), offset, abs[i], hs[i]);
      }
      RunsPins(p0, bm.View(), hs);
    }

    lemma RunsOk()
      requires Valid()
      ensures AllOk(abs, offset)
      ensures forall i :: 0 <= i < |runs| ==>
        runs[i].inFile in Scans() && runs[i].rec == abs[i].rec && runs[i].rid == abs[i].rid
    {
      forall i | 0 <= i < |runs|
        ensures RunOk(abs[i], offset) && runs[i].inFile in Scans() && runs[i].rec == abs[i].rec
        ensures runs[i].rid == abs[i].rid
      {
        assert CellIs(runs[i], bm, bm.View(), offset, abs[i], hs[i]);
        SameScans(runs, i, runs[i]);
      }
    }

    /** The turn of the loop for run i. */
    method Consider(ghost start: seq<Run>, i: nat, smallest: int) returns (next: int)
      requires Valid() && AllOk(start, offset) && i < |start| && forall k :: 0 <= k < |start| ==>
        start[k].inFile.Valid()
      requires abs == Peeked(start, i) && smallest == Best(Rems(start), offset, i)
      modifies this`runs, this`abs, this`hs, Scans(), bm.Repr()
      ensures Valid() && fresh(bm.Repr() - old(bm.Repr())) && Scans() == old(Scans()) && (old(Marked()) ==> Marked())
      ensures abs == Peeked(start, i + 1) && next == Best(Rems(start), offset, i + 1)
    {
      hide StoredSortedFile.Valid, Scans, Marked, AllOk, Rems, Best, Peek, After, Key;
      RunsOk();
      ChooseIsBest(start, offset, i);
      ReadAhead(i);
      RunsOk();
      assert abs == Peeked(start, i + 1);
      next := smallest;
      if runs[i].rid.pageNo >= 0 {
        if smallest < 0 {
          next := i;
        } else if After(Key(runs[smallest].rec, offset), Key(runs[i].rec, offset)) {
          next := i;
        }
      }
    }

    /** Look at the head of every run; the result is the run with the smallest one, or -1. */
    method FindSmallest() returns (smallest: int)
      requires Valid()
      modifies this`runs, this`abs, this`hs, Scans(), bm.Repr()
      ensures Valid() && fresh(bm.Repr() - old(bm.Repr())) && Scans() == old(Scans()) && (old(Marked()) ==> Marked())
      ensures forall i :: 0 <= i < |old(abs)| ==> old(abs)[i].inFile.Valid()
      ensures abs == Peeked(old(abs), |old(abs)|)
      ensures smallest == Best(Rems(old(abs)), offset, |old(abs)|)
    {
      hide StoredSortedFile.Valid, StoredSortedFile.Marked, Peeked, Best, Rems, AllOk, Sorting.Marked;
      RunsOk();
      ghost var start := abs;
      PeekedNone(start, offset);
      smallest := -1;
      var i := 0;
      while i < |runs|
        invariant 0 <= i <= |runs| == |start| && AllOk(start, offset)
        invariant Valid() && fresh(bm.Repr() - old(bm.Repr())) && Scans() == old(Scans())
        invariant old(Marked()) ==> Marked()
        invariant abs == Peeked(start, i)
        invariant smallest == Best(Rems(start), offset, i)
      {
        ghost var repr := bm.Repr();
        smallest := Consider(start, i, smallest);
        forall o | o in bm.Repr() - old(bm.Repr()) ensures fresh(o) {
          assert o in bm.Repr() - repr || o in repr - old(bm.Repr());
        }
        i := i + 1;
      }
    }

    /** Return the smallest record at the head of a run and move that run on. */
    method Next() returns (status: Status, rec: Record)
      requires Valid()
      modifies this`runs, this`abs, this`hs, Scans(), bm.Repr()
      ensures status == if old(Output()) == [] then FILEEOF else OK
      ensures status == OK ==> rec == old(Output())[0] && offset + 4 <= |rec|
      ensures Output() == if status == OK then old(Output())[1..] else []
      ensures Rewound() == old(Output()) && MarkedOutput() == old(MarkedOutput())
      ensures Valid() && fresh(bm.Repr() - old(bm.Repr())) && Scans() == old(Scans()) && (old(Marked()) ==> Marked())
    {
      hide StoredSortedFile.Valid, Scans, StoredSortedFile.Marked, Rem, RunOk, Peek, Replay, Sorting.Marked;
      rec := [];
      ghost var start := abs;
      RunsOk();
      PeekedAll(start, offset);
      var smallest := FindSmallest();
      RunsOk();
      if smallest < 0 { return FILEEOF, rec; }
      TakeHead(start, offset, smallest);
      PeekedValid(start, offset, smallest);
      rec := runs[smallest].rec;
      GiveUp(smallest);
      status := OK;
    }

    /** Remember the position in every run. */
    method SetMark()
      requires Valid()
      modifies this`runs, this`abs, Scans()
      ensures Output() == old(Output()) && Rewound() == old(Rewound()) && MarkedOutput() == old(Rewound())
      ensures Valid() && Scans() == old(Scans()) && Marked()
    {
      hide StoredSortedFile.Valid, Scans, MarkedTo, Rems, Replays, Marks, MarkedHere;
      RunsOk();
      ghost var start := abs;
      var i := 0;
      NoneMarked();
      while i < |runs|
        invariant 0 <= i <= |runs| == |start| && Valid() && Scans() == old(Scans()) && MarkedTo(i)
        invariant |abs| == |runs| && forall j :: 0 <= j < i ==> abs[j] == MarkedHere(start[j])
        invariant forall j :: i <= j < |runs| ==> abs[j] == start[j]
      {
        Mark(i);
        i := i + 1;
      }
      MarkedAll();
      MarksLaw(start, abs, offset);
    }

    ghost predicate MarkedTo(n: nat)
      reads this, Scans()
    {
      n <= |runs| && forall i :: 0 <= i < n ==> runs[i].inFile.MarkOk()
    }

    lemma NoneMarked()
      ensures MarkedTo(0)
    {}

    lemma MarkedAll()
      requires MarkedTo(|runs|)
      ensures Marked()
    {}

    method Mark(i: nat)
      requires Valid() && i < |runs| && MarkedTo(i)
      modifies this`runs, this`abs, Scans()
      ensures Valid() && Scans() == old(Scans()) && MarkedTo(i + 1)
      ensures abs == old(abs)[i := MarkedHere(old(abs)[i])]
    {
      hide BufMgr.Linked, BufMgr.View, PoolSpec.Ok, Session, MarkedHere, AllCells, FilesDiffer, HeapFile.MarkOk;
      RunsOk();
      var next := MarkRun(bm, runs, i, offset, abs, hs);
      runs, abs := runs[i := next], abs[i := MarkedHere(abs[i])];
    }

    /** Go back to the remembered position in every run, with its record in memory. */
    method GotoMark()
      requires Valid() && Marked()
      modifies this`runs, this`abs, this`hs, Scans(), bm.Repr()
      ensures Output() == old(MarkedOutput()) == MarkedOutput() && Rewound() == MarkedOutput()
      ensures Valid() && fresh(bm.Repr() - old(bm.Repr())) && Scans() == old(Scans()) && Marked()
    {
      hide StoredSortedFile.Valid, StoredSortedFile.Marked, Rems, Replays, Marks, Restored, AllOk, MergeOut;
      RunsOk();
      ghost var start := abs;
      var i := 0;
      while i < |runs|
        invariant 0 <= i <= |runs| == |start| && Valid() && Scans() == old(Scans()) && Marked()
        invariant fresh(bm.Repr() - old(bm.Repr()))
        invariant |abs| == |runs| && forall j :: 0 <= j < i ==> abs[j] == Restored(start[j])
        invariant forall j :: i <= j < |runs| ==> abs[j] == start[j]
      {
        ghost var repr := bm.Repr();
        SameScans(runs, i, runs[i]);
        Restore(i);
        forall o | o in bm.Repr() - old(bm.Repr()) ensures fresh(o) {
          assert o in bm.Repr() - repr || o in repr - old(bm.Repr());
        }
        i := i + 1;
      }
      RestoresLaw(start, abs, offset);
    }

    method Restore(i: nat)
      requires Valid() && Marked() && i < |runs|
      modifies this`runs, this`abs, this`hs, runs[i].inFile, bm.Repr()
      ensures Valid() && fresh(bm.Repr() - old(bm.Repr())) && Scans() == old(Scans()) && Marked()
      ensures abs == old(abs)[i := Restored(old(abs)[i])]
    {
      hide BufMgr.Linked, BufMgr.View, PoolSpec.Ok, Session, Restored, AllCells, AllMarked, FilesDiffer;
      var next;
      ghost var hd;
      next, hd := RestoreRun(bm, runs, i, offset, p0, abs, hs);
      runs, abs, hs := runs[i := next], abs[i := Restored(abs[i])], hs[i := hd];
    }

    method GiveUp(k: nat)
      requires Valid() && k < |runs| && abs[k].valid
      modifies this`runs, this`abs
      ensures Valid() && Scans() == old(Scans()) && (old(Marked()) ==> Marked())
      ensures abs == old(abs)[k := old(abs)[k].(valid := false)]
    {
      hide BufMgr.Linked, BufMgr.View, PoolSpec.Ok, Session, AllCells, AllMarked, FilesDiffer;
      OneGivenUp(runs, k, bm, bm.View(), offset, abs, hs);
      runs, abs := runs[k := runs[k].(valid := false)], abs[k := abs[k].(valid := false)];
    }
  }

  lemma PeekedValid(runs: seq<Run>, off: nat, k: nat)
    requires AllOk(runs, off) && k < |runs|
    ensures forall i :: 0 <= i < |runs| ==> runs[i].inFile.Valid()
    ensures Peeked(runs, |runs|)[k].valid
  {
    assert forall i :: 0 <= i < |runs| ==> RunOk(runs[i], off);
    PeekLaw(runs[k], off);
  }

  /** The scans opened so far are on the first files. */
  ghost predicate Named(runs: seq<Cell>, files: seq<int>) {
    |runs| <= |files| && forall j :: 0 <= j < |runs| ==> runs[j].inFile.filePtr == files[j]
  }

  /** startScans for the next run. */
  method OpenNext(bm: BufMgr, runs: seq<Cell>, files: seq<int>, ghost heaps: seq<Heap>, offset: nat, ghost p0: Pool,
                  ghost abs: seq<Run>, ghost hs: seq<Handle>)
    returns (c: Cell, ghost hd: Handle)
    requires bm.Valid() && |runs| == |abs| == |hs| < |files| == |heaps| && AllDiffer(files) && Named(runs, files)
    requires PoolSpec.Ok(p0)
    requires Session(p0, bm.View(), hs) && AllCells(runs, bm, bm.View(), offset, abs, hs) && FilesDiffer(runs)
    requires RunsReady(bm.View(), files, heaps, offset, |runs|) && |PinnedPages(p0)| + 2 * |files| <= bm.numBufs
    modifies bm.Repr()
    ensures bm.Valid() && fresh(bm.Repr() - old(bm.Repr())) && Named(runs + [c], files) && FilesDiffer(runs + [c])
    ensures AllCells(runs + [c], bm, bm.View(), offset, abs + [Unread(Entries(heaps[|runs|].pages))], hs + [hd])
    ensures Session(p0, bm.View(), hs + [hd]) && RunsReady(bm.View(), files, heaps, offset, |runs| + 1)
  {
    hide BufMgr.Linked, BufMgr.View, PoolSpec.Ok, Session, AllCells, FilesDiffer, Quiet, PinnedPages, RunsReady, Unread,
         AllDiffer, HeapSpec.Entries, Ready, Sorting.FileOk, ScansOf;
    var n := |runs|;
    ghost var p := bm.View();
    ReadyNow(p, files, heaps, offset, n);
    RoomForRun(p0, p, hs, bm);
    c, hd := OpenRun(bm, runs, files[n], heaps[n], offset, p0, abs, hs);
    RunsStayReady(p, Closed(files[n], 1), bm.View(), hd, files, heaps, offset, n);
  }

  /** startScans: open a scan on the file of every run. */
  method StartRuns(bm: BufMgr, files: seq<int>, ghost heaps: seq<Heap>, offset: nat) returns (sf: StoredSortedFile)
    requires bm.Valid() && |files| == |heaps| && RunsReady(bm.View(), files, heaps, offset, 0) && AllDiffer(files)
    requires |PinnedPages(bm.View())| + 2 * |files| <= bm.numBufs
    modifies bm.Repr()
    ensures fresh(sf) && fresh(bm.Repr() - old(bm.Repr())) && sf.Valid() && sf.bm == bm && sf.offset == offset
    ensures sf.p0 == old(bm.View())
    ensures |sf.runs| == |files| && sf.Output() == MergeOut(FileRecs(FilesOf(heaps)), offset)
  {
    hide BufMgr.Linked, BufMgr.View, PoolSpec.Ok, Session, AllCells, FilesDiffer, PinnedPages, RunsReady, Unread,
         AllDiffer, Named, UnreadRuns, Rems, StoredSortedFile.Valid;
    var runs: seq<Cell> := [];
    ghost var abs: seq<Run>, hs: seq<Handle>, p0 := [], [], bm.View();
    NoRuns(bm, p0, offset, heaps, files);
    while |runs| < |files|
      invariant |runs| == |abs| == |hs| <= |files| && bm.Valid() && fresh(bm.Repr() - old(bm.Repr()))
      invariant Session(p0, bm.View(), hs) && AllCells(runs, bm, bm.View(), offset, abs, hs) && FilesDiffer(runs)
      invariant Named(runs, files)
      invariant RunsReady(bm.View(), files, heaps, offset, |runs|) && abs == UnreadRuns(heaps[..|runs|])
    {
      ghost var n := |runs|;
      var c;
      ghost var hd;
      c, hd := OpenNext(bm, runs, files, heaps, offset, p0, abs, hs);
      OneUnread(heaps, n);
      runs, abs, hs := runs + [c], abs + [Unread(Entries(heaps[n].pages))], hs + [hd];
    }
    assert heaps[..|files|] == heaps;
    UnreadRems(heaps);
    sf := new StoredSortedFile(bm, offset, runs, p0, abs, hs);
  }

  lemma OneUnread(heaps: seq<Heap>, n: nat)
    requires n < |heaps|
    ensures UnreadRuns(heaps[..n + 1]) == UnreadRuns(heaps[..n]) + [Unread(Entries(heaps[n].pages))]
  {}

  lemma NoRuns(bm: BufMgr, p: Pool, off: nat, heaps: seq<Heap>, files: seq<int>)
    requires PoolSpec.Ok(p)
    ensures Session(p, p, []) && Named([], files) && AllCells([], bm, p, off, [], []) && FilesDiffer([])
    ensures UnreadRuns(heaps[..0]) == []
  {
    SessionStart(p, []);
  }

  lemma ReadyNow(p: Pool, files: seq<int>, heaps: seq<Heap>, off: nat, n: nat)
    requires RunsReady(p, files, heaps, off, n) && AllDiffer(files) && n < |files|
    ensures Ready(p, files[n], heaps[n]) && Sorting.FileOk(Entries(heaps[n].pages), off)
    ensures forall j :: 0 <= j < n ==> files[j] != files[n]
  {}

  lemma RoomForRun(p0: Pool, p: Pool, hs: seq<Handle>, bm: BufMgr)
    requires PoolSpec.Ok(p0) && Session(p0, p, hs)
    ensures |PinnedPages(p)| <= |PinnedPages(p0)| + 2 * |hs|
  {
    SessionPins(p0, p, hs);
  }

  // ----- the frames that the runs take -----

  /** An open scan: its header page and its current page. */
  predicate OpenHandle(hd: Handle) { hd.HasHdr() && hd.HasCur() && hd.HdrId() != hd.CurId() }

  ghost predicate OpenHandles(hs: seq<Handle>) {
    && (forall i :: 0 <= i < |hs| ==> OpenHandle(hs[i]))
    && (forall i, j :: 0 <= i < j < |hs| ==> hs[i].file != hs[j].file)
  }

  ghost predicate OnOneOf(hs: seq<Handle>, f: int) {
    exists i :: 0 <= i < |hs| && hs[i].file == f
  }

  lemma {:induction false} GripFile(hs: seq<Handle>, id: PageId)
    requires id in Gripped(hs)
    ensures OnOneOf(hs, id.file)
  {
    if id in Gripped(hs[1..]) {
      GripFile(hs[1..], id);
      var i :| 0 <= i < |hs[1..]| && hs[1..][i].file == id.file;
      assert hs[i + 1].file == id.file;
    } else {
      assert hs[0].file == id.file;
    }
  }

  lemma {:induction false} GripOwned(hs: seq<Handle>, id: PageId)
    requires forall i :: 0 <= i < |hs| ==> OpenHandle(hs[i])
    ensures 0 <= Owns(hs, id) && (id in Gripped(hs) ==> Owns(hs, id) > 0)
  {
    if hs != [] {
      assert forall i :: 0 <= i < |hs[1..]| ==> hs[1..][i] == hs[i + 1];
      assert OpenHandle(hs[0]);
      GripOwned(hs[1..], id);
    }
  }

  lemma {:induction false} GripSize(hs: seq<Handle>)
    requires OpenHandles(hs)
    ensures |Gripped(hs)| == 2 * |hs|
  {
    if hs != [] {
      var rest := hs[1..];
      assert forall i :: 0 <= i < |rest| ==> rest[i] == hs[i + 1];
      GripSize(rest);
      forall id | id in Gripped(rest) ensures id.file != hs[0].file {
        GripFile(rest, id);
      }
      assert OpenHandle(hs[0]);
      TwoMore(Gripped(rest), hs[0].HdrId(), hs[0].CurId());
    }
  }

  lemma TwoMore(s: set<PageId>, a: PageId, b: PageId)
    requires a !in s && b !in s && a != b
    ensures |{a, b} + s| == |s| + 2
  {
    assert {a, b} + s == s + {a} + {b};
  }

  /** n scans on files that were idle hold 2 * n pages. */
  lemma RunsPins(p0: Pool, q: Pool, hs: seq<Handle>)
    requires PoolSpec.Ok(p0) && Session(p0, q, hs) && OpenHandles(hs) && forall i :: 0 <= i < |hs| ==>
      Idle(p0, hs[i].file)
    ensures |PinnedPages(q)| == |PinnedPages(p0)| + 2 * |hs|
  {
    GripSize(hs);
    forall id ensures id in PinnedPages(q) <==> id in PinnedPages(p0) || id in Gripped(hs) {
      PinnedOrGripped(p0, q, hs, id);
    }
    forall id | id in Gripped(hs) ensures id !in PinnedPages(p0) {
      GripFile(hs, id);
      var i :| 0 <= i < |hs| && hs[i].file == id.file;
      IdlePage(p0, hs[i].file, id);
    }
    hide PinnedPages, Gripped;
    SizeOfBoth(PinnedPages(q), PinnedPages(p0), Gripped(hs));
  }

  lemma PinnedOrGripped(p0: Pool, q: Pool, hs: seq<Handle>, id: PageId)
    requires PoolSpec.Ok(p0) && Session(p0, q, hs) && forall i :: 0 <= i < |hs| ==> OpenHandle(hs[i])
    ensures id in PinnedPages(q) <==> id in PinnedPages(p0) || id in Gripped(hs)
  {
    assert Pins(q, id) == Pins(p0, id) + Owns(hs, id);
    assert 0 <= Pins(p0, id) by {
      if id in p0.index {
        assert FrameOk(p0, p0.index[id]);
      }
    }
    GripOwned(hs, id);
    if Owns(hs, id) > 0 {
      OwnedIsGripped(hs, id);
    }
  }

  lemma SizeOfBoth(a: set<PageId>, b: set<PageId>, c: set<PageId>)
    requires (forall id :: id in a <==> id in b || id in c) && forall id :: id in c ==> id !in b
    ensures |a| == |b| + |c|
  {
    assert a == b + c && b !! c;
  }

  lemma IdlePage(p: Pool, f: int, id: PageId)
    requires Idle(p, f) && id.file == f
    ensures Pins(p, id) == 0
  {}

  /** So the scan of one more run can be opened exactly when the pool had two frames for every run. */
  lemma OneMoreRunIff(p0: Pool, q: Pool, hs: seq<Handle>, f: int, h: Heap)
    requires PoolSpec.Ok(p0) && PoolSpec.Ok(q) && Session(p0, q, hs) && OpenHandles(hs) && forall i :: 0 <= i < |hs| ==>
      Idle(p0, hs[i].file)
    requires Ready(q, f, h) && Pins(q, PageId(f, h.hdrNo)) == 0
    ensures CanOpen(q, f, h) <==> |PinnedPages(p0)| + 2 * (|hs| + 1) <= |q.table|
  {
    RunsPins(p0, q, hs);
    CanOpenIff(q, f, h);
  }

  lemma CellIsOpen(c: Cell, bm: BufMgr, p: Pool, off: nat, run: Run, hd: Handle)
    requires CellIs(c, bm, p, off, run, hd)
    ensures OpenHandle(hd) && hd.file == c.inFile.filePtr
  {
    HeldParts(c.inFile.heap);
  }

  // ----- closing the runs -----

  /** The scans of the first n runs are closed, the others as they were. */
  ghost predicate ClosedTo(runs: seq<Cell>, n: nat, bm: BufMgr, p: Pool, off: nat, abs: seq<Run>, hs: seq<Handle>)
    reads ScansOf(runs)
  {
    && n <= |runs| == |abs| == |hs|
    && (forall i :: 0 <= i < |runs| ==> hs[i].file == runs[i].inFile.filePtr)
    && (forall i :: 0 <= i < n ==> !hs[i].HasHdr() && !hs[i].HasCur())
    && (forall i :: n <= i < |runs| ==> CellIs(runs[i], bm, p, off, abs[i], hs[i]))
  }

  lemma NoneClosed(runs: seq<Cell>, bm: BufMgr, p: Pool, off: nat, abs: seq<Run>, hs: seq<Handle>)
    requires |runs| == |abs| == |hs| && AllCells(runs, bm, p, off, abs, hs)
    ensures ClosedTo(runs, 0, bm, p, off, abs, hs)
  {
    forall i | 0 <= i < |runs| ensures hs[i].file == runs[i].inFile.filePtr {
      assert CellIs(runs[i], bm, p, off, abs[i], hs[i]);
      CellIsOpen(runs[i], bm, p, off, abs[i], hs[i]);
    }
  }

  lemma NextToClose(runs: seq<Cell>, n: nat, bm: BufMgr, p: Pool, off: nat, abs: seq<Run>, hs: seq<Handle>)
    requires ClosedTo(runs, n, bm, p, off, abs, hs) && FilesDiffer(runs) && n < |runs|
    ensures var hf := runs[n].inFile;
            hf.bm == bm && Parked(hf, p) && hf.Hd() == hs[n] && hs[n].file == hf.filePtr
    ensures forall i :: n < i < |runs| ==>
      CellIs(runs[i], bm, p, off, abs[i], hs[i]) && runs[i].inFile != runs[n].inFile
    ensures forall i :: 0 <= i < |runs| && i != n ==> hs[i].file != hs[n].file
  {
    assert CellIs(runs[n], bm, p, off, abs[n], hs[n]);
  }

  lemma OneClosed(runs: seq<Cell>, n: nat, bm: BufMgr, p: Pool, off: nat, abs: seq<Run>, hs: seq<Handle>, q: Pool,
                  hd: Handle)
    requires n < |runs| == |abs| == |hs| && FilesDiffer(runs)
    requires (forall i :: 0 <= i < |runs| ==> hs[i].file == runs[i].inFile.filePtr)
    requires forall i :: 0 <= i < n ==> !hs[i].HasHdr() && !hs[i].HasCur()
    requires forall i :: n < i < |runs| ==> CellIs(runs[i], bm, p, off, abs[i], hs[i])
    requires PoolSpec.Ok(p) && PoolSpec.Ok(q) && Quiet(p, hs[n], q, hd) && hd.file == hs[n].file && !hd.HasHdr()
    requires !hd.HasCur()
    ensures ClosedTo(runs, n + 1, bm, q, off, abs, hs[n := hd])
  {
    hide PoolSpec.Ok, Quiet, Parked, RunOf, RunOk, MarkOnRecord, HeapFile.OnRecord, HeapFile.Hd;
    forall i | n < i < |runs| ensures CellIs(runs[i], bm, q, off, abs[i], hs[i]) {
      assert CellIs(runs[i], bm, p, off, abs[i], hs[i]);
      ParkedStays(runs[i].inFile, p, hs[n], q, hd);
    }
  }

  /** Close the scan of run n; it was the only one on its file. */
  method CloseRun(bm: BufMgr, runs: seq<Cell>, n: nat, ghost off: nat, ghost p0: Pool, ghost abs: seq<Run>,
                  ghost hs: seq<Handle>)
    returns (ghost hd: Handle)
    requires bm.Valid() && PoolSpec.Ok(p0) && FilesDiffer(runs) && n < |runs|
    requires ClosedTo(runs, n, bm, bm.View(), off, abs, hs)
    requires Session(p0, bm.View(), hs) && Idle(p0, runs[n].inFile.filePtr) && runs[n].inFile.filePtr != NO_PAGE.file
    modifies runs[n].inFile, bm.Repr()
    ensures bm.Valid() && fresh(bm.Repr() - old(bm.Repr()))
    ensures ClosedTo(runs, n + 1, bm, bm.View(), off, abs, hs[n := hd]) && Session(p0, bm.View(), hs[n := hd])
  {
    hide BufMgr.Linked, PoolSpec.Ok, HeapSpec.Inv, HeapFile.Hd, HeapPool.Quiet, HeapPool.Unseen, HeapPool.Exclusive,
         HeapPool.Holding, HeapPool.Settled, HeapPool.SoleUser, HeapPool.Idle, HeapPool.OnDisk, Shrunk, Session,
         HeapFile.CursorOk, Parked, CellIs;
    var hf := runs[n].inFile;
    ghost var p := bm.View();
    NextToClose(runs, n, bm, p, off, abs, hs);
    Unpark(hf);
    SessionSole(p0, p, hs, n);
    hf.Close(0);
    ghost var q := bm.View();
    hd := Closed(hf.filePtr, hf.headerPageNo).(hdrDirty := hf.hdrDirtyFlag);
    UnseenIsQuiet(p, hs[n], q, hd);
    OneClosed(runs, n, bm, p, off, abs, hs, q, hd);
    SessionStep(p0, p, hs, n, q, hd);
  }

  /** ~SortedFile: close the scans of all runs. */
  method CloseRuns(sf: StoredSortedFile)
    requires sf.Valid() && forall i :: 0 <= i < |sf.runs| ==>
      Idle(sf.p0, sf.runs[i].inFile.filePtr) && sf.runs[i].inFile.filePtr != NO_PAGE.file
    modifies sf.Scans(), sf.bm.Repr()
    ensures sf.bm.Valid() && fresh(sf.bm.Repr() - old(sf.bm.Repr())) && SamePins(sf.p0, sf.bm.View())
  {
    hide BufMgr.Linked, BufMgr.View, PoolSpec.Ok, Session, AllCells, FilesDiffer, ClosedTo, SamePins, HeapPool.Idle;
    ghost var hs := sf.hs;
    NoneClosed(sf.runs, sf.bm, sf.bm.View(), sf.offset, sf.abs, hs);
    var i := 0;
    while i < |sf.runs|
      invariant 0 <= i <= |sf.runs| == |hs| && sf.bm.Valid() && fresh(sf.bm.Repr() - old(sf.bm.Repr()))
      invariant ClosedTo(sf.runs, i, sf.bm, sf.bm.View(), sf.offset, sf.abs, hs) && Session(sf.p0, sf.bm.View(), hs)
    {
      SameScans(sf.runs, i, sf.runs[i]);
      ghost var hd := CloseRun(sf.bm, sf.runs, i, sf.offset, sf.p0, sf.abs, hs);
      hs := hs[i := hd];
      i := i + 1;
    }
    AllAreClosed(sf.runs, sf.bm, sf.bm.View(), sf.offset, sf.abs, hs, sf.p0);
  }

  lemma AllAreClosed(runs: seq<Cell>, bm: BufMgr, q: Pool, off: nat, abs: seq<Run>, hs: seq<Handle>, p0: Pool)
    requires ClosedTo(runs, |runs|, bm, q, off, abs, hs) && Session(p0, q, hs)
    ensures SamePins(p0, q)
  {
    SessionEnd(p0, q, hs);
  }
}
