/** The nested loops join (join.C) on the storage layers: three heap files open at once in one pool. */
module StoredJoins {
  import opened Bytes
  import opened Statuses
  import opened DiskSpec
  import opened Clock
  import opened PoolSpec
  import opened Buffer
  import opened ScanSpec
  import opened HeapSpec
  import opened HeapPool
  import opened HeapSessions
  import opened HeapFiles
  import opened Sorting
  import opened JoinSpecs
  import opened JoinResults
  import opened NestedLoops
  import opened SelectOperator
  import SlottedPage
  import BufHash
  import Db

  // ----- heap files as the inputs and the output of sorts and joins -----

  /** What sorts and joins ask of a relation beyond its records' length every heap file has. */
  lemma HeapIsSource(h: Heap, off: nat)
    requires Inv(h)
    ensures SourceOk(Entries(h.pages), off) <==> HoldsInt(Entries(h.pages), off)
  {
    HeapRids(h);
  }

  lemma HeapsAreInputs(j: Join, a: Heap, b: Heap)
    requires Inv(a) && Inv(b) && HoldsInt(Entries(a.pages), j.off1) && HoldsInt(Entries(b.pages), j.off2)
    requires forall x, y :: x in Entries(a.pages) && y in Entries(b.pages) ==> Covers(j.rel1, j.projs, x.rec, y.rec)
    ensures Inputs(j, Entries(a.pages), Entries(b.pages))
  {
    hide Covers, Inv, SourceOk, HoldsInt;
    HeapIsSource(a, j.off1);
    HeapIsSource(b, j.off2);
  }

  /** The result relation of the joins is a heap file: without unused slots on its last page and with a frame to
      spare, both give the same status and gain the same record in the same place. */
  method InsertResult(ifs: HeapFile, result: ResultRel, rec: Record) returns (status: Status, status': Status)
    requires ifs.Valid() && ifs.AtLast() && ifs.NoHoles() && ifs.curFrame >= 0 && !PoolSpec.Exhausted(ifs.bm.View())
    requires RecordsOf(ifs.Contents()) == result.recs
    modifies ifs, ifs.bm.Repr(), result
    ensures ifs.Valid() && ifs.AtLast() && ifs.curFrame >= 0 && fresh(ifs.bm.Repr() - old(ifs.bm.Repr()))
    ensures status == status' && RecordsOf(ifs.Contents()) == result.recs
    ensures status == OK ==> ifs.NoHoles() && result.recs == old(result.recs) + [rec]
  {
    hide BufMgr.Linked, PoolSpec.Ok, HeapSpec.Inv, HeapSpec.Entries, HeapFile.Hd, HeapFile.CursorOk, HeapFile.NoHoles,
         HeapFile.AtLast, Inserted, InsertStatus, PoolSpec.Exhausted, HeapPool.Holding, HeapPool.Quiet;
    ghost var before := ifs.Contents();
    InsertStatusLaw(ifs.heap, rec, Full(ifs.Loaded()));
    var outRid;
    status, outRid := ifs.InsertRecord(rec);
    status' := result.InsertRecord(rec);
    assert status == OK ==> RecordsOf(before + [Entry(outRid, rec)]) == RecordsOf(before) + [rec];
  }

  // ----- the inner scan -----

  lemma Park(ifs: HeapFile, hf: HeapFile)
    requires Working(ifs, hf)
    ensures Parked(hf, hf.bm.View()) && PoolSpec.Ok(hf.bm.View())
  {}

  lemma Unpark(ifs: HeapFile, hf: HeapFile)
    requires ifs != hf && ifs.bm == hf.bm && ifs.filePtr != hf.filePtr && ifs.Valid() && ifs.AtLast()
    requires Parked(hf, hf.bm.View())
    ensures Working(ifs, hf)
  {}

  /** The tuples es holds and those still to come make up the total. */
  ghost predicate Balance(es: seq<Entry>, todo: seq<Record>, total: multiset<Record>) {
    multiset(RecordsOf(es)) + multiset(todo) == total
  }

  lemma BalanceStep(before: seq<Entry>, now: seq<Entry>, rid: RID, tuple: Record, todo: seq<Record>,
                    total: multiset<Record>)
    requires Balance(before, [tuple] + todo, total) && Inserted(before, now, rid, tuple)
    ensures Balance(now, todo, total)
  {
    InsertedBag(before, now, rid, tuple);
  }

  /** The projected attributes lie within o and every record of es. */
  ghost predicate InnerCovered(j: Join, o: Record, es: seq<Entry>) {
    forall k :: 0 <= k < |es| ==> Covers(j.rel1, j.projs, o, es[k].rec)
  }

  lemma CoveredAhead(j: Join, o: Record, rest: seq<Entry>, f: Filter)
    requires InnerCovered(j, o, rest) && NextStatus(rest, f) == OK
    ensures Skip(rest, f) != [] && Covers(j.rel1, j.projs, o, Skip(rest, f)[0].rec)
    ensures InnerCovered(j, o, NextRest(rest, f))
    ensures Taken(rest, f) == [Skip(rest, f)[0]] + Taken(NextRest(rest, f), f) && |NextRest(rest, f)| < |rest|
  {
    hide Covers;
    var s := Skip(rest, f);
    assert s == rest[|rest| - |s|..];
    assert s[0] == rest[|rest| - |s|];
    forall k | 0 <= k < |s[1..]| ensures Covers(j.rel1, j.projs, o, s[1..][k].rec) {
      assert s[1..][k] == rest[|rest| - |s| + 1 + k];
    }
  }

  /** What is left of the inner relation for the outer record o, and after it. */
  ghost function InnerTodo(j: Join, o: Record, rest: seq<Entry>, f: Filter, later: seq<Record>): seq<Record> {
    Projected(j, o, Taken(rest, f)) + later
  }

  lemma InnerTodoStep(j: Join, o: Record, rest: seq<Entry>, f: Filter, later: seq<Record>)
    requires NextStatus(rest, f) == OK && Skip(rest, f) != []
    ensures InnerTodo(j, o, rest, f, later)
         == [Project(j.rel1, j.projs, o, Skip(rest, f)[0].rec)] + InnerTodo(j, o, NextRest(rest, f), f, later)
  {
    ProjectedStep(j, o, Skip(rest, f)[0], Taken(NextRest(rest, f), f), later);
  }

  lemma InnerTodoNone(j: Join, o: Record, rest: seq<Entry>, f: Filter, later: seq<Record>)
    requires NextStatus(rest, f) != OK
    ensures InnerTodo(j, o, rest, f, later) == later
  {
    ProjectedNone(j, o, later);
  }

  /** When the program gives up for want of a frame, there was none to spare at the start. */
  ghost predicate GivesUp(j: Join, status: Status, p0: Pool, bufs: int) {
    status == ASSERTFAILED && (InsertableColumns(j.projs) ==> !Roomy(p0, 3, bufs))
  }

  /** The appender, the outer scan and the inner scan, on three files of one pool, in a session that began in p0. */
  ghost predicate Joining(ifs: HeapFile, os: HeapFile, hfs: HeapFile, p0: Pool)
    reads os, ifs, hfs, ifs.bm, ifs.bm.bufTable, ifs.bm.bufPool, ifs.bm.hashTable, ifs.bm.hashTable.ht
    reads ifs.bm.hashTable.buckets, ifs.bm.disk
    reads hfs.bm, hfs.bm.bufTable, hfs.bm.bufPool, hfs.bm.hashTable, hfs.bm.hashTable.ht, hfs.bm.hashTable.buckets
    reads hfs.bm.disk
    ensures Joining(ifs, os, hfs, p0) ==> hfs.CursorOk() && ifs.bm == hfs.bm && ifs != hfs
  {
    && Working(ifs, hfs) && ifs.curFrame >= 0 && os != ifs && os != hfs && os.filePtr != ifs.filePtr
    && os.filePtr != hfs.filePtr
    && Parked(os, ifs.bm.View()) && PoolSpec.Ok(p0) && Session(p0, ifs.bm.View(), [ifs.Hd(), os.Hd(), hfs.Hd()])
  }

  /** Find the next matching inner record. */
  method JoinScan(ifs: HeapFile, os: HeapFile, hfs: HeapFile, ghost p0: Pool) returns (status: Status, rec: Record)
    requires Joining(ifs, os, hfs, p0)
    modifies hfs`curFrame, hfs`curPageNo, hfs`curDirtyFlag, hfs`curRec, hfs`ci, hfs.bm.Repr()
    ensures Joining(ifs, os, hfs, p0) && fresh(hfs.bm.Repr() - old(hfs.bm.Repr()))
    ensures ifs.Contents() == old(ifs.Contents())
    ensures hfs.Rest() == NextRest(old(hfs.Rest()), hfs.filter)
    ensures status == NextStatus(old(hfs.Rest()), hfs.filter)
    ensures status == OK ==> Skip(old(hfs.Rest()), hfs.filter) != [] && rec == Skip(old(hfs.Rest()), hfs.filter)[0].rec
  {
    hide Working, HeapFile.AtLast, BufMgr.View, PoolSpec.Ok, HeapFile.Valid, HeapFile.Hd, HeapFile.Rest,
         HeapFile.CursorOk, HeapPool.Quiet, Session, ScanSpec.NextStatus, ScanSpec.NextRest, ScanSpec.Skip, Parked;
    ghost var a, b, c, p := ifs.Hd(), os.Hd(), hfs.Hd(), ifs.bm.View();
    Park(ifs, hfs);
    HandleFile(hfs);
    status, rec := ScanStep(ifs, hfs);
    Park(ifs, hfs);
    ParkedStays(os, p, c, ifs.bm.View(), hfs.Hd());
    SessionStep(p0, p, [a, b, c], 2, ifs.bm.View(), hfs.Hd());
    assert [a, b, c][2 := hfs.Hd()] == [a, b, hfs.Hd()];
  }

  /** Build an output tuple and insert it; ASSERT ends the program when that fails. */
  method JoinInsert(ifs: HeapFile, os: HeapFile, hfs: HeapFile, j: Join, o: Record, i: Record, outputData: array<byte>,
                    ghost p0: Pool)
    returns (status: Status, ghost rid: RID)
    requires Joining(ifs, os, hfs, p0) && Covers(j.rel1, j.projs, o, i) && outputData.Length == RecLen(j.projs)
    modifies outputData, ifs, ifs.bm.Repr()
    ensures fresh(ifs.bm.Repr() - old(ifs.bm.Repr())) && hfs.CursorOk() && hfs.Rest() == old(hfs.Rest())
    ensures status == OK ==>
      && Joining(ifs, os, hfs, p0) && InsertableColumns(j.projs)
      && Inserted(old(ifs.Contents()), ifs.Contents(), rid, Project(j.rel1, j.projs, o, i))
    ensures status != OK ==> GivesUp(j, status, p0, ifs.bm.numBufs)
  {
    hide Working, HeapFile.AtLast, HeapFile.Contents, BufMgr.View, PoolSpec.Ok, HeapFile.Valid, HeapFile.Hd,
         HeapFile.CursorOk, HeapPool.Quiet, Session, Parked, Inserted, Covers, Project, RecLen, PoolSpec.Exhausted,
         InsertableColumns, Roomy;
    ghost var a, b, c, p := ifs.Hd(), os.Hd(), hfs.Hd(), ifs.bm.View();
    Park(ifs, hfs);
    HandleFile(ifs);
    RoomAgain(p0, ifs, hfs, [a, b, c]);
    CopyAttrs(j.rel1, j.projs, o, i, outputData);
    ProjectLength(j.rel1, j.projs, o, i);
    status, rid := InsertTuple(ifs, hfs, outputData[..]);
    ColumnsOf(j.projs);
    if status != OK { return ASSERTFAILED, rid; }
    Park(ifs, hfs);
    ParkedStays(os, p, a, ifs.bm.View(), ifs.Hd());
    SessionStep(p0, p, [a, b, c], 0, ifs.bm.View(), ifs.Hd());
    assert [a, b, c][0 := ifs.Hd()] == [ifs.Hd(), b, c];
  }

  lemma ColumnsOf(projs: seq<Attr>)
    ensures InsertableColumns(projs) == Insertable(RecLen(projs))
  {}

  /** One turn of the inner loop; more tells whether the scan has found a record. */
  method JoinTurn(ifs: HeapFile, os: HeapFile, hfs: HeapFile, j: Join, o: Record, outputData: array<byte>,
                  ghost p0: Pool,
                  ghost later: seq<Record>, ghost total: multiset<Record>)
    returns (status: Status, more: bool)
    requires Joining(ifs, os, hfs, p0) && outputData.Length == RecLen(j.projs) && InnerCovered(j, o, hfs.Rest())
    requires Balance(ifs.Contents(), InnerTodo(j, o, hfs.Rest(), hfs.filter, later), total)
    modifies outputData, hfs`curFrame, hfs`curPageNo, hfs`curDirtyFlag, hfs`curRec, hfs`ci, ifs, ifs.bm.Repr()
    ensures fresh(ifs.bm.Repr() - old(ifs.bm.Repr()))
    ensures more == (old(Taken(hfs.Rest(), hfs.filter)) != [])
    ensures status == OK ==> Joining(ifs, os, hfs, p0)
    ensures status == OK && !more ==> Balance(ifs.Contents(), later, total)
    ensures status == OK && more ==>
      && |hfs.Rest()| < old(|hfs.Rest()|) && InsertableColumns(j.projs) && InnerCovered(j, o, hfs.Rest())
      && Balance(ifs.Contents(), InnerTodo(j, o, hfs.Rest(), hfs.filter, later), total)
    ensures status != OK ==> GivesUp(j, status, p0, ifs.bm.numBufs) && more
  {
    hide Joining, HeapFile.Contents, HeapFile.Rest, HeapFile.CursorOk, Inserted, Covers, InnerCovered, RecLen,
         InsertableColumns, ScanSpec.NextStatus, ScanSpec.NextRest, ScanSpec.Skip, ScanSpec.Taken, Balance, Project,
         InnerTodo, GivesUp;
    ghost var now, rest := ifs.Contents(), hfs.Rest();
    var innerRec;
    status, innerRec := JoinScan(ifs, os, hfs, p0);
    if status != OK {
      InnerTodoNone(j, o, rest, hfs.filter, later);
      NoneTaken(rest, hfs.filter);
      return OK, false;
    }
    CoveredAhead(j, o, rest, hfs.filter);
    InnerTodoStep(j, o, rest, hfs.filter, later);
    ghost var todo, rid := InnerTodo(j, o, hfs.Rest(), hfs.filter, later), NULLRID;
    more := true;
    status, rid := JoinInsert(ifs, os, hfs, j, o, innerRec, outputData, p0);
    if status == OK {
      BalanceStep(now, ifs.Contents(), rid, Project(j.rel1, j.projs, o, innerRec), todo, total);
    }
  }

  /** The inner loop. */
  method JoinInner(ifs: HeapFile, os: HeapFile, hfs: HeapFile, j: Join, o: Record, outputData: array<byte>,
                   ghost p0: Pool,
                   ghost later: seq<Record>, ghost total: multiset<Record>)
    returns (status: Status)
    requires Joining(ifs, os, hfs, p0) && outputData.Length == RecLen(j.projs) && InnerCovered(j, o, hfs.Rest())
    requires Balance(ifs.Contents(), InnerTodo(j, o, hfs.Rest(), hfs.filter, later), total)
    modifies outputData, hfs`curFrame, hfs`curPageNo, hfs`curDirtyFlag, hfs`curRec, hfs`ci, ifs, ifs.bm.Repr()
    ensures fresh(ifs.bm.Repr() - old(ifs.bm.Repr()))
    ensures status == OK ==> Joining(ifs, os, hfs, p0) && Balance(ifs.Contents(), later, total)
    ensures status == OK && old(Taken(hfs.Rest(), hfs.filter)) != [] ==> InsertableColumns(j.projs)
    ensures status != OK ==> GivesUp(j, status, p0, ifs.bm.numBufs) && old(Taken(hfs.Rest(), hfs.filter)) != []
  {
    hide Joining, HeapFile.Contents, HeapFile.Rest, HeapFile.CursorOk, InnerCovered, RecLen, InsertableColumns,
         ScanSpec.Taken, Balance, InnerTodo, GivesUp;
    ghost var all := Taken(hfs.Rest(), hfs.filter);
    var more := true;
    while more
      invariant Joining(ifs, os, hfs, p0) && fresh(ifs.bm.Repr() - old(ifs.bm.Repr()))
      invariant more ==> InnerCovered(j, o, hfs.Rest())
      invariant Balance(ifs.Contents(), if more then InnerTodo(j, o, hfs.Rest(), hfs.filter, later) else later, total)
      invariant (more && Taken(hfs.Rest(), hfs.filter) == all)
             || (if all == [] then !more else InsertableColumns(j.projs))
      decreases more, |hfs.Rest()|
    {
      status, more := JoinTurn(ifs, os, hfs, j, o, outputData, p0, later, total);
      if status != OK { return; }
    }
    status := OK;
  }

  // ----- the inner relation is opened and closed for every outer record -----

  /** The appender and the outer scan at work, and the inner relation closed. */
  ghost predicate Between(ifs: HeapFile, os: HeapFile, fIn: int, hIn: Heap, p0: Pool)
    reads os, ifs, ifs.bm, ifs.bm.bufTable, ifs.bm.bufPool, ifs.bm.hashTable, ifs.bm.hashTable.ht
    reads ifs.bm.hashTable.buckets, ifs.bm.disk
    reads os.bm, os.bm.bufTable, os.bm.bufPool, os.bm.hashTable, os.bm.hashTable.ht, os.bm.hashTable.buckets, os.bm.disk
    ensures Between(ifs, os, fIn, hIn, p0) ==> os.CursorOk() && ifs.bm == os.bm && ifs != os
  {
    && Working(ifs, os) && ifs.curFrame >= 0 && fIn != ifs.filePtr && fIn != os.filePtr
    && Ready(ifs.bm.View(), fIn, hIn)
    && PoolSpec.Ok(p0) && Session(p0, ifs.bm.View(), [ifs.Hd(), os.Hd(), Closed(fIn, 1)])
  }

  /** The pool in which the join starts has frames for three open files, and the inner relation is idle in it. */
  ghost predicate Begin(p0: Pool, fIn: int, hIn: Heap, inOthers: nat, bufs: int) {
    |PinnedPages(p0)| + 6 <= bufs && Unpinned(p0, fIn, hIn.chain) && (inOthers == 0 ==> Idle(p0, fIn))
  }

  /** Two open files and a closed one pin four pages. */
  lemma TwoOpen(p: Pool, q: Pool, a: Handle, b: Handle, c: Handle)
    requires PoolSpec.Ok(p) && Session(p, q, [a, b, c]) && !c.HasHdr() && !c.HasCur()
    ensures |PinnedPages(q)| <= |PinnedPages(p)| + 4
  {
    forall id ensures Owns([a, b, c], id) == Owns([a, b], id) {
      assert [a, b, c][1..] == [b, c] && [a, b][1..] == [b] && [b, c][1..] == [c] && [b][1..] == [];
      OwnsClosed([c], id);
    }
    forall id | id in PinnedPages(q) ensures id in PinnedPages(p) + Gripped([a, b]) {
      assert Pins(q, id) == Pins(p, id) + Owns([a, b, c], id);
      if Owns([a, b], id) > 0 {
        OwnedIsGripped([a, b], id);
      }
    }
    Subset(PinnedPages(q), PinnedPages(p) + Gripped([a, b]));
  }

  /** Closing may have left a mark in the handle, which holds nothing any more. */
  lemma ClosedAgain(p: Pool, q: Pool, a: Handle, b: Handle, c: Handle, d: Handle)
    requires Session(p, q, [a, b, c]) && c.file == d.file
    requires !c.HasHdr() && !c.HasCur() && !d.HasHdr() && !d.HasCur()
    ensures Session(p, q, [a, b, d])
  {
    assert [a, b, c][2 := d] == [a, b, d];
    forall id ensures Owns([a, b, d], id) == Owns([a, b, c], id) {
      OwnsUpdate([a, b, c], 2, d, id);
    }
    forall id: PageId | NoneOf([a, b, d], id.file) ensures NoneOf([a, b, c], id.file) {
      assert [a, b, d][0].file != id.file && [a, b, d][1].file != id.file && [a, b, d][2].file != id.file;
    }
  }

  /** After its scan is closed the inner relation is as unpinned as at the start. */
  lemma ReadyAgain(p: Pool, q: Pool, a: Handle, b: Handle, c: Handle, h: Heap)
    requires Session(p, q, [a, b, c]) && !c.HasHdr() && !c.HasCur() && a.file != c.file && b.file != c.file
    requires Unpinned(p, c.file, h.chain)
    ensures Unpinned(q, c.file, h.chain)
  {
    forall i | 0 <= i < |h.chain| ensures Pins(q, PageId(c.file, h.chain[i])) == 0 {
      OwnsOnly([a, b, c], 2, PageId(c.file, h.chain[i]));
    }
  }

  /** Open the inner relation. */
  method OpenInner(ifs: HeapFile, os: HeapFile, fIn: int, ghost hIn: Heap, ghost p0: Pool) returns (hfs: HeapFile)
    requires Between(ifs, os, fIn, hIn, p0) && |PinnedPages(p0)| + 6 <= ifs.bm.numBufs
    modifies ifs.bm.Repr()
    ensures fresh(hfs) && fresh(ifs.bm.Repr() - old(ifs.bm.Repr())) && Joining(ifs, os, hfs, p0)
    ensures hfs.filePtr == fIn && hfs.headerPageNo == 1 && hfs.heap == hIn && hfs.Rest() == Entries(hIn.pages)
  {
    hide HeapFile.AtLast, BufMgr.Linked, PoolSpec.Ok, HeapSpec.Inv, HeapSpec.Entries, HeapFile.Hd, HeapFile.Rest,
         HeapPool.Quiet, HeapPool.Unseen, HeapPool.Exclusive, HeapPool.CanOpen, HeapPool.Holding, HeapPool.Settled;
    hide Unpinned, PinnedPages, Session, HeapFile.CursorOk, BufHash.BufHashTbl.Valid, Db.DiskFiles.Valid, Parked;
    ghost var p, a, b, c := ifs.bm.View(), ifs.Hd(), os.Hd(), Closed(fIn, 1);
    Park(ifs, os);
    TwoOpen(p0, p, a, b, c);
    FirstCanOpen(ifs.bm, fIn, hIn);
    ReadyIsFile(p, fIn, hIn);
    hfs := new HeapFile(ifs.bm, fIn, hIn);
    ghost var q, c' := ifs.bm.View(), hfs.Hd();
    UnseenIsQuiet(p, c, q, c');
    OpenedExclusive(p, fIn, q, c', hIn);
    StillValid(ifs, p, c, c');
    ParkedStays(os, p, c, q, c');
    SessionStep(p0, p, [a, b, c], 2, q, c');
    assert [a, b, c][2 := c'] == [a, b, c'];
  }

  /** Close it again. */
  method CloseInner(ifs: HeapFile, os: HeapFile, hfs: HeapFile, inOthers: nat, ghost p0: Pool)
    requires Joining(ifs, os, hfs, p0) && hfs.filePtr != NO_PAGE.file && hfs.headerPageNo == 1 && hfs.heap.hdrNo == 1
    requires ifs.bm == os.bm && Begin(p0, hfs.filePtr, hfs.heap, inOthers, ifs.bm.numBufs)
    modifies hfs`curFrame, hfs`headerFrame, hfs.bm.Repr()
    ensures fresh(ifs.bm.Repr() - old(ifs.bm.Repr())) && Between(ifs, os, hfs.filePtr, hfs.heap, p0)
  {
    hide HeapFile.AtLast, BufMgr.Linked, PoolSpec.Ok, HeapSpec.Inv, HeapFile.Hd, HeapPool.Quiet, HeapPool.Unseen,
         HeapPool.Exclusive, HeapPool.Holding, HeapPool.Settled, HeapPool.SoleUser, HeapPool.Idle;
    hide Unpinned, PinnedPages, Session, HeapFile.CursorOk, Parked;
    ghost var p, a, b, c := ifs.bm.View(), ifs.Hd(), os.Hd(), hfs.Hd();
    HandleFile(ifs);
    HandleFile(os);
    HandleFile(hfs);
    if inOthers == 0 {
      SessionSole(p0, p, [a, b, c], 2);
    }
    hfs.Close(inOthers);
    ghost var q, c' := ifs.bm.View(), Closed(hfs.filePtr, 1).(hdrDirty := hfs.hdrDirtyFlag);
    UnseenIsQuiet(p, c, q, c');
    StillValid(ifs, p, c, c');
    ParkedStays(os, p, c, q, c');
    Unpark(ifs, os);
    SessionStep(p0, p, [a, b, c], 2, q, c');
    assert [a, b, c][2 := c'] == [a, b, c'];
    ReadyAgain(p0, q, a, b, c', hfs.heap);
    ClosedAgain(p0, q, a, b, c', Closed(hfs.filePtr, 1));
  }

  /** The inner loop for one outer record, with the scan opened before and closed after it. */
  method JoinOne(ifs: HeapFile, os: HeapFile, fIn: nat, inOthers: nat, ghost hIn: Heap, j: Join, o: Record,
                 outputData: array<byte>,
                 ghost p0: Pool, ghost later: seq<Record>, ghost total: multiset<Record>)
    returns (status: Status)
    requires Between(ifs, os, fIn, hIn, p0) && Begin(p0, fIn, hIn, inOthers, ifs.bm.numBufs)
    requires outputData.Length == RecLen(j.projs) && InnerCovered(j, o, Entries(hIn.pages))
    requires NoEmpty(Entries(hIn.pages))
    requires Balance(ifs.Contents(), Projected(j, o, Matching(Entries(hIn.pages), InnerFilter(j, o))) + later, total)
    modifies outputData, ifs, ifs.bm.Repr()
    ensures fresh(ifs.bm.Repr() - old(ifs.bm.Repr())) && os.CursorOk() && os.Rest() == old(os.Rest())
    ensures status == OK ==> Between(ifs, os, fIn, hIn, p0) && Balance(ifs.Contents(), later, total)
    ensures status == OK && Matching(Entries(hIn.pages), InnerFilter(j, o)) != [] ==> InsertableColumns(j.projs)
    ensures status != OK ==>
      GivesUp(j, status, p0, ifs.bm.numBufs) && Matching(Entries(hIn.pages), InnerFilter(j, o)) != []
  {
    hide Between, Joining, HeapFile.Contents, HeapFile.Rest, HeapFile.CursorOk, InnerCovered, RecLen, InsertableColumns,
         ScanSpec.Taken, ScanSpec.Matching, Balance, Projected, GivesUp, HeapSpec.Entries, NoEmpty, PinnedPages,
         Unpinned, HeapPool.Idle, BufMgr.View;
    TakenIsMatching(Entries(hIn.pages), InnerFilter(j, o));
    ReadyNo(ifs, os, fIn, hIn, p0);
    var hfs := OpenInner(ifs, os, fIn, hIn, p0);
    FilterScan(ifs, os, hfs, j, o, p0);
    status := JoinInner(ifs, os, hfs, j, o, outputData, p0, later, total);
    if status == OK {
      CloseInner(ifs, os, hfs, inOthers, p0);
    }
  }

  lemma ReadyNo(ifs: HeapFile, os: HeapFile, fIn: int, hIn: Heap, p0: Pool)
    requires Between(ifs, os, fIn, hIn, p0)
    ensures hIn.hdrNo == 1
  {}

  /** startScan on the inner relation. */
  method FilterScan(ifs: HeapFile, os: HeapFile, hfs: HeapFile, j: Join, o: Record, ghost p0: Pool)
    requires Joining(ifs, os, hfs, p0)
    modifies hfs`filter
    ensures Joining(ifs, os, hfs, p0) && hfs.filter == InnerFilter(j, o) && hfs.Rest() == old(hfs.Rest())
  {
    hide BufMgr.View, HeapFile.Hd, HeapFile.Rest, HeapFile.Valid, HeapFile.CursorOk, Session, HeapPool.Exclusive,
         Parked;
    var status := hfs.StartScan(false, j.off2, 4, Flip(j.op), Key(o, j.off1));
  }

  // ----- the outer scan -----

  /** Find the next outer record. */
  method OuterScan(ifs: HeapFile, os: HeapFile, fIn: int, ghost hIn: Heap, ghost p0: Pool)
    returns (status: Status, rec: Record)
    requires Between(ifs, os, fIn, hIn, p0)
    modifies os`curFrame, os`curPageNo, os`curDirtyFlag, os`curRec, os`ci, os.bm.Repr()
    ensures Between(ifs, os, fIn, hIn, p0) && fresh(os.bm.Repr() - old(os.bm.Repr()))
    ensures ifs.Contents() == old(ifs.Contents())
    ensures os.Rest() == NextRest(old(os.Rest()), os.filter)
    ensures status == NextStatus(old(os.Rest()), os.filter)
    ensures status == OK ==> Skip(old(os.Rest()), os.filter) != [] && rec == Skip(old(os.Rest()), os.filter)[0].rec
  {
    hide Working, HeapFile.AtLast, BufMgr.View, PoolSpec.Ok, HeapFile.Valid, HeapFile.Hd, HeapFile.Rest,
         HeapFile.CursorOk, HeapPool.Quiet, Session, ScanSpec.NextStatus, ScanSpec.NextRest, ScanSpec.Skip, Ready,
         Parked, HeapFile.Contents;
    ghost var a, b, c, p := ifs.Hd(), os.Hd(), Closed(fIn, 1), ifs.bm.View();
    HandleFile(os);
    status, rec := ScanStep(ifs, os);
    Park(ifs, os);
    ReadyStays(p, b, ifs.bm.View(), os.Hd(), fIn, hIn);
    SessionStep(p0, p, [a, b, c], 1, ifs.bm.View(), os.Hd());
    assert [a, b, c][1 := os.Hd()] == [a, os.Hd(), c];
  }

  /** The records hold their join attribute and every projected attribute. */
  ghost predicate OuterCovered(j: Join, rest: seq<Entry>, inner: seq<Entry>) {
    forall k :: 0 <= k < |rest| ==> rest[k].rec != [] && InnerCovered(j, rest[k].rec, inner)
  }

  function FirstOut(j: Join, o: Record, inner: seq<Entry>): seq<Record> {
    Projected(j, o, Matching(inner, InnerFilter(j, o)))
  }

  function RestOut(j: Join, rest: seq<Entry>, inner: seq<Entry>): seq<Record> {
    NlOut(j, RecordsOf(rest), inner)
  }

  lemma OuterStep(j: Join, rest: seq<Entry>, inner: seq<Entry>)
    requires OuterCovered(j, rest, inner)
    ensures NextStatus(rest, NoFilter) == if rest == [] then FILEEOF else OK
    ensures rest == [] ==> RestOut(j, rest, inner) == []
    ensures rest != [] ==>
      && Skip(rest, NoFilter) == rest && NextRest(rest, NoFilter) == rest[1..] && OuterCovered(j, rest[1..], inner)
      && InnerCovered(j, rest[0].rec, inner)
      && RestOut(j, rest, inner) == FirstOut(j, rest[0].rec, inner) + RestOut(j, rest[1..], inner)
      && (FirstOut(j, rest[0].rec, inner) == [] <==> Matching(inner, InnerFilter(j, rest[0].rec)) == [])
  {
    hide InnerCovered, Matching, InnerFilter, RestOut, FirstOut;
    assert forall k :: 0 <= k < |rest| ==> rest[k].rec != [];
    PlainStep(rest);
    RestOutStep(j, rest, inner);
    if rest != [] {
      assert forall k :: 0 <= k < |rest[1..]| ==> rest[1..][k] == rest[k + 1];
      FirstOutEmpty(j, rest[0].rec, inner);
    }
  }

  lemma RestOutStep(j: Join, rest: seq<Entry>, inner: seq<Entry>)
    ensures RestOut(j, rest, inner) == if rest == [] then []
                                       else FirstOut(j, rest[0].rec, inner) + RestOut(j, rest[1..], inner)
  {
    hide Matching, InnerFilter, Projected;
    if rest != [] {
      assert RecordsOf(rest)[1..] == RecordsOf(rest[1..]);
    }
  }

  lemma FirstOutEmpty(j: Join, o: Record, inner: seq<Entry>)
    ensures FirstOut(j, o, inner) == [] <==> Matching(inner, InnerFilter(j, o)) == []
  {
    hide Matching, InnerFilter;
  }

  /** One turn of the outer loop; more tells whether the scan has found a record. */
  method OuterTurn(ifs: HeapFile, os: HeapFile, fIn: nat, inOthers: nat, ghost hIn: Heap, j: Join,
                   outputData: array<byte>,
                   ghost p0: Pool, ghost total: multiset<Record>)
    returns (status: Status, more: bool)
    requires Between(ifs, os, fIn, hIn, p0) && Begin(p0, fIn, hIn, inOthers, ifs.bm.numBufs) && os.filter == NoFilter
    requires outputData.Length == RecLen(j.projs) && NoEmpty(Entries(hIn.pages))
    requires OuterCovered(j, os.Rest(), Entries(hIn.pages))
    requires Balance(ifs.Contents(), RestOut(j, os.Rest(), Entries(hIn.pages)), total)
    modifies outputData, os`curFrame, os`curPageNo, os`curDirtyFlag, os`curRec, os`ci, ifs, ifs.bm.Repr()
    ensures fresh(ifs.bm.Repr() - old(ifs.bm.Repr())) && more == old(os.Rest() != [])
    ensures status == OK ==> Between(ifs, os, fIn, hIn, p0)
    ensures status == OK && !more ==> Balance(ifs.Contents(), [], total)
    ensures status == OK && more ==>
      && os.Rest() == old(os.Rest())[1..] && OuterCovered(j, os.Rest(), Entries(hIn.pages))
      && Balance(ifs.Contents(), RestOut(j, os.Rest(), Entries(hIn.pages)), total)
    ensures status == OK && more && FirstOut(j, old(os.Rest())[0].rec, Entries(hIn.pages)) != [] ==>
      InsertableColumns(j.projs)
    ensures status != OK ==>
      && more && GivesUp(j, status, p0, ifs.bm.numBufs) && FirstOut(j, old(os.Rest())[0].rec, Entries(hIn.pages)) != []
  {
    hide Between, Begin, HeapFile.Contents, HeapFile.Rest, HeapFile.CursorOk, InnerCovered, OuterCovered, RecLen,
         InsertableColumns, ScanSpec.NextStatus, ScanSpec.NextRest, ScanSpec.Skip, ScanSpec.Matching, Balance,
         Projected, GivesUp, HeapSpec.Entries, NoEmpty, InnerFilter, RestOut;
    OuterStep(j, os.Rest(), Entries(hIn.pages));
    var outerRec;
    status, outerRec := OuterScan(ifs, os, fIn, hIn, p0);
    if status != OK { return OK, false; }
    more := true;
    status := JoinOne(ifs, os, fIn, inOthers, hIn, j, outerRec, outputData, p0,
                      RestOut(j, os.Rest(), Entries(hIn.pages)), total);
  }

  /** Of the tuples all either none has been inserted, or one has and so any can be. */
  ghost predicate SoFar(j: Join, more: bool, rest: seq<Entry>, inner: seq<Entry>, all: seq<Record>) {
    (more && RestOut(j, rest, inner) == all) || (if all == [] then !more else InsertableColumns(j.projs))
  }

  lemma SoFarStep(j: Join, rest: seq<Entry>, inner: seq<Entry>, all: seq<Record>)
    requires SoFar(j, true, rest, inner, all) && OuterCovered(j, rest, inner)
    ensures rest == [] ==> SoFar(j, false, rest, inner, all)
    ensures rest != [] && FirstOut(j, rest[0].rec, inner) != [] ==> all != []
    ensures rest != [] && (FirstOut(j, rest[0].rec, inner) != [] ==> InsertableColumns(j.projs)) ==>
      SoFar(j, true, rest[1..], inner, all)
    ensures rest != [] ==> OuterCovered(j, rest[1..], inner)
  {
    OuterStep(j, rest, inner);
    hide FirstOut, RestOut, InsertableColumns, OuterCovered;
  }

  /** The outer loop. */
  method JoinOuter(ifs: HeapFile, os: HeapFile, fIn: nat, inOthers: nat, ghost hIn: Heap, j: Join, ghost p0: Pool,
                   ghost total: multiset<Record>)
    returns (status: Status)
    requires Between(ifs, os, fIn, hIn, p0) && Begin(p0, fIn, hIn, inOthers, ifs.bm.numBufs) && os.filter == NoFilter
    requires NoEmpty(Entries(hIn.pages)) && OuterCovered(j, os.Rest(), Entries(hIn.pages))
    requires Balance(ifs.Contents(), RestOut(j, os.Rest(), Entries(hIn.pages)), total)
    modifies os`curFrame, os`curPageNo, os`curDirtyFlag, os`curRec, os`ci, ifs, ifs.bm.Repr()
    ensures fresh(ifs.bm.Repr() - old(ifs.bm.Repr()))
    ensures status == OK ==> Between(ifs, os, fIn, hIn, p0) && Balance(ifs.Contents(), [], total)
    ensures status == OK && RestOut(j, old(os.Rest()), Entries(hIn.pages)) != [] ==> InsertableColumns(j.projs)
    ensures status != OK ==>
      GivesUp(j, status, p0, ifs.bm.numBufs) && RestOut(j, old(os.Rest()), Entries(hIn.pages)) != []
  {
    hide Between, Begin, HeapFile.Contents, HeapFile.Rest, HeapFile.CursorOk, InnerCovered, OuterCovered, RecLen,
         InsertableColumns, Balance, GivesUp, HeapSpec.Entries, NoEmpty, FirstOut, RestOut, SoFar;
    var outputData := new byte[RecLen(j.projs)];
    ghost var inner := Entries(hIn.pages);
    ghost var all := RestOut(j, os.Rest(), inner);
    SoFarStart(j, os.Rest(), inner);
    var more := true;
    while more
      invariant Between(ifs, os, fIn, hIn, p0) && fresh(ifs.bm.Repr() - old(ifs.bm.Repr()))
      invariant more ==> OuterCovered(j, os.Rest(), inner)
      invariant Balance(ifs.Contents(), if more then RestOut(j, os.Rest(), inner) else [], total)
      invariant SoFar(j, more, os.Rest(), inner, all)
      decreases more, |os.Rest()|
    {
      ghost var rest := os.Rest();
      SoFarStep(j, rest, inner, all);
      status, more := OuterTurn(ifs, os, fIn, inOthers, hIn, j, outputData, p0, total);
      if status != OK { return; }
      SoFarOver(j, rest, os.Rest(), inner, all);
    }
    SoFarEnd(j, os.Rest(), inner, all);
    status := OK;
  }

  lemma SoFarStart(j: Join, rest: seq<Entry>, inner: seq<Entry>)
    ensures SoFar(j, true, rest, inner, RestOut(j, rest, inner))
  {}

  lemma SoFarOver(j: Join, rest: seq<Entry>, rest': seq<Entry>, inner: seq<Entry>, all: seq<Record>)
    ensures SoFar(j, false, rest, inner, all) ==> SoFar(j, false, rest', inner, all)
  {}

  lemma SoFarEnd(j: Join, rest: seq<Entry>, inner: seq<Entry>, all: seq<Record>)
    requires SoFar(j, false, rest, inner, all)
    ensures all != [] ==> InsertableColumns(j.projs)
  {}

  // ----- the whole join -----

  lemma WithClosed(p: Pool, q: Pool, a: Handle, b: Handle, c: Handle)
    requires Session(p, q, [a, b]) && !c.HasHdr() && !c.HasCur()
    ensures Session(p, q, [a, b, c])
  {
    forall id ensures Owns([a, b, c], id) == Owns([a, b], id) {
      assert [a, b, c][1..] == [b, c] && [a, b][1..] == [b] && [b, c][1..] == [c] && [b][1..] == [];
      OwnsClosed([c], id);
    }
    forall id: PageId | NoneOf([a, b, c], id.file) ensures NoneOf([a, b], id.file) {
      assert [a, b, c][0].file != id.file && [a, b, c][1].file != id.file;
    }
  }

  /** A file on which nothing has been opened yet belongs to the session as a closed one. */
  lemma ThirdClosed(p: Pool, q: Pool, a: Handle, b: Handle, f: int, h: Heap)
    requires PoolSpec.Ok(q) && Session(p, q, [a, b]) && a.file != f && b.file != f && Ready(p, f, h)
    ensures Ready(q, f, h) && Session(p, q, [a, b, Closed(f, 1)])
  {
    hide Settled, Kept, Has;
    WithClosed(p, q, a, b, Closed(f, 1));
    SessionSettled(p, q, [a, b], f, h);
    forall i | 0 <= i < |h.chain| ensures Pins(q, PageId(f, h.chain[i])) == 0 {
      OwnsNothing([a, b], PageId(f, h.chain[i]));
    }
  }

  /** Open the result for appending and the outer relation for an unfiltered scan. */
  method OpenOuter(bm: BufMgr, fOut: int, ghost hOut: Heap, fOuter: int, ghost hOuter: Heap, fIn: int, ghost hIn: Heap)
    returns (ifs: HeapFile, os: HeapFile)
    requires bm.Valid() && fOut != fOuter && fIn != fOut && fIn != fOuter && |PinnedPages(bm.View())| + 6 <= bm.numBufs
    requires Ready(bm.View(), fOut, hOut) && Ready(bm.View(), fOuter, hOuter) && Ready(bm.View(), fIn, hIn)
    modifies bm.Repr()
    ensures fresh(ifs) && fresh(os) && fresh(bm.Repr() - old(bm.Repr())) && ifs.bm == bm
    ensures Between(ifs, os, fIn, hIn, old(bm.View()))
    ensures ifs.filePtr == fOut && os.filePtr == fOuter && ifs.headerPageNo == os.headerPageNo == 1
    ensures ifs.heap == hOut && os.heap == hOuter && os.filter == NoFilter && os.Rest() == Entries(hOuter.pages)
  {
    hide PoolSpec.Ok, HeapSpec.Inv, HeapSpec.Entries, HeapFile.Hd, HeapFile.Rest, HeapPool.Exclusive, HeapPool.Settled;
    hide Unpinned, PinnedPages, Session, HeapFile.CursorOk, HeapFile.Valid, BufMgr.View, Working, Between;
    ghost var p := bm.View();
    ifs, os := OpenBoth(bm, fOut, hOut, fOuter, hOuter);
    HandleFile(ifs);
    HandleFile(os);
    Park(ifs, os);
    OpenHere(ifs, os, p, fIn, hIn);
    PlainScan(ifs, os, fIn, hIn, p);
  }

  /** startScan on the outer relation. */
  method PlainScan(ifs: HeapFile, os: HeapFile, fIn: int, ghost hIn: Heap, ghost p0: Pool)
    requires Between(ifs, os, fIn, hIn, p0)
    modifies os`filter
    ensures Between(ifs, os, fIn, hIn, p0) && os.filter == NoFilter && os.Rest() == old(os.Rest())
  {
    hide BufMgr.View, HeapFile.Hd, HeapFile.Rest, HeapFile.Valid, HeapFile.CursorOk, Session, HeapPool.Exclusive, Ready;
    var status := os.StartScan(true, 0, 0, EQ, 0);
  }

  lemma OpenHere(ifs: HeapFile, os: HeapFile, p: Pool, fIn: int, hIn: Heap)
    requires Working(ifs, os) && ifs.curFrame >= 0 && PoolSpec.Ok(p) && Session(p, ifs.bm.View(), [ifs.Hd(), os.Hd()])
    requires ifs.filePtr != fIn && os.filePtr != fIn && Ready(p, fIn, hIn)
    ensures Between(ifs, os, fIn, hIn, p)
  {
    hide Session, Ready;
    Park(ifs, os);
    ThirdClosed(p, ifs.bm.View(), ifs.Hd(), os.Hd(), fIn, hIn);
  }

  lemma SoleUsersOf(p: Pool, q: Pool, a: Handle, b: Handle, c: Handle, others1: nat, others2: nat)
    requires Session(p, q, [a, b, c]) && a.file != b.file && a.file != c.file && b.file != c.file
    requires Shared(p, a.file, others1, b.file, others2)
    ensures others1 == 0 ==> SoleUser(q, a)
    ensures others2 == 0 ==> SoleUser(q, b)
  {
    if others1 == 0 {
      SessionSole(p, q, [a, b, c], 0);
    }
    if others2 == 0 {
      SessionSole(p, q, [a, b, c], 1);
    }
  }

  /** Close the outer relation. */
  method CloseOuter(ifs: HeapFile, outOthers: nat, os: HeapFile, outerOthers: nat, fIn: int, ghost hIn: Heap,
                    ghost p0: Pool)
    requires Between(ifs, os, fIn, hIn, p0) && os.filePtr != NO_PAGE.file
    requires Shared(p0, ifs.filePtr, outOthers, os.filePtr, outerOthers)
    modifies os`curFrame, os`headerFrame, os.bm.Repr()
    ensures fresh(os.bm.Repr() - old(os.bm.Repr())) && ifs.Valid() && ifs.AtLast()
    ensures Settled(os.bm.View(), os.filePtr, os.heap) && Ready(os.bm.View(), fIn, hIn)
    ensures outerOthers == 0 ==> OnDisk(os.bm.View(), os.filePtr, os.heap)
    ensures outOthers == 0 ==> SoleUser(os.bm.View(), ifs.Hd())
    ensures Session(p0, os.bm.View(), [ifs.Hd(), Closed(os.filePtr, os.headerPageNo).(hdrDirty := os.hdrDirtyFlag),
                                       Closed(fIn, 1)])
  {
    hide HeapFile.AtLast, BufMgr.Linked, PoolSpec.Ok, HeapSpec.Inv, HeapFile.Hd, HeapPool.Quiet, HeapPool.Unseen,
         HeapPool.Exclusive, HeapPool.Holding, HeapPool.Settled, HeapPool.SoleUser, HeapPool.OnDisk, Shrunk, Session,
         HeapFile.CursorOk, Ready, Shared;
    ghost var p, a, b, c := os.bm.View(), ifs.Hd(), os.Hd(), Closed(fIn, 1);
    HandleFile(ifs);
    HandleFile(os);
    SoleUsersOf(p0, p, a, b, c, outOthers, outerOthers);
    os.Close(outerOthers);
    ghost var q, b' := os.bm.View(), Closed(os.filePtr, os.headerPageNo).(hdrDirty := os.hdrDirtyFlag);
    UnseenIsQuiet(p, b, q, b');
    StillValid(ifs, p, b, b');
    ReadyStays(p, b, q, b', fIn, hIn);
    SessionStep(p0, p, [a, b, c], 1, q, b');
    assert [a, b, c][1 := b'] == [a, b', c];
    SoleUsersOf(p0, q, a, b', c, outOthers, outerOthers);
  }

  /** Close the result, the last file still open. */
  method CloseResult(ifs: HeapFile, outOthers: nat, fOuter: int, ghost hOuter: Heap, outerOthers: nat, fIn: int,
                     ghost hIn: Heap, ghost p0: Pool,
                     ghost b: Handle)
    requires ifs.Valid() && ifs.filePtr != NO_PAGE.file && (outOthers == 0 ==> SoleUser(ifs.bm.View(), ifs.Hd()))
    requires fOuter != ifs.filePtr && Settled(ifs.bm.View(), fOuter, hOuter)
    requires (outerOthers == 0 ==> OnDisk(ifs.bm.View(), fOuter, hOuter))
    requires fIn != ifs.filePtr && Ready(ifs.bm.View(), fIn, hIn)
    requires Session(p0, ifs.bm.View(), [ifs.Hd(), b, Closed(fIn, 1)])
    requires b.file == fOuter && !b.HasHdr() && !b.HasCur()
    modifies ifs`curFrame, ifs`headerFrame, ifs`curDirtyFlag, ifs.bm.Repr()
    ensures ifs.bm.Valid() && fresh(ifs.bm.Repr() - old(ifs.bm.Repr()))
    ensures Inv(ifs.heap) && Settled(ifs.bm.View(), ifs.filePtr, ifs.heap) && Settled(ifs.bm.View(), fOuter, hOuter)
    ensures Settled(ifs.bm.View(), fIn, hIn)
    ensures outOthers == 0 ==> OnDisk(ifs.bm.View(), ifs.filePtr, ifs.heap)
    ensures outerOthers == 0 ==> OnDisk(ifs.bm.View(), fOuter, hOuter)
    ensures SamePins(p0, ifs.bm.View()) && OtherThreeKept(p0, ifs.bm.View(), ifs.filePtr, fOuter, fIn)
  {
    hide HeapFile.AtLast, BufMgr.Linked, PoolSpec.Ok, HeapSpec.Inv, HeapFile.Hd, HeapPool.Quiet, HeapPool.Unseen,
         HeapPool.Exclusive, HeapPool.Holding, HeapPool.Settled, HeapPool.SoleUser, HeapPool.OnDisk, Shrunk, Session,
         HeapFile.CursorOk, SamePins, OtherThreeKept;
    ghost var q, a, c := ifs.bm.View(), ifs.Hd(), Closed(fIn, 1);
    HandleFile(ifs);
    ifs.CloseAppender(outOthers);
    ghost var r, a' := ifs.bm.View(), Closed(ifs.filePtr, ifs.headerPageNo).(hdrDirty := ifs.hdrDirtyFlag);
    UnseenIsQuiet(q, a, r, a');
    OtherFileSettled(q, a, r, a', fOuter, hOuter);
    ReadyStays(q, a, r, a', fIn, hIn);
    if outerOthers == 0 {
      OtherFileOnDisk(q, a, r, a', fOuter, hOuter);
    }
    SessionStep(p0, q, [a, b, c], 0, r, a');
    assert [a, b, c][0 := a'] == [a', b, c];
    AllClosed(p0, r, a', b, c);
  }

  /** Close the outer relation and then the result. */
  method CloseJoin(ifs: HeapFile, outOthers: nat, os: HeapFile, outerOthers: nat, fIn: int, ghost hIn: Heap,
                   ghost p0: Pool)
    requires Between(ifs, os, fIn, hIn, p0) && Shared(p0, ifs.filePtr, outOthers, os.filePtr, outerOthers)
    requires os.filePtr != NO_PAGE.file && ifs.filePtr != NO_PAGE.file && os.filePtr != ifs.filePtr
    requires fIn != ifs.filePtr
    modifies os`curFrame, os`headerFrame, ifs`curFrame, ifs`headerFrame, ifs`curDirtyFlag, ifs.bm.Repr()
    ensures ifs.bm.Valid() && fresh(ifs.bm.Repr() - old(ifs.bm.Repr())) && Inv(ifs.heap)
    ensures Settled(ifs.bm.View(), ifs.filePtr, ifs.heap) && Settled(ifs.bm.View(), os.filePtr, os.heap)
    ensures Settled(ifs.bm.View(), fIn, hIn)
    ensures outOthers == 0 ==> OnDisk(ifs.bm.View(), ifs.filePtr, ifs.heap)
    ensures outerOthers == 0 ==> OnDisk(ifs.bm.View(), os.filePtr, os.heap)
    ensures SamePins(p0, ifs.bm.View()) && OtherThreeKept(p0, ifs.bm.View(), ifs.filePtr, os.filePtr, fIn)
  {
    hide BufMgr.View, BufMgr.Linked, PoolSpec.Ok, HeapSpec.Inv, HeapFile.Hd, HeapFile.AtLast, Between, HeapPool.Settled,
         HeapPool.OnDisk, Shared, SamePins, OtherThreeKept, Session, Ready;
    CloseOuter(ifs, outOthers, os, outerOthers, fIn, hIn, p0);
    CloseResult(ifs, outOthers, os.filePtr, os.heap, outerOthers, fIn, hIn, p0,
                Closed(os.filePtr, os.headerPageNo).(hdrDirty := os.hdrDirtyFlag));
  }

  ghost predicate OtherThreeKept(p: Pool, q: Pool, f: int, g: int, h: int) {
    forall id: PageId, page :: id.file != f && id.file != g && id.file != h && Has(p, id, page) ==> Has(q, id, page)
  }

  lemma AllClosed(p: Pool, q: Pool, a: Handle, b: Handle, c: Handle)
    requires Session(p, q, [a, b, c])
    requires !a.HasHdr() && !a.HasCur() && !b.HasHdr() && !b.HasCur() && !c.HasHdr() && !c.HasCur()
    ensures SamePins(p, q) && OtherThreeKept(p, q, a.file, b.file, c.file)
  {
    SessionEnd(p, q, [a, b, c]);
  }

  lemma InputsCovered(j: Join, outer: seq<Entry>, inner: seq<Entry>)
    requires Inputs(j, outer, inner)
    ensures OuterCovered(j, outer, inner) && NoEmpty(inner)
  {
    hide Covers;
    forall k | 0 <= k < |outer| ensures InnerCovered(j, outer[k].rec, inner) {}
  }

  lemma BeginNow(p: Pool, fIn: int, hIn: Heap, inOthers: nat, bufs: int)
    requires |PinnedPages(p)| + 6 <= bufs && Ready(p, fIn, hIn) && (inOthers == 0 ==> Idle(p, fIn))
    ensures Begin(p, fIn, hIn, inOthers, bufs)
  {}

  /** The result has gained a tuple for every pair that the filtered inner scans select, which are the pairs of the
      join if the differences of the keys decide. */
  ghost predicate Joined(j: Join, outer: seq<Entry>, inner: seq<Entry>, before: seq<Entry>, after: seq<Entry>) {
    && multiset(RecordsOf(after)) == multiset(RecordsOf(before)) + multiset(RestOut(j, outer, inner))
    && (AllDecided(j, RecordsOf(outer), RecordsOf(inner)) ==>
          multiset(RecordsOf(after)) == multiset(RecordsOf(before))
              + multiset(JoinOut(j, RecordsOf(outer), RecordsOf(inner))))
  }

  ghost function Total(j: Join, outer: seq<Entry>, inner: seq<Entry>, before: seq<Entry>): (total: multiset<Record>)
    ensures Balance(before, RestOut(j, outer, inner), total)
  {
    multiset(RecordsOf(before)) + multiset(RestOut(j, outer, inner))
  }

  lemma BalanceIsJoined(j: Join, outer: seq<Entry>, inner: seq<Entry>, before: seq<Entry>, after: seq<Entry>)
    requires Inputs(j, outer, inner) && Balance(after, [], Total(j, outer, inner, before))
    ensures Joined(j, outer, inner, before, after)
  {
    hide JoinOut, NlOut, Covers;
    if AllDecided(j, RecordsOf(outer), RecordsOf(inner)) {
      NlIsJoin(j, RecordsOf(outer), inner);
    }
  }

  /** The nested loops join of two stored relations. The relations joined and everything else in the database stay as
      they are, no pin is left behind, and the last close of a file leaves it on disk. The program ends in a failed
      ASSERT only if there is a tuple that no page takes, or for want of a frame to grow. */
  method StoredNlJoin(bm: BufMgr, fOut: nat, outOthers: nat, ghost hOut: Heap, fOuter: nat, outerOthers: nat,
                      ghost hOuter: Heap,
                      fIn: nat, inOthers: nat, ghost hIn: Heap, j: Join)
    returns (status: Status, ghost out: Heap)
    requires bm.Valid() && fOut != fOuter && fIn != fOut && fIn != fOuter && |PinnedPages(bm.View())| + 6 <= bm.numBufs
    requires Ready(bm.View(), fOut, hOut) && Ready(bm.View(), fOuter, hOuter) && Ready(bm.View(), fIn, hIn)
    requires Shared(bm.View(), fOut, outOthers, fOuter, outerOthers) && (inOthers == 0 ==> Idle(bm.View(), fIn))
    requires Inputs(j, Entries(hOuter.pages), Entries(hIn.pages))
    modifies bm.Repr()
    ensures fresh(bm.Repr() - old(bm.Repr()))
    ensures status == OK ==>
      Joined(j, Entries(hOuter.pages), Entries(hIn.pages), Entries(hOut.pages), Entries(out.pages))
    ensures status == OK && RestOut(j, Entries(hOuter.pages), Entries(hIn.pages)) != [] ==> InsertableColumns(j.projs)
    ensures status != OK ==>
      GivesUp(j, status, old(bm.View()), bm.numBufs) && RestOut(j, Entries(hOuter.pages), Entries(hIn.pages)) != []
    ensures status == OK ==>
      && bm.Valid() && Inv(out) && Settled(bm.View(), fOut, out) && Settled(bm.View(), fOuter, hOuter)
      && Settled(bm.View(), fIn, hIn)
      && (outOthers == 0 ==> OnDisk(bm.View(), fOut, out)) && (outerOthers == 0 ==> OnDisk(bm.View(), fOuter, hOuter))
      && SamePins(old(bm.View()), bm.View()) && OtherThreeKept(old(bm.View()), bm.View(), fOut, fOuter, fIn)
  {
    hide BufMgr.View, BufMgr.Linked, PoolSpec.Ok, HeapSpec.Inv, HeapSpec.Entries, HeapFile.Hd, HeapFile.Rest,
         HeapFile.Valid, HeapFile.CursorOk, HeapFile.AtLast;
    hide HeapPool.Exclusive, HeapPool.Settled, HeapPool.OnDisk, Unpinned, PinnedPages, Shared, SamePins, OtherThreeKept,
         Session, Between, Inputs, InsertableColumns, GivesUp, Ready, OuterCovered, NoEmpty, Joined, RestOut, Total,
         Balance, HeapPool.Idle, Begin;
    ghost var p := bm.View();
    ghost var outer, inner, before := Entries(hOuter.pages), Entries(hIn.pages), Entries(hOut.pages);
    InputsCovered(j, outer, inner);
    BeginNow(p, fIn, hIn, inOthers, bm.numBufs);
    var ifs, os := OpenOuter(bm, fOut, hOut, fOuter, hOuter, fIn, hIn);
    status := JoinOuter(ifs, os, fIn, inOthers, hIn, j, p, Total(j, outer, inner, before));
    out := ifs.heap;
    if status != OK { return; }
    CloseJoin(ifs, outOthers, os, outerOthers, fIn, hIn, p);
    BalanceIsJoined(j, outer, inner, before, Entries(out.pages));
  }
}
