/** ScanSelect (phase 6, select.C) on the storage layers: two heap files open at once in one pool. */
module SelectOperator {
  import opened Bytes
  import opened Statuses
  import opened DiskSpec
  import opened Clock
  import opened PoolSpec
  import opened Buffer
  import opened ScanSpec
  import opened HeapSpec
  import opened HeapPool
  import opened HeapSessions
  import opened HeapFiles
  import opened JoinSpecs
  import opened JoinResults
  import SlottedPage
  import BufHash
  import Db

  /** The projected attributes of a record; both sides of the projection are the same record. */
  function Columns(projs: seq<Attr>, rec: Record): Record { Project(0, projs, rec, rec) }

  function SelectOut(projs: seq<Attr>, es: seq<Entry>): seq<Record> {
    seq(|es|, i requires 0 <= i < |es| => Columns(projs, es[i].rec))
  }

  /** The records have room for every projected attribute. */
  ghost predicate Wide(projs: seq<Attr>, es: seq<Entry>) {
    forall i :: 0 <= i < |es| ==> Covers(0, projs, es[i].rec, es[i].rec)
  }

  /** The result file holds what it held before and the columns of the entries done; todo are still to come. */
  ghost predicate Selected(projs: seq<Attr>, before: seq<Entry>, now: seq<Entry>, all: seq<Entry>, todo: seq<Entry>) {
    exists done :: all == done + todo && Gained(projs, before, now, done)
  }

  ghost predicate Gained(projs: seq<Attr>, before: seq<Entry>, now: seq<Entry>, done: seq<Entry>) {
    multiset(RecordsOf(now)) == multiset(RecordsOf(before)) + multiset(SelectOut(projs, done))
  }

  /** An insertion has failed: at least one entry has been left out. */
  ghost predicate CutShort(projs: seq<Attr>, before: seq<Entry>, now: seq<Entry>, all: seq<Entry>) {
    exists todo :: todo != [] && Selected(projs, before, now, all, todo)
  }

  function SelectFilter(unfiltered: bool, attrOffset: int, op: Operator, value: int): Filter {
    if unfiltered || attrOffset < 0 then NoFilter else IntFilter(attrOffset, op, value)
  }

  /** What the scan returns, in terms of the comparison the operator stands for. */
  lemma FilterMeans(es: seq<Entry>, unfiltered: bool, attrOffset: int, op: Operator, value: int)
    ensures unfiltered && NoEmpty(es) ==> Taken(es, SelectFilter(unfiltered, attrOffset, op, value)) == es
    ensures !unfiltered && 0 <= attrOffset && Decides(es, attrOffset, op, value) ==>
      Taken(es, SelectFilter(unfiltered, attrOffset, op, value)) == Satisfying(es, attrOffset, op, value)
  {
    if unfiltered && NoEmpty(es) {
      TakenIsAll(es);
    } else if !unfiltered && 0 <= attrOffset && Decides(es, attrOffset, op, value) {
      TakenIsSatisfying(es, attrOffset, op, value);
    }
  }

  lemma SelectedStart(projs: seq<Attr>, before: seq<Entry>, all: seq<Entry>)
    ensures Selected(projs, before, before, all, all)
  {
    assert all == [] + all && SelectOut(projs, []) == [];
    assert Gained(projs, before, before, []);
  }

  lemma InsertedBag(before: seq<Entry>, after: seq<Entry>, rid: RID, rec: Record)
    requires Inserted(before, after, rid, rec)
    ensures multiset(RecordsOf(after)) == multiset(RecordsOf(before)) + multiset{rec}
  {
    var k :| 0 <= k <= |before| && after == before[..k] + [Entry(rid, rec)] + before[k..];
    assert RecordsOf(after) == RecordsOf(before)[..k] + [rec] + RecordsOf(before)[k..];
    assert RecordsOf(before) == RecordsOf(before)[..k] + RecordsOf(before)[k..];
  }

  lemma GainedOne(projs: seq<Attr>, before: seq<Entry>, now: seq<Entry>, done: seq<Entry>, e: Entry, rid: RID,
                  now': seq<Entry>)
    requires Gained(projs, before, now, done) && Inserted(now, now', rid, Columns(projs, e.rec))
    ensures Gained(projs, before, now', done + [e])
  {
    InsertedBag(now, now', rid, Columns(projs, e.rec));
    hide Columns, Inserted, RecordsOf;
    assert SelectOut(projs, done + [e]) == SelectOut(projs, done) + [Columns(projs, e.rec)];
  }

  lemma SelectedStep(projs: seq<Attr>, before: seq<Entry>, now: seq<Entry>, all: seq<Entry>, e: Entry, todo: seq<Entry>,
                     rid: RID, now': seq<Entry>)
    requires Selected(projs, before, now, all, [e] + todo) && Inserted(now, now', rid, Columns(projs, e.rec))
    ensures Selected(projs, before, now', all, todo)
  {
    hide Gained, Inserted, Columns;
    var done :| all == done + ([e] + todo) && Gained(projs, before, now, done);
    GainedOne(projs, before, now, done, e, rid, now');
    assert all == (done + [e]) + todo;
  }

  lemma SomeLeft(projs: seq<Attr>, before: seq<Entry>, now: seq<Entry>, all: seq<Entry>, e: Entry, todo: seq<Entry>)
    requires Selected(projs, before, now, all, [e] + todo)
    ensures CutShort(projs, before, now, all)
  {
    assert [e] + todo != [];
  }

  lemma SelectedAll(projs: seq<Attr>, before: seq<Entry>, now: seq<Entry>, all: seq<Entry>)
    requires Selected(projs, before, now, all, [])
    ensures Gained(projs, before, now, all)
  {
    var done :| all == done + [] && Gained(projs, before, now, done);
    assert all == done;
  }

  lemma WideAhead(projs: seq<Attr>, rest: seq<Entry>, f: Filter)
    requires Wide(projs, rest) && NextStatus(rest, f) == OK
    ensures Skip(rest, f) != [] && Covers(0, projs, Skip(rest, f)[0].rec, Skip(rest, f)[0].rec)
    ensures Wide(projs, NextRest(rest, f)) && Skip(rest, f)[0].rec != []
    ensures Taken(rest, f) == [Skip(rest, f)[0]] + Taken(NextRest(rest, f), f) && |NextRest(rest, f)| < |rest|
  {
    hide Covers;
    var s := Skip(rest, f);
    assert s == rest[|rest| - |s|..];
    assert s[0] == rest[|rest| - |s|];
    forall i | 0 <= i < |s[1..]| ensures Covers(0, projs, s[1..][i].rec, s[1..][i].rec) {
      assert s[1..][i] == rest[|rest| - |s| + 1 + i];
    }
  }

  lemma NoneTaken(rest: seq<Entry>, f: Filter)
    requires NextStatus(rest, f) != OK
    ensures Taken(rest, f) == []
  {}

  /** The scan and the appender, working on different files of one pool. */
  ghost predicate Working(ifs: HeapFile, hfs: HeapFile)
    reads ifs, hfs, ifs.bm, ifs.bm.bufTable, ifs.bm.bufPool, ifs.bm.hashTable, ifs.bm.hashTable.ht
    reads ifs.bm.hashTable.buckets, ifs.bm.disk
    reads hfs.bm, hfs.bm.bufTable, hfs.bm.bufPool, hfs.bm.hashTable, hfs.bm.hashTable.ht, hfs.bm.hashTable.buckets
    reads hfs.bm.disk
    ensures Working(ifs, hfs) ==> ifs != hfs && ifs.bm == hfs.bm && ifs.CursorOk() && hfs.CursorOk()
  {
    && ifs != hfs && ifs.bm == hfs.bm && ifs.filePtr != hfs.filePtr && ifs.Valid() && hfs.Valid()
    && ifs.AtLast() && hfs.curFrame >= 0 && Exclusive(hfs.bm.View(), hfs.Hd(), hfs.heap.chain)
  }

  /** Find the next matching record. */
  method ScanStep(ifs: HeapFile, hfs: HeapFile) returns (status: Status, rec: Record)
    requires Working(ifs, hfs)
    modifies hfs`curFrame, hfs`curPageNo, hfs`curDirtyFlag, hfs`curRec, hfs`ci, hfs.bm.Repr()
    ensures Working(ifs, hfs) && fresh(hfs.bm.Repr() - old(hfs.bm.Repr()))
    ensures Quiet(old(hfs.bm.View()), old(hfs.Hd()), hfs.bm.View(), hfs.Hd()) && ifs.Contents() == old(ifs.Contents())
    ensures hfs.Rest() == NextRest(old(hfs.Rest()), hfs.filter)
    ensures status == NextStatus(old(hfs.Rest()), hfs.filter)
    ensures status == OK ==> Skip(old(hfs.Rest()), hfs.filter) != [] && rec == Skip(old(hfs.Rest()), hfs.filter)[0].rec
  {
    hide BufMgr.Linked, PoolSpec.Ok, HeapSpec.Inv, HeapSpec.Entries, HeapFile.Hd, HeapFile.Rest, HeapFile.OnRecord,
         HeapFile.Current, HeapFile.CursorOk;
    hide HeapPool.Holding, HeapPool.Quiet, HeapPool.Unseen, HeapPool.Exclusive, ScanSpec.NextStatus,
         ScanSpec.NextRest, ScanSpec.Skip;
    rec := [];
    ghost var p, hd := hfs.bm.View(), hfs.Hd();
    ghost var rest := hfs.Rest();
    HandleFile(hfs);
    var rid;
    status, rid := hfs.ScanNext();
    UnseenIsQuiet(p, hd, hfs.bm.View(), hfs.Hd());
    QuietExclusive(p, hd, hfs.bm.View(), hfs.Hd(), hfs.heap.chain);
    StillValid(ifs, p, hd, hfs.Hd());
    if status == OK {
      status, rec := hfs.GetCurrent();
      RecordRead(rest, hfs.filter);
    }
  }

  /** Append a tuple to the result file. */
  method InsertTuple(ifs: HeapFile, hfs: HeapFile, tuple: Record) returns (status: Status, ghost rid: RID)
    requires Working(ifs, hfs)
    modifies ifs, ifs.bm.Repr()
    ensures Working(ifs, hfs) && fresh(ifs.bm.Repr() - old(ifs.bm.Repr()))
    ensures Quiet(old(ifs.bm.View()), old(ifs.Hd()), ifs.bm.View(), ifs.Hd())
    ensures status == OK ==> Inserted(old(ifs.Contents()), ifs.Contents(), rid, tuple) && Insertable(|tuple|)
    ensures status != OK ==> ifs.Contents() == old(ifs.Contents())
    ensures status != OK && Insertable(|tuple|) ==> old(ifs.curFrame < 0 || PoolSpec.Exhausted(ifs.bm.View()))
    ensures old(ifs.curFrame) >= 0 ==> ifs.curFrame >= 0
    ensures status == OK || status == INVALIDRECLEN || status == NOSPACE || status == BUFFEREXCEEDED
  {
    hide BufMgr.Linked, PoolSpec.Ok, HeapSpec.Inv, HeapSpec.Entries, HeapFile.Hd, HeapFile.CursorOk, Inserted,
         PoolSpec.Exhausted, HeapPool.Holding, HeapPool.Quiet, HeapPool.Unseen, HeapPool.Exclusive;
    ghost var p, hd := ifs.bm.View(), ifs.Hd();
    HandleFile(ifs);
    status, rid := AppendTuple(ifs, tuple);
    StillValid(hfs, p, hd, ifs.Hd());
    HandleFile(hfs);
    OtherFileExclusive(p, hd, ifs.bm.View(), ifs.Hd(), hfs.Hd(), hfs.heap.chain);
  }

  predicate InsertableColumns(projs: seq<Attr>) { Insertable(RecLen(projs)) }

  /** Add the columns of a record to the result file. */
  method InsertColumns(ifs: HeapFile, hfs: HeapFile, projs: seq<Attr>, rec: Record, insRec: array<byte>)
    returns (status: Status, ghost rid: RID)
    requires Working(ifs, hfs) && Covers(0, projs, rec, rec) && insRec.Length == RecLen(projs)
    modifies insRec, ifs, ifs.bm.Repr()
    ensures Working(ifs, hfs) && fresh(ifs.bm.Repr() - old(ifs.bm.Repr())) && hfs.Rest() == old(hfs.Rest())
    ensures Quiet(old(ifs.bm.View()), old(ifs.Hd()), ifs.bm.View(), ifs.Hd())
    ensures status == OK ==>
      Inserted(old(ifs.Contents()), ifs.Contents(), rid, Columns(projs, rec)) && InsertableColumns(projs)
    ensures status != OK ==> ifs.Contents() == old(ifs.Contents())
    ensures status != OK && InsertableColumns(projs) ==> old(ifs.curFrame < 0 || PoolSpec.Exhausted(ifs.bm.View()))
    ensures old(ifs.curFrame) >= 0 ==> ifs.curFrame >= 0
    ensures status == OK || status == INVALIDRECLEN || status == NOSPACE || status == BUFFEREXCEEDED
  {
    hide Working, HeapFile.Contents, BufMgr.View, HeapFile.Hd, Inserted, HeapPool.Quiet, PoolSpec.Exhausted, Covers,
         Project, RecLen;
    CopyAttrs(0, projs, rec, rec, insRec);
    ProjectLength(0, projs, rec, rec);
    status, rid := InsertTuple(ifs, hfs, insRec[..]);
  }

  /** A frame is left over for the file to grow. */
  ghost predicate Roomy(p: Pool, files: nat, bufs: int) {
    |PinnedPages(p)| + 2 * files < bufs
  }

  lemma RoomAgain(p: Pool, ifs: HeapFile, hfs: HeapFile, hs: seq<Handle>)
    requires PoolSpec.Ok(p) && Working(ifs, hfs) && Session(p, ifs.bm.View(), hs)
    ensures Roomy(p, |hs|, ifs.bm.numBufs) ==> !PoolSpec.Exhausted(ifs.bm.View())
  {
    if Roomy(p, |hs|, ifs.bm.numBufs) {
      RoomToGrow(p, ifs.bm.View(), hs);
    }
  }

  /** What the loop leaves behind. */
  ghost predicate SelectDone(projs: seq<Attr>, status: Status, before: seq<Entry>, after: seq<Entry>, all: seq<Entry>,
                             roomy: bool) {
    if status == OK then Gained(projs, before, after, all) && (all != [] ==> InsertableColumns(projs))
    else
      && (status == INVALIDRECLEN || status == NOSPACE || status == BUFFEREXCEEDED)
      && CutShort(projs, before, after, all) && (InsertableColumns(projs) ==> !roomy)
  }

  lemma DoneAll(projs: seq<Attr>, before: seq<Entry>, after: seq<Entry>, all: seq<Entry>, roomy: bool)
    requires Selected(projs, before, after, all, []) && (all != [] ==> InsertableColumns(projs))
    ensures SelectDone(projs, OK, before, after, all, roomy)
  {
    SelectedAll(projs, before, after, all);
  }

  lemma DoneShort(projs: seq<Attr>, status: Status, before: seq<Entry>, after: seq<Entry>, all: seq<Entry>, e: Entry,
                  todo: seq<Entry>, roomy: bool)
    requires status == INVALIDRECLEN || status == NOSPACE || status == BUFFEREXCEEDED
    requires Selected(projs, before, after, all, [e] + todo) && (InsertableColumns(projs) ==> !roomy)
    ensures SelectDone(projs, status, before, after, all, roomy)
  {
    SomeLeft(projs, before, after, all, e, todo);
  }

  /** One turn of the loop of ScanSelect; more tells whether the scan has found a record. */
  method SelectTurn(ifs: HeapFile, hfs: HeapFile, projs: seq<Attr>, insRec: array<byte>, ghost p0: Pool,
                    ghost before: seq<Entry>, ghost all: seq<Entry>)
    returns (status: Status, more: bool)
    requires Working(ifs, hfs) && ifs.curFrame >= 0 && Wide(projs, hfs.Rest()) && insRec.Length == RecLen(projs)
    requires PoolSpec.Ok(p0) && Session(p0, ifs.bm.View(), [ifs.Hd(), hfs.Hd()])
    requires Selected(projs, before, ifs.Contents(), all, Taken(hfs.Rest(), hfs.filter))
    modifies insRec, hfs`curFrame, hfs`curPageNo, hfs`curDirtyFlag, hfs`curRec, hfs`ci, ifs, ifs.bm.Repr()
    ensures Working(ifs, hfs) && ifs.curFrame >= 0 && fresh(ifs.bm.Repr() - old(ifs.bm.Repr()))
    ensures Session(p0, ifs.bm.View(), [ifs.Hd(), hfs.Hd()])
    ensures more == (old(Taken(hfs.Rest(), hfs.filter)) != [])
    ensures !more ==> status == OK && Selected(projs, before, ifs.Contents(), all, [])
    ensures more && status == OK ==>
      && |hfs.Rest()| < old(|hfs.Rest()|) && Wide(projs, hfs.Rest()) && InsertableColumns(projs)
      && Selected(projs, before, ifs.Contents(), all, Taken(hfs.Rest(), hfs.filter))
    ensures status != OK ==> SelectDone(projs, status, before, ifs.Contents(), all, Roomy(p0, 2, ifs.bm.numBufs))
  {
    hide Working, HeapFile.Contents, HeapFile.AtLast, BufMgr.View, BufMgr.Linked, PoolSpec.Ok, HeapSpec.Inv,
         HeapSpec.Entries, HeapFile.Valid, HeapFile.Hd, HeapFile.Rest, HeapFile.CursorOk, Inserted;
    hide HeapPool.Holding, HeapPool.Quiet, HeapPool.Exclusive, Session, Covers, Columns, RecLen, InsertableColumns,
         PoolSpec.Exhausted, ScanSpec.NextStatus, ScanSpec.NextRest, ScanSpec.Skip, ScanSpec.Taken, Wide, Selected,
         SelectDone, Roomy;
    ghost var a, b, p, rest := ifs.Hd(), hfs.Hd(), ifs.bm.View(), hfs.Rest();
    var rec;
    status, rec := ScanStep(ifs, hfs);
    SessionStep(p0, p, [a, b], 1, ifs.bm.View(), hfs.Hd());
    assert [a, b][1 := hfs.Hd()] == [a, hfs.Hd()];
    if status != OK {
      NoneTaken(rest, hfs.filter);
      return OK, false;
    }
    more := true;
    WideAhead(projs, rest, hfs.filter);
    RoomAgain(p0, ifs, hfs, [a, hfs.Hd()]);
    ghost var now, q, rid, todo := ifs.Contents(), ifs.bm.View(), NULLRID, Taken(hfs.Rest(), hfs.filter);
    status, rid := InsertColumns(ifs, hfs, projs, rec, insRec);
    SessionStep(p0, q, [a, hfs.Hd()], 0, ifs.bm.View(), ifs.Hd());
    assert [a, hfs.Hd()][0 := ifs.Hd()] == [ifs.Hd(), hfs.Hd()];
    if status != OK {
      DoneShort(projs, status, before, ifs.Contents(), all, Skip(rest, hfs.filter)[0], todo,
                Roomy(p0, 2, ifs.bm.numBufs));
    } else {
      SelectedStep(projs, before, now, all, Skip(rest, hfs.filter)[0], todo, rid, ifs.Contents());
    }
  }

  /** The loop of ScanSelect. It ends when a step of the scan is not OK or an insertion fails. */
  method SelectLoop(ifs: HeapFile, hfs: HeapFile, projs: seq<Attr>, ghost p0: Pool) returns (status: Status)
    requires Working(ifs, hfs) && ifs.curFrame >= 0 && Wide(projs, hfs.Rest())
    requires PoolSpec.Ok(p0) && Session(p0, ifs.bm.View(), [ifs.Hd(), hfs.Hd()])
    modifies hfs`curFrame, hfs`curPageNo, hfs`curDirtyFlag, hfs`curRec, hfs`ci, ifs, ifs.bm.Repr()
    ensures Working(ifs, hfs) && fresh(ifs.bm.Repr() - old(ifs.bm.Repr()))
    ensures Session(p0, ifs.bm.View(), [ifs.Hd(), hfs.Hd()])
    ensures SelectDone(projs, status, old(ifs.Contents()), ifs.Contents(), old(Taken(hfs.Rest(), hfs.filter)),
                       Roomy(p0, 2, ifs.bm.numBufs))
  {
    hide Working, HeapFile.Contents, HeapFile.AtLast, BufMgr.View, PoolSpec.Ok, HeapFile.Valid, HeapFile.Hd,
         HeapFile.Rest, HeapFile.CursorOk, Session, RecLen, InsertableColumns, ScanSpec.Taken, Wide, Selected,
         SelectDone, Roomy;
    ghost var before, all := ifs.Contents(), Taken(hfs.Rest(), hfs.filter);
    SelectedStart(projs, before, all);
    var insRec := new byte[RecLen(projs)];
    var more := true;
    while more
      invariant Working(ifs, hfs) && ifs.curFrame >= 0 && fresh(ifs.bm.Repr() - old(ifs.bm.Repr()))
      invariant more ==> Wide(projs, hfs.Rest())
      invariant Selected(projs, before, ifs.Contents(), all, if more then Taken(hfs.Rest(), hfs.filter) else [])
      invariant Session(p0, ifs.bm.View(), [ifs.Hd(), hfs.Hd()])
      invariant (more && Taken(hfs.Rest(), hfs.filter) == all)
             || (if all == [] then !more else InsertableColumns(projs))
      decreases more, |hfs.Rest()|
    {
      status, more := SelectTurn(ifs, hfs, projs, insRec, p0, before, all);
      if status != OK { return; }
    }
    DoneAll(projs, before, ifs.Contents(), all, Roomy(p0, 2, ifs.bm.numBufs));
    status := OK;
  }

  // ----- opening and closing both files -----

  lemma OpenedTwo(p: Pool, a: Handle, b: Handle, q: Pool, a': Handle, r: Pool, b': Handle)
    requires PoolSpec.Ok(p)
    requires !a.HasHdr() && !a.HasCur() && !b.HasHdr() && !b.HasCur()
    requires Quiet(p, a, q, a') && Quiet(q, b, r, b')
    ensures Session(p, r, [a', b'])
  {
    hide Quiet, Session;
    SessionStart(p, [a, b]);
    SessionStep(p, p, [a, b], 0, q, a');
    assert [a, b][0 := a'] == [a', b];
    SessionStep(p, q, [a', b], 1, r, b');
    assert [a', b][1 := b'] == [a', b'];
  }

  /** Open the result for appending and the source for scanning. */
  method OpenBoth(bm: BufMgr, fOut: int, ghost hOut: Heap, fIn: int, ghost hIn: Heap)
    returns (ifs: HeapFile, hfs: HeapFile)
    requires bm.Valid() && fOut != fIn && |PinnedPages(bm.View())| + 4 <= bm.numBufs
    requires Inv(hOut) && Settled(bm.View(), fOut, hOut) && hOut.hdrNo == 1 && Unpinned(bm.View(), fOut, hOut.chain)
    requires Inv(hIn) && Settled(bm.View(), fIn, hIn) && hIn.hdrNo == 1 && Unpinned(bm.View(), fIn, hIn.chain)
    modifies bm.Repr()
    ensures fresh(ifs) && fresh(hfs) && fresh(bm.Repr() - old(bm.Repr())) && Working(ifs, hfs) && ifs.bm == bm
    ensures ifs.curFrame >= 0 && ifs.filePtr == fOut && hfs.filePtr == fIn && ifs.headerPageNo == hfs.headerPageNo == 1
    ensures ifs.heap == hOut && hfs.heap == hIn && hfs.Rest() == Entries(hIn.pages)
    ensures Session(old(bm.View()), bm.View(), [ifs.Hd(), hfs.Hd()])
  {
    hide PoolSpec.Ok, HeapSpec.Inv, HeapSpec.Entries, HeapFile.Hd, HeapFile.Rest, HeapPool.Quiet, HeapPool.Unseen,
         HeapPool.Exclusive, HeapPool.CanOpen, HeapPool.Holding, HeapPool.Settled;
    hide Unpinned, PinnedPages, Session, HeapFile.CursorOk, BufHash.BufHashTbl.Valid, Db.DiskFiles.Valid;
    ghost var p, a, b := bm.View(), Closed(fOut, 1), Closed(fIn, 1);
    FirstCanOpen(bm, fOut, hOut);
    ifs := OpenAppender(bm, fOut, hOut);
    ghost var q, a' := bm.View(), ifs.Hd();
    SecondCanOpen(p, a, q, a', fIn, hIn);
    hfs := new HeapFile(bm, fIn, hIn);
    ghost var r, b' := bm.View(), hfs.Hd();
    UnseenIsQuiet(q, b, r, b');
    OpenedExclusive(q, fIn, r, b', hIn);
    StillValid(ifs, q, b, b');
    OpenedTwo(p, a, b, q, a', r, b');
  }

  /** The files are open as often as others1 and others2 say besides; if they are not, nobody has pinned their pages. */
  ghost predicate Shared(p: Pool, f1: int, others1: nat, f2: int, others2: nat) {
    (others1 == 0 ==> Idle(p, f1)) && (others2 == 0 ==> Idle(p, f2))
  }

  lemma SoleUsers(p: Pool, q: Pool, a: Handle, b: Handle, others1: nat, others2: nat)
    requires Session(p, q, [a, b]) && a.file != b.file && Shared(p, a.file, others1, b.file, others2)
    ensures others1 == 0 ==> SoleUser(q, a)
    ensures others2 == 0 ==> SoleUser(q, b)
  {
    if others1 == 0 {
      SessionSole(p, q, [a, b], 0);
    }
    if others2 == 0 {
      SessionSole(p, q, [a, b], 1);
    }
  }

  /** Close the result, then the source. */
  method CloseBoth(ifs: HeapFile, outOthers: nat, hfs: HeapFile, inOthers: nat, ghost p0: Pool)
    requires Working(ifs, hfs) && ifs.filePtr != NO_PAGE.file && hfs.filePtr != NO_PAGE.file
    requires Session(p0, ifs.bm.View(), [ifs.Hd(), hfs.Hd()])
    requires Shared(p0, ifs.filePtr, outOthers, hfs.filePtr, inOthers)
    modifies ifs`curFrame, ifs`headerFrame, ifs`curDirtyFlag, hfs`curFrame, hfs`headerFrame, ifs.bm.Repr()
    ensures ifs.bm.Valid() && Inv(ifs.heap) && Settled(ifs.bm.View(), ifs.filePtr, ifs.heap)
    ensures fresh(ifs.bm.Repr() - old(ifs.bm.Repr()))
    ensures Inv(hfs.heap) && Settled(ifs.bm.View(), hfs.filePtr, hfs.heap)
    ensures outOthers == 0 ==> OnDisk(ifs.bm.View(), ifs.filePtr, ifs.heap)
    ensures inOthers == 0 ==> OnDisk(ifs.bm.View(), hfs.filePtr, hfs.heap)
    ensures Session(p0, ifs.bm.View(), [Closed(ifs.filePtr, ifs.headerPageNo).(hdrDirty := ifs.hdrDirtyFlag),
                                        Closed(hfs.filePtr, hfs.headerPageNo).(hdrDirty := hfs.hdrDirtyFlag)])
  {
    hide BufMgr.Linked, PoolSpec.Ok, HeapSpec.Inv, HeapFile.Hd, HeapPool.Quiet, HeapPool.Unseen, HeapPool.Exclusive,
         HeapPool.Holding, HeapPool.Settled, HeapPool.SoleUser, HeapPool.Idle, HeapPool.OnDisk, Shrunk, Session,
         HeapFile.CursorOk;
    ghost var p, a, b := ifs.bm.View(), ifs.Hd(), hfs.Hd();
    HandleFile(ifs);
    HandleFile(hfs);
    SoleUsers(p0, p, a, b, outOthers, inOthers);
    ifs.CloseAppender(outOthers);
    ghost var q, a' := ifs.bm.View(), Closed(ifs.filePtr, ifs.headerPageNo).(hdrDirty := ifs.hdrDirtyFlag);
    UnseenIsQuiet(p, a, q, a');
    SessionStep(p0, p, [a, b], 0, q, a');
    assert [a, b][0 := a'] == [a', b];
    StillValid(hfs, p, a, a');
    SoleUsers(p0, q, a', b, outOthers, inOthers);
    hfs.Close(inOthers);
    ghost var r, b' := ifs.bm.View(), Closed(hfs.filePtr, hfs.headerPageNo).(hdrDirty := hfs.hdrDirtyFlag);
    UnseenIsQuiet(q, b, r, b');
    OtherFileSettled(q, b, r, b', ifs.filePtr, ifs.heap);
    if outOthers == 0 {
      OtherFileOnDisk(q, b, r, b', ifs.filePtr, ifs.heap);
    }
    SessionStep(p0, q, [a', b], 1, r, b');
    assert [a', b][1 := b'] == [a', b'];
  }

  /** Start the scan and run the loop. */
  method SelectOpen(ifs: HeapFile, hfs: HeapFile, projs: seq<Attr>, unfiltered: bool, attrOffset: int, attrLen: int,
                    op: Operator, value: int,
                    ghost p0: Pool)
    returns (status: Status)
    requires Working(ifs, hfs) && ifs.curFrame >= 0 && Wide(projs, hfs.Rest())
    requires PoolSpec.Ok(p0) && Session(p0, ifs.bm.View(), [ifs.Hd(), hfs.Hd()])
    modifies hfs`filter, hfs`curFrame, hfs`curPageNo, hfs`curDirtyFlag, hfs`curRec, hfs`ci, ifs, ifs.bm.Repr()
    ensures Working(ifs, hfs) && fresh(ifs.bm.Repr() - old(ifs.bm.Repr()))
    ensures Session(p0, ifs.bm.View(), [ifs.Hd(), hfs.Hd()])
    ensures if !unfiltered && (attrOffset < 0 || attrLen != 4) then status == BADSCANPARM && ifs.heap == old(ifs.heap)
            else SelectDone(projs, status, old(ifs.Contents()), ifs.Contents(),
                            Taken(old(hfs.Rest()), SelectFilter(unfiltered, attrOffset, op, value)), Roomy(p0, 2,
                                ifs.bm.numBufs))
  {
    hide BufMgr.View, BufMgr.Linked, PoolSpec.Ok, HeapSpec.Inv, HeapFile.Contents, HeapFile.Hd, HeapFile.Rest,
         HeapFile.Valid, HeapFile.CursorOk, HeapPool.Exclusive, Session, ScanSpec.Taken, Wide, SelectDone, Roomy;
    status := hfs.StartScan(unfiltered, attrOffset, attrLen, op, value);
    if status == OK {
      status := SelectLoop(ifs, hfs, projs, p0);
    }
  }

  lemma SessionOver(p: Pool, q: Pool, a: Handle, b: Handle)
    requires Session(p, q, [a, b]) && !a.HasHdr() && !a.HasCur() && !b.HasHdr() && !b.HasCur()
    ensures SamePins(p, q) && OthersKept(p, q, a.file, b.file)
  {
    SessionEnd(p, q, [a, b]);
  }

  ghost predicate OthersKept(p: Pool, q: Pool, f: int, g: int) {
    forall id: PageId, page :: id.file != f && id.file != g && Has(p, id, page) ==> Has(q, id, page)
  }

  /** Add to the result relation the chosen columns of every record of the source that the scan returns. The
      source is unchanged, nothing else in the database changes and no pin is left behind; the last close of a file
      leaves it on disk. */
  method ScanSelect(bm: BufMgr, fOut: nat, outOthers: nat, ghost hOut: Heap, fIn: nat, inOthers: nat, ghost hIn: Heap,
                    projs: seq<Attr>,
                    unfiltered: bool, attrOffset: int, attrLen: int, op: Operator, value: int)
    returns (status: Status, ghost out: Heap)
    requires bm.Valid() && fOut != fIn && |PinnedPages(bm.View())| + 4 <= bm.numBufs
    requires Shared(bm.View(), fOut, outOthers, fIn, inOthers)
    requires Inv(hOut) && Settled(bm.View(), fOut, hOut) && hOut.hdrNo == 1 && Unpinned(bm.View(), fOut, hOut.chain)
    requires Inv(hIn) && Settled(bm.View(), fIn, hIn) && hIn.hdrNo == 1 && Unpinned(bm.View(), fIn, hIn.chain)
    requires Wide(projs, Entries(hIn.pages))
    modifies bm.Repr()
    ensures bm.Valid() && fresh(bm.Repr() - old(bm.Repr()))
    ensures Inv(out) && Settled(bm.View(), fOut, out) && Settled(bm.View(), fIn, hIn)
    ensures outOthers == 0 ==> OnDisk(bm.View(), fOut, out)
    ensures inOthers == 0 ==> OnDisk(bm.View(), fIn, hIn)
    ensures SamePins(old(bm.View()), bm.View()) && OthersKept(old(bm.View()), bm.View(), fOut, fIn)
    ensures if !unfiltered && (attrOffset < 0 || attrLen != 4) then status == BADSCANPARM && out == hOut
            else SelectDone(projs, status, Entries(hOut.pages), Entries(out.pages),
                            Taken(Entries(hIn.pages), SelectFilter(unfiltered, attrOffset, op, value)),
                            Roomy(old(bm.View()), 2, bm.numBufs))
    ensures unfiltered && NoEmpty(Entries(hIn.pages)) ==>
      SelectDone(projs, status, Entries(hOut.pages), Entries(out.pages), Entries(hIn.pages),
                 Roomy(old(bm.View()), 2, bm.numBufs))
    ensures !unfiltered && 0 <= attrOffset && attrLen == 4 && Decides(Entries(hIn.pages), attrOffset, op, value) ==>
      SelectDone(projs, status, Entries(hOut.pages), Entries(out.pages),
                 Satisfying(Entries(hIn.pages), attrOffset, op, value), Roomy(old(bm.View()), 2, bm.numBufs))
  {
    hide BufMgr.View, BufMgr.Linked, PoolSpec.Ok, HeapSpec.Inv, HeapSpec.Entries, HeapFile.Hd, HeapFile.Rest,
         HeapFile.Valid, HeapFile.CursorOk, HeapFile.AtLast;
    hide HeapPool.Exclusive, HeapPool.Settled, HeapPool.OnDisk, Unpinned, PinnedPages, SelectDone, Roomy, Shared, Wide,
         ScanSpec.Taken, SamePins, OthersKept, Session;
    hide Decides, Satisfying, SelectFilter, NoEmpty;
    ghost var p := bm.View();
    FilterMeans(Entries(hIn.pages), unfiltered, attrOffset, op, value);
    var ifs, hfs := OpenBoth(bm, fOut, hOut, fIn, hIn);
    status := SelectOpen(ifs, hfs, projs, unfiltered, attrOffset, attrLen, op, value, p);
    out := ifs.heap;
    CloseBoth(ifs, outOthers, hfs, inOthers, p);
    SessionOver(p, bm.View(), Closed(fOut, 1).(hdrDirty := ifs.hdrDirtyFlag),
                Closed(fIn, 1).(hdrDirty := hfs.hdrDirtyFlag));
  }
}
