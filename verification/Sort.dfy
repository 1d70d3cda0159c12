/** External merge sort with mark and rewind (sort.h, sort.C), for an INTEGER attribute. */
module Sorting {
  import opened Bags
  import opened Bytes
  import opened Statuses
  import opened ScanSpec

  // ----- order -----

  /** Every record is long enough to hold the attribute. */
  predicate Wide(recs: seq<Record>, off: nat) {
    forall i :: 0 <= i < |recs| ==> off + 4 <= |recs[i]|
  }

  /** The attribute of a record. */
  function Key(rec: Record, off: nat): int {
    if off + 4 <= |rec| then IntAt(rec, off) else 0
  }

  /** All differences between keys fit in 32 bits, so that reccmp compares as the integers do. */
  ghost predicate KeysFit(recs: seq<Record>, off: nat) {
    forall r, s :: r in recs && s in recs ==> IsInt32(Key(r, off) - Key(s, off))
  }

  ghost predicate Sorted(recs: seq<Record>, off: nat) {
    forall i, j :: 0 <= i < j < |recs| ==> Key(recs[i], off) <= Key(recs[j], off)
  }

  /** What a sort promises of the sequence it delivers. */
  ghost predicate Delivered(sorted: seq<Record>, recs: seq<Record>, off: nat) {
    multiset(sorted) == multiset(recs) && (KeysFit(recs, off) ==> Sorted(sorted, off))
  }

  /** reccmp(a, b) > 0 */
  predicate After(a: int, b: int) { Diff32(a, b) > 0 }

  lemma AfterIsGreater(a: int, b: int)
    requires IsInt32(a) && IsInt32(b) && IsInt32(a - b)
    ensures After(a, b) <==> a > b
  {
    Diff32Exact(a, b);
    assert Diff32(a, b) == a - b;
  }

  // ----- k-way merge -----

  /** The index next() has chosen after looking at the heads of the first n runs; -1 when all are empty. */
  function Best(rems: seq<seq<Record>>, off: nat, n: nat): (b: int)
    requires n <= |rems|
    ensures -1 <= b < n && (b >= 0 ==> rems[b] != [])
    ensures b == -1 ==> forall i :: 0 <= i < n ==> rems[i] == []
  {
    if n == 0 then -1
    else
      var b := Best(rems, off, n - 1);
      if rems[n - 1] == [] then b
      else if b < 0 || After(Key(rems[b][0], off), Key(rems[n - 1][0], off)) then n - 1
      else b
  }

  function Total(rems: seq<seq<Record>>): nat {
    if rems == [] then 0 else |rems[0]| + Total(rems[1..])
  }

  lemma {:induction false} TotalPop(rems: seq<seq<Record>>, b: nat)
    requires b < |rems| && rems[b] != []
    ensures Total(rems[b := rems[b][1..]]) + 1 == Total(rems)
  {
    if b > 0 {
      assert rems[b := rems[b][1..]][1..] == rems[1..][b - 1 := rems[b][1..]];
      TotalPop(rems[1..], b - 1);
    } else {
      assert rems[0 := rems[0][1..]][1..] == rems[1..];
    }
  }

  /** The sequence of records that next() returns from here on. */
  function MergeOut(rems: seq<seq<Record>>, off: nat): seq<Record>
    decreases Total(rems)
  {
    var b := Best(rems, off, |rems|);
    if b < 0 then []
    else
      TotalPop(rems, b);
      [rems[b][0]] + MergeOut(rems[b := rems[b][1..]], off)
  }

  function Bag(rems: seq<seq<Record>>): multiset<Record> {
    if rems == [] then multiset{} else multiset(rems[0]) + Bag(rems[1..])
  }

  lemma {:induction false} BagPop(rems: seq<seq<Record>>, b: nat)
    requires b < |rems| && rems[b] != []
    ensures Bag(rems) == Bag(rems[b := rems[b][1..]]) + multiset{rems[b][0]}
  {
    if b > 0 {
      assert rems[b := rems[b][1..]][1..] == rems[1..][b - 1 := rems[b][1..]];
      BagPop(rems[1..], b - 1);
    } else {
      assert rems[0] == [rems[0][0]] + rems[0][1..];
      assert rems[0 := rems[0][1..]][1..] == rems[1..];
    }
  }

  lemma {:induction false} BagEmpty(rems: seq<seq<Record>>)
    requires forall i :: 0 <= i < |rems| ==> rems[i] == []
    ensures Bag(rems) == multiset{}
  {
    if rems != [] {
      assert forall i :: 0 <= i < |rems[1..]| ==> rems[1..][i] == rems[i + 1];
      BagEmpty(rems[1..]);
    }
  }

  /** Whatever the keys, the merge returns every record of every run exactly once. */
  lemma {:induction false} MergeIsPermutation(rems: seq<seq<Record>>, off: nat)
    ensures multiset(MergeOut(rems, off)) == Bag(rems)
    decreases Total(rems)
  {
    var b := Best(rems, off, |rems|);
    if b < 0 {
      BagEmpty(rems);
    } else {
      TotalPop(rems, b);
      BagPop(rems, b);
      MergeIsPermutation(rems[b := rems[b][1..]], off);
    }
  }

  /** Sorted runs whose keys can be compared. */
  ghost predicate RunsSorted(rems: seq<seq<Record>>, off: nat) {
    && (forall i :: 0 <= i < |rems| ==> Sorted(rems[i], off))
    && (forall r, s :: r in Bag(rems) && s in Bag(rems) ==> IsInt32(Key(r, off) - Key(s, off)))
  }

  lemma {:induction false} InBag(rems: seq<seq<Record>>, i: nat, j: nat)
    requires i < |rems| && j < |rems[i]|
    ensures rems[i][j] in Bag(rems)
  {
    if i > 0 {
      InBag(rems[1..], i - 1, j);
    }
  }

  lemma {:induction false} BagMember(rems: seq<seq<Record>>, r: Record) returns (i: nat, j: nat)
    requires r in Bag(rems)
    ensures i < |rems| && j < |rems[i]| && rems[i][j] == r
  {
    if r in rems[0] {
      i := 0;
      j :| 0 <= j < |rems[0]| && rems[0][j] == r;
    } else {
      i, j := BagMember(rems[1..], r);
      i := i + 1;
    }
  }

  lemma KeyIsInt32(r: Record, off: nat)
    ensures IsInt32(Key(r, off))
  {}

  lemma HeadsComparable(rems: seq<seq<Record>>, off: nat, i: nat, j: nat)
    requires RunsSorted(rems, off) && i < |rems| && j < |rems| && rems[i] != [] && rems[j] != []
    ensures After(Key(rems[i][0], off), Key(rems[j][0], off)) <==> Key(rems[i][0], off) > Key(rems[j][0], off)
  {
    InBag(rems, i, 0);
    InBag(rems, j, 0);
    AfterIsGreater(Key(rems[i][0], off), Key(rems[j][0], off));
  }

  /** The chosen head is no larger than any other head. */
  lemma {:induction false} BestIsLeast(rems: seq<seq<Record>>, off: nat, n: nat, i: nat)
    requires RunsSorted(rems, off) && i < n <= |rems| && rems[i] != []
    ensures var b := Best(rems, off, n); b >= 0 && Key(rems[b][0], off) <= Key(rems[i][0], off)
    decreases n
  {
    hide RunsSorted, After, Key;
    var c := Best(rems, off, n - 1);
    if i < n - 1 {
      BestIsLeast(rems, off, n - 1, i);
    }
    if c >= 0 && rems[n - 1] != [] {
      HeadsComparable(rems, off, c, n - 1);
    }
  }

  /** The chosen head is no larger than any record still to come. */
  lemma BestBelowAll(rems: seq<seq<Record>>, off: nat, r: Record)
    requires RunsSorted(rems, off) && r in Bag(rems)
    ensures var b := Best(rems, off, |rems|); b >= 0 && Key(rems[b][0], off) <= Key(r, off)
  {
    var i, j := BagMember(rems, r);
    BestIsLeast(rems, off, |rems|, i);
    assert Sorted(rems[i], off);
  }

  lemma RunsSortedPop(rems: seq<seq<Record>>, off: nat, b: nat)
    requires RunsSorted(rems, off) && b < |rems| && rems[b] != []
    ensures RunsSorted(rems[b := rems[b][1..]], off)
  {
    BagPop(rems, b);
    assert Sorted(rems[b], off);
    SortedTail(rems[b], off);
  }

  lemma SortedTail(s: seq<Record>, off: nat)
    requires Sorted(s, off) && s != []
    ensures Sorted(s[1..], off)
  {
    forall i, j | 0 <= i < j < |s[1..]| ensures Key(s[1..][i], off) <= Key(s[1..][j], off) {
      assert s[1..][i] == s[i + 1] && s[1..][j] == s[j + 1];
    }
  }

  lemma SortedCons(r: Record, s: seq<Record>, off: nat)
    requires Sorted(s, off) && forall x :: x in multiset(s) ==> Key(r, off) <= Key(x, off)
    ensures Sorted([r] + s, off)
  {
    var t := [r] + s;
    forall i, j | 0 <= i < j < |t| ensures Key(t[i], off) <= Key(t[j], off) {
      assert t[j] == s[j - 1] && s[j - 1] in multiset(s);
      if i > 0 { assert t[i] == s[i - 1]; }
    }
  }

  /** Merging sorted runs gives a sorted sequence. */
  lemma {:induction false} MergeIsSorted(rems: seq<seq<Record>>, off: nat)
    requires RunsSorted(rems, off)
    ensures Sorted(MergeOut(rems, off), off)
    decreases Total(rems)
  {
    hide Sorted, RunsSorted, Key;
    var b := Best(rems, off, |rems|);
    if b < 0 {
      SortedNil(off);
    } else {
      TotalPop(rems, b);
      RunsSortedPop(rems, off, b);
      var rest := rems[b := rems[b][1..]];
      MergeIsSorted(rest, off);
      MergeIsPermutation(rest, off);
      BagPop(rems, b);
      forall x | x in multiset(MergeOut(rest, off)) ensures Key(rems[b][0], off) <= Key(x, off) {
        BestBelowAll(rems, off, x);
      }
      SortedCons(rems[b][0], MergeOut(rest, off), off);
    }
  }

  lemma SortedNil(off: nat)
    ensures Sorted([], off)
  {}

  // ----- runs -----

  /** A sorted sub-run: the scan of its file, the record read ahead and the marked position. A negative page
      number in rid says that the run has ended. */
  datatype Run = Run(inFile: Scan, valid: bool, rec: Record, rid: RID, markedPos: nat, mark: RID)

  ghost predicate AtRecord(file: seq<Entry>, pos: nat, rid: RID) {
    rid.pageNo >= 0 ==> 1 <= pos <= |file| && file[pos - 1].rid == rid
  }

  ghost predicate RunOk(run: Run, off: nat) {
    var file := run.inFile.file;
    && run.inFile.Valid() && run.inFile.filter == NoFilter
    && (forall i :: 0 <= i < |file| ==> 1 <= file[i].rid.pageNo && off + 4 <= |file[i].rec|)
    && AtRecord(file, run.inFile.pos, run.rid)
    && (run.valid && run.rid.pageNo >= 0 ==> run.rec == file[run.inFile.pos - 1].rec)
    && AtRecord(file, run.markedPos, run.mark) && run.markedPos <= |file|
  }

  /** The records from the one under the cursor on; none at the end of the run. */
  function FromCurrent(file: seq<Entry>, pos: nat, rid: RID): seq<Record> {
    if rid.pageNo >= 0 && 1 <= pos <= |file| then RecordsOf(file[pos - 1..]) else []
  }

  /** What the run has still to contribute. */
  function Rem(run: Run): seq<Record> {
    if run.valid then FromCurrent(run.inFile.file, run.inFile.pos, run.rid)
    else if run.inFile.pos <= |run.inFile.file| then RecordsOf(run.inFile.file[run.inFile.pos..]) else []
  }

  /** What it would contribute if its last record were given back. */
  function Replay(run: Run): seq<Record> {
    FromCurrent(run.inFile.file, run.inFile.pos, run.rid)
  }

  function Marked(run: Run): seq<Record> {
    FromCurrent(run.inFile.file, run.markedPos, run.mark)
  }

  /** next() on a run whose record is not in memory. */
  function Peek(run: Run): Run
    requires run.inFile.Valid()
  {
    if run.valid then run
    else
      var (scan, status) := run.inFile.Next();
      if status == OK then run.(inFile := scan, rid := scan.Current().rid, rec := scan.Current().rec, valid := true)
      else run.(inFile := scan, rid := RID(-1, run.rid.slotNo), valid := true)
  }

  lemma NextPlain(s: Scan)
    requires s.Valid() && s.filter == NoFilter && NoEmpty(s.file)
    ensures var (t, status) := s.Next();
            if s.pos == |s.file| then status == FILEEOF && t.pos == |s.file| else status == OK && t.pos == s.pos + 1
  {
    if s.pos < |s.file| {
      assert s.file[s.pos..][0] == s.file[s.pos];
    }
  }

  lemma RecsTail(file: seq<Entry>, pos: nat)
    requires 0 < pos <= |file|
    ensures RecordsOf(file[pos - 1..]) == [file[pos - 1].rec] + RecordsOf(file[pos..])
  {}

  lemma PeekEnd(run: Run, off: nat)
    requires RunOk(run, off) && !run.valid && run.inFile.pos == |run.inFile.file|
    ensures Peek(run) == run.(inFile := run.inFile, rid := RID(-1, run.rid.slotNo), valid := true)
    ensures RunOk(Peek(run), off) && Rem(run) == []
  {
    NextPlain(run.inFile);
  }

  lemma PeekMore(run: Run, off: nat)
    requires RunOk(run, off) && !run.valid && run.inFile.pos < |run.inFile.file|
    ensures var file, pos := run.inFile.file, run.inFile.pos;
            && Peek(run) == run.(inFile := Scan(file, NoFilter, pos + 1), rid := file[pos].rid, rec := file[pos].rec,
                                 valid := true)
            && RunOk(Peek(run), off) && Rem(run) == [file[pos].rec] + RecordsOf(file[pos + 1..])
  {
    NextPlain(run.inFile);
    RecsTail(run.inFile.file, run.inFile.pos + 1);
  }

  lemma PeekLaw(run: Run, off: nat)
    requires RunOk(run, off)
    ensures var r := Peek(run);
            && RunOk(r, off) && r.valid && Rem(r) == Rem(run) && Replay(r) == Rem(run) && Marked(r) == Marked(run)
            && (r.rid.pageNo < 0 <==> Rem(run) == [])
            && (r.rid.pageNo >= 0 ==>
                r.rec == Rem(run)[0] && off + 4 <= |r.rec| && Rem(r.(valid := false)) == Rem(run)[1..])
  {
    hide Peek;
    if !run.valid {
      if run.inFile.pos < |run.inFile.file| {
        PeekMore(run, off);
        RecsTail(run.inFile.file, run.inFile.pos + 1);
      } else {
        PeekEnd(run, off);
      }
    } else {
      PeekValid(run);
      if run.rid.pageNo >= 0 {
        RecsTail(run.inFile.file, run.inFile.pos);
      }
    }
  }

  lemma PeekValid(run: Run)
    requires run.valid && run.inFile.Valid()
    ensures Peek(run) == run
  {}

  lemma RunScan(run: Run, off: nat)
    requires RunOk(run, off)
    ensures run.inFile.Valid() && run.inFile.filter == NoFilter && NoEmpty(run.inFile.file)
  {}

  lemma GivenUp(run: Run, off: nat)
    requires RunOk(run, off) && run.valid
    ensures var r := run.(valid := false);
            RunOk(r, off) && Replay(r) == Replay(run) && Marked(r) == Marked(run)
  {}

  function Rems(runs: seq<Run>): seq<seq<Record>> {
    seq(|runs|, i requires 0 <= i < |runs| => Rem(runs[i]))
  }

  function Replays(runs: seq<Run>): seq<seq<Record>> {
    seq(|runs|, i requires 0 <= i < |runs| => Replay(runs[i]))
  }

  function Marks(runs: seq<Run>): seq<seq<Record>> {
    seq(|runs|, i requires 0 <= i < |runs| => Marked(runs[i]))
  }

  ghost predicate AllOk(runs: seq<Run>, off: nat) {
    forall i :: 0 <= i < |runs| ==> RunOk(runs[i], off)
  }

  /** The runs after next() has looked at the first n of them. */
  function Peeked(runs: seq<Run>, n: nat): (r: seq<Run>)
    requires n <= |runs| && forall i :: 0 <= i < |runs| ==> runs[i].inFile.Valid()
    ensures |r| == |runs|
  {
    seq(|runs|, i requires 0 <= i < |runs| => if i < n then Peek(runs[i]) else runs[i])
  }

  lemma PeekedAll(runs: seq<Run>, off: nat)
    requires AllOk(runs, off)
    ensures forall i :: 0 <= i < |runs| ==> runs[i].inFile.Valid()
    ensures var ps := Peeked(runs, |runs|);
            AllOk(ps, off) && Rems(ps) == Rems(runs) && Replays(ps) == Rems(runs) && Marks(ps) == Marks(runs)
  {
    hide Rem, Replay, Marked, Peek;
    assert forall i :: 0 <= i < |runs| ==> RunOk(runs[i], off) && runs[i].inFile.Valid();
    var ps := Peeked(runs, |runs|);
    forall i | 0 <= i < |runs|
      ensures RunOk(ps[i], off) && Rem(ps[i]) == Rem(runs[i]) && Replay(ps[i]) == Rem(runs[i])
      ensures Marked(ps[i]) == Marked(runs[i])
    {
      PeekLaw(runs[i], off);
    }
  }

  /** The chosen run gives up its record. */
  lemma TakeHead(runs: seq<Run>, off: nat, b: nat)
    requires AllOk(runs, off) && b < |runs| && Rem(runs[b]) != []
    ensures forall i :: 0 <= i < |runs| ==> runs[i].inFile.Valid()
    ensures var ps := Peeked(runs, |runs|);
            var qs := ps[b := ps[b].(valid := false)];
            && ps[b].rec == Rem(runs[b])[0] && off + 4 <= |ps[b].rec|
            && AllOk(qs, off) && Rems(qs) == Rems(runs)[b := Rem(runs[b])[1..]]
            && Replays(qs) == Rems(runs) && Marks(qs) == Marks(runs)
  {
    PeekedAll(runs, off);
    PeekLaw(runs[b], off);
    hide Rem, RunOk, Peek, Peeked;
    var ps := Peeked(runs, |runs|);
    TakeHeadParts(runs, off, b, ps);
  }

  lemma UpdateRun(runs: seq<Run>, off: nat, b: nat, r: Run)
    requires AllOk(runs, off) && b < |runs| && RunOk(r, off)
    ensures AllOk(runs[b := r], off)
    ensures Rems(runs[b := r]) == Rems(runs)[b := Rem(r)]
    ensures Replays(runs[b := r]) == Replays(runs)[b := Replay(r)] && Marks(runs[b := r]) == Marks(runs)[b := Marked(r)]
  {
    hide Rem, RunOk, Replay, Marked;
  }

  lemma TakeHeadParts(runs: seq<Run>, off: nat, b: nat, ps: seq<Run>)
    requires b < |runs| == |ps| && AllOk(ps, off) && RunOk(runs[b], off) && ps[b] == Peek(runs[b]) && Rem(runs[b]) != []
    requires Rems(ps) == Rems(runs) && Replays(ps) == Rems(runs) && Marks(ps) == Marks(runs)
    ensures var qs := ps[b := ps[b].(valid := false)];
            && AllOk(qs, off) && Rems(qs) == Rems(runs)[b := Rem(runs[b])[1..]]
            && Replays(qs) == Rems(runs) && Marks(qs) == Marks(runs)
  {
    PeekLaw(runs[b], off);
    hide Peek, Rem, RunOk, Replay, Marked;
    var r := ps[b].(valid := false);
    GivenUp(ps[b], off);
    UpdateRun(ps, off, b, r);
    assert Replays(ps)[b] == Replay(ps[b]) && Marks(ps)[b] == Marked(ps[b]);
  }

  lemma PeekedNone(start: seq<Run>, off: nat)
    requires AllOk(start, off)
    ensures forall i :: 0 <= i < |start| ==> start[i].inFile.Valid()
    ensures Peeked(start, 0) == start && Best(Rems(start), off, 0) == -1 && |Rems(start)| == |start|
  {
    hide Rem;
    assert forall i :: 0 <= i < |start| ==> RunOk(start[i], off) && start[i].inFile.Valid();
  }

  lemma StillOk(start: seq<Run>, off: nat, n: nat)
    requires AllOk(start, off) && n <= |start|
    ensures forall i :: 0 <= i < |start| ==> start[i].inFile.Valid()
    ensures AllOk(Peeked(start, n), off)
  {
    assert forall i :: 0 <= i < |start| ==> RunOk(start[i], off) && start[i].inFile.Valid();
    forall i | 0 <= i < |start| ensures RunOk(Peeked(start, n)[i], off) {
      PeekLaw(start[i], off);
    }
  }

  /** The turn of the loop of next() for run i: the index of the smallest head so far. */
  function Choose(runs: seq<Run>, off: nat, i: nat, smallest: int): int
    requires i < |runs| && smallest < |runs|
  {
    if runs[i].rid.pageNo < 0 then smallest
    else if smallest < 0 || After(Key(runs[smallest].rec, off), Key(runs[i].rec, off)) then i
    else smallest
  }

  lemma ChooseIsBest(start: seq<Run>, off: nat, i: nat)
    requires AllOk(start, off) && i < |start|
    ensures forall k :: 0 <= k < |start| ==> start[k].inFile.Valid()
    ensures Choose(Peeked(start, i + 1), off, i, Best(Rems(start), off, i)) == Best(Rems(start), off, i + 1)
  {
    hide Rem, Peek, RunOk, Replay, Marked, After, Key;
    assert forall k :: 0 <= k < |start| ==> RunOk(start[k], off);
    StillOk(start, off, i + 1);
    PeekLaw(start[i], off);
    var smallest := Best(Rems(start), off, i);
    if smallest >= 0 {
      PeekLaw(start[smallest], off);
    }
  }

  /** setMark on one run. */
  function MarkedHere(run: Run): Run { run.(markedPos := run.inFile.pos, mark := run.rid) }

  lemma MarkedHereLaw(run: Run, off: nat)
    requires RunOk(run, off)
    ensures var r := MarkedHere(run);
            RunOk(r, off) && Rem(r) == Rem(run) && Replay(r) == Replay(run) && Marked(r) == Replay(run)
  {}

  lemma MarksLaw(start: seq<Run>, runs: seq<Run>, off: nat)
    requires AllOk(start, off) && |runs| == |start| && forall j :: 0 <= j < |runs| ==> runs[j] == MarkedHere(start[j])
    ensures AllOk(runs, off) && Rems(runs) == Rems(start) && Replays(runs) == Replays(start)
    ensures Marks(runs) == Replays(start)
  {
    hide RunOk, Rem, Replay, Marked, MarkedHere;
    forall j | 0 <= j < |runs|
      ensures RunOk(runs[j], off) && Rem(runs[j]) == Rem(start[j]) && Replay(runs[j]) == Replay(start[j])
      ensures Marked(runs[j]) == Replay(start[j])
    {
      assert RunOk(start[j], off);
      MarkedHereLaw(start[j], off);
    }
  }

  /** gotoMark on one run. */
  function Restored(run: Run): Run {
    run.(inFile := run.inFile.(pos := run.markedPos), rid := run.mark, valid := true,
         rec := if run.mark.pageNo >= 0
             && 1 <= run.markedPos <= |run.inFile.file| then run.inFile.file[run.markedPos - 1].rec else run.rec)
  }

  lemma RestoredLaw(run: Run, off: nat)
    requires RunOk(run, off)
    ensures var r := Restored(run);
            RunOk(r, off) && Rem(r) == Marked(run) && Replay(r) == Marked(run) && Marked(r) == Marked(run)
  {}

  lemma RestoresLaw(start: seq<Run>, runs: seq<Run>, off: nat)
    requires AllOk(start, off) && |runs| == |start| && forall j :: 0 <= j < |runs| ==> runs[j] == Restored(start[j])
    ensures AllOk(runs, off) && Rems(runs) == Marks(start) && Replays(runs) == Marks(start)
    ensures Marks(runs) == Marks(start)
  {
    hide RunOk, Rem, Replay, Marked, Restored;
    forall j | 0 <= j < |runs|
      ensures RunOk(runs[j], off) && Rem(runs[j]) == Marked(start[j])
      ensures Replay(runs[j]) == Marked(start[j]) && Marked(runs[j]) == Marked(start[j])
    {
      assert RunOk(start[j], off);
      RestoredLaw(start[j], off);
    }
  }

  class SortedFile {
    const offset: nat
    var runs: seq<Run>

    ghost predicate Valid()
      reads this
    {
      AllOk(runs, offset)
    }

    /** What next() returns from here on. */
    ghost function Output(): seq<Record>
      reads this
    {
      MergeOut(Rems(runs), offset)
    }

    /** What next() would return if the record returned last were given back. */
    ghost function Rewound(): seq<Record>
      reads this
    {
      MergeOut(Replays(runs), offset)
    }

    /** What next() returns after gotoMark. */
    ghost function MarkedOutput(): seq<Record>
      reads this
    {
      MergeOut(Marks(runs), offset)
    }

    constructor (offset: nat, runs: seq<Run>)
      requires AllOk(runs, offset)
      ensures Valid() && this.offset == offset && this.runs == runs
    {
      this.offset, this.runs := offset, runs;
    }

    /** Get the next record of run i into memory. */
    method ReadAhead(i: nat)
      requires Valid() && i < |runs|
      modifies this
      ensures runs == old(runs)[i := Peek(old(runs)[i])]
      ensures RunOk(runs[i], offset)
    {
      var run := runs[i];
      PeekLaw(run, offset);
      RunScan(run, offset);
      hide RunOk, Rem, Replay, Marked, Skip, NextStatus, NextRest, NoEmpty;
      if !run.valid {
        var (inFile, status) := run.inFile.Next();
        if status == FILEEOF {
          run := run.(inFile := inFile, rid := run.rid.(pageNo := -1));
        } else {
          NextPlain(run.inFile);
          run := run.(inFile := inFile, rid := inFile.Current().rid, rec := inFile.Current().rec);
        }
        run := run.(valid := true);
      }
      runs := runs[i := run];
    }

    /** The turn of the loop for run i. */
    method Consider(ghost start: seq<Run>, i: nat, smallest: int) returns (next: int)
      requires AllOk(start, offset) && i < |start| && forall k :: 0 <= k < |start| ==> start[k].inFile.Valid()
      requires runs == Peeked(start, i) && smallest == Best(Rems(start), offset, i)
      modifies this
      ensures runs == Peeked(start, i + 1) && next == Best(Rems(start), offset, i + 1)
    {
      hide Rem, Peek, RunOk, Replay, Marked, After, Key;
      ChooseIsBest(start, offset, i);
      StillOk(start, offset, i);
      ReadAhead(i);
      assert runs == Peeked(start, i + 1);
      next := smallest;
      if runs[i].rid.pageNo >= 0 {
        if smallest < 0 {
          next := i;
        } else if After(Key(runs[smallest].rec, offset), Key(runs[i].rec, offset)) {
          next := i;
        }
      }
    }

    /** Look at the head of every run; the result is the run with the smallest one, or -1. */
    method FindSmallest() returns (smallest: int)
      requires Valid()
      modifies this
      ensures forall i :: 0 <= i < |old(runs)| ==> old(runs)[i].inFile.Valid()
      ensures runs == Peeked(old(runs), |old(runs)|)
      ensures smallest == Best(Rems(old(runs)), offset, |old(runs)|)
    {
      hide Peeked, Best, Rems, AllOk;
      ghost var start := runs;
      PeekedNone(start, offset);
      smallest := -1;
      var i := 0;
      while i < |runs|
        invariant 0 <= i <= |runs| == |start| && AllOk(start, offset)
        invariant runs == Peeked(start, i)
        invariant smallest == Best(Rems(start), offset, i)
      {
        smallest := Consider(start, i, smallest);
        i := i + 1;
      }
    }

    /** Return the smallest record at the head of a run and move that run on. */
    method Next() returns (status: Status, rec: Record)
      requires Valid()
      modifies this
      ensures Valid()
      ensures status == if old(Output()) == [] then FILEEOF else OK
      ensures Output() == if status == OK then old(Output())[1..] else []
      ensures status == OK ==> rec == old(Output())[0] && offset + 4 <= |rec|
      ensures Rewound() == old(Output()) && MarkedOutput() == old(MarkedOutput())
    {
      hide Rem, RunOk, Peek, Replay, Marked;
      rec := [];
      ghost var start := runs;
      PeekedAll(start, offset);
      var smallest := FindSmallest();
      if smallest < 0 { return FILEEOF, rec; }
      TakeHead(start, offset, smallest);
      rec := runs[smallest].rec;
      runs := runs[smallest := runs[smallest].(valid := false)];
      status := OK;
    }

    /** Remember the position in every run. */
    method SetMark()
      requires Valid()
      modifies this
      ensures Valid() && Output() == old(Output()) && Rewound() == old(Rewound())
      ensures MarkedOutput() == old(Rewound())
    {
      ghost var start := runs;
      var i := 0;
      while i < |runs|
        invariant 0 <= i <= |runs| == |start|
        invariant forall j :: 0 <= j < i ==> runs[j] == MarkedHere(start[j])
        invariant forall j :: i <= j < |runs| ==> runs[j] == start[j]
      {
        var run := runs[i];
        runs := runs[i := MarkedHere(run)];
        i := i + 1;
      }
      MarksLaw(start, runs, offset);
    }

    /** Go back to the remembered position in every run, with its record in memory. */
    method GotoMark()
      requires Valid()
      modifies this
      ensures Valid() && Output() == old(MarkedOutput()) == MarkedOutput()
      ensures Rewound() == MarkedOutput()
    {
      hide RunOk, Rem, Replay, Marked, Restored;
      ghost var start := runs;
      var i := 0;
      while i < |runs|
        invariant 0 <= i <= |runs| == |start|
        invariant forall j :: 0 <= j < i ==> runs[j] == Restored(start[j])
        invariant forall j :: i <= j < |runs| ==> runs[j] == start[j]
      {
        RestoreRun(i);
        i := i + 1;
      }
      RestoresLaw(start, runs, offset);
    }

    method RestoreRun(i: nat)
      requires i < |runs| && RunOk(runs[i], offset)
      modifies this
      ensures runs == old(runs)[i := Restored(old(runs)[i])]
    {
      var run := runs[i];
      run := run.(inFile := run.inFile.(pos := run.markedPos));
      run := run.(rid := run.mark);
      if run.rid.pageNo >= 0 {
        run := run.(rec := run.inFile.Current().rec);
      }
      runs := runs[i := run.(valid := true)];
    }
  }

  // ----- making the runs -----

  datatype SortRec = SortRec(rid: RID, field: int)

  /** HeapFile::getRecord on the source file. */
  function Lookup(es: seq<Entry>, rid: RID): Record {
    if es == [] then [] else if es[0].rid == rid then es[0].rec else Lookup(es[1..], rid)
  }

  lemma {:induction false} LookupHit(es: seq<Entry>, i: nat)
    requires DistinctRids(es) && i < |es|
    ensures Lookup(es, es[i].rid) == es[i].rec
  {
    if i > 0 {
      assert es[0].rid != es[i].rid;
      assert forall j :: 0 <= j < |es[1..]| ==> es[1..][j] == es[j + 1];
      LookupHit(es[1..], i - 1);
    }
  }

  function Fetch(source: seq<Entry>, buffer: seq<SortRec>): seq<Record> {
    seq(|buffer|, i requires 0 <= i < |buffer| => Lookup(source, buffer[i].rid))
  }

  /** The sort records of entries. */
  function SortRecs(es: seq<Entry>, off: nat): seq<SortRec> {
    seq(|es|, i requires 0 <= i < |es| => SortRec(es[i].rid, Key(es[i].rec, off)))
  }

  lemma {:induction false} FetchPerm(source: seq<Entry>, a: seq<SortRec>, b: seq<SortRec>)
    requires multiset(a) == multiset(b)
    ensures multiset(Fetch(source, a)) == multiset(Fetch(source, b))
    decreases |a|
  {
    if a == [] {
      assert |multiset(b)| == 0;
      assert b == [];
    } else {
      var i := TakeOut(a, b);
      FetchPerm(source, a[1..], b[..i] + b[i + 1..]);
      assert a == [a[0]] + a[1..];
      FetchSplit(source, [a[0]], a[1..]);
      FetchSplit(source, b[..i], b[i + 1..]);
      FetchSplit(source, b[..i], [b[i]] + b[i + 1..]);
      FetchSplit(source, [b[i]], b[i + 1..]);
    }
  }

  lemma FetchSplit(source: seq<Entry>, a: seq<SortRec>, b: seq<SortRec>)
    ensures Fetch(source, a + b) == Fetch(source, a) + Fetch(source, b)
  {}

  lemma FetchChunk(source: seq<Entry>, a: nat, b: nat, off: nat)
    requires DistinctRids(source) && a <= b <= |source|
    ensures Fetch(source, SortRecs(source[a..b], off)) == RecordsOf(source[a..b])
  {
    forall i | 0 <= i < b - a ensures Lookup(source, source[a..b][i].rid) == source[a..b][i].rec {
      LookupHit(source, a + i);
    }
  }

  // ----- qsort -----

  ghost predicate FieldsFit(s: seq<SortRec>) {
    forall x, y :: x in s && y in s ==> IsInt32(x.field) && IsInt32(y.field) && IsInt32(x.field - y.field)
  }

  ghost predicate SortedFields(s: seq<SortRec>) {
    forall i, j :: 0 <= i < j < |s| ==> s[i].field <= s[j].field
  }

  function Insort(x: SortRec, s: seq<SortRec>): (r: seq<SortRec>)
    ensures multiset(r) == multiset([x] + s)
  {
    if s == [] || !After(x.field, s[0].field) then [x] + s
    else
      assert s == [s[0]] + s[1..];
      [s[0]] + Insort(x, s[1..])
  }

  function InsertionSort(s: seq<SortRec>): (r: seq<SortRec>)
    ensures multiset(r) == multiset(s)
  {
    if s == [] then []
    else
      assert s == [s[0]] + s[1..];
      Insort(s[0], InsertionSort(s[1..]))
  }

  lemma SortedFieldsCons(x: SortRec, s: seq<SortRec>)
    requires SortedFields(s) && forall y :: y in multiset(s) ==> x.field <= y.field
    ensures SortedFields([x] + s)
  {
    var t := [x] + s;
    forall i, j | 0 <= i < j < |t| ensures t[i].field <= t[j].field {
      assert t[j] == s[j - 1] && s[j - 1] in multiset(s);
    }
  }

  lemma SortedFieldsTail(s: seq<SortRec>, y: SortRec)
    requires SortedFields(s) && s != [] && y in multiset(s)
    ensures SortedFields(s[1..]) && s[0].field <= y.field
  {
    var j :| 0 <= j < |s| && s[j] == y;
    forall i, k | 0 <= i < k < |s[1..]| ensures s[1..][i].field <= s[1..][k].field {
      assert s[1..][i] == s[i + 1] && s[1..][k] == s[k + 1];
    }
  }

  lemma {:induction false} InsortSorted(x: SortRec, s: seq<SortRec>)
    requires SortedFields(s) && FieldsFit([x] + s)
    ensures SortedFields(Insort(x, s))
  {
    hide SortedFields;
    if s == [] {
      SortedFieldsCons(x, s);
    } else {
      assert x in [x] + s && s[0] in [x] + s;
      AfterIsGreater(x.field, s[0].field);
      SortedFieldsTail(s, s[0]);
      if After(x.field, s[0].field) {
        assert forall y :: y in [x] + s[1..] ==> y in [x] + s;
        InsortSorted(x, s[1..]);
        var t := Insort(x, s[1..]);
        forall y: SortRec | y in multiset(t) ensures s[0].field <= y.field {
          assert y in multiset([x] + s[1..]);
          if y != x {
            SortedFieldsTail(s, y);
          }
        }
        SortedFieldsCons(s[0], t);
      } else {
        forall y: SortRec | y in multiset(s) ensures x.field <= y.field {
          SortedFieldsTail(s, y);
        }
        SortedFieldsCons(x, s);
      }
    }
  }

  lemma {:induction false} InsertionSortSorted(s: seq<SortRec>)
    requires FieldsFit(s)
    ensures SortedFields(InsertionSort(s))
  {
    if s != [] {
      assert forall y :: y in s[1..] ==> y in s;
      InsertionSortSorted(s[1..]);
      var t := InsertionSort(s[1..]);
      forall y | y in [s[0]] + t ensures y in s {
        if y in t { assert y in multiset(t); }
      }
      InsortSorted(s[0], t);
    }
  }

  /** Stands for the library's qsort: callers know that the result is a permutation, and sorted if the
      comparison is consistent. */
  method QSort(buffer: seq<SortRec>) returns (sorted: seq<SortRec>)
    ensures multiset(sorted) == multiset(buffer)
    ensures FieldsFit(buffer) ==> SortedFields(sorted)
  {
    sorted := InsertionSort(buffer);
    if FieldsFit(buffer) {
      InsertionSortSorted(buffer);
    }
  }

  // ----- sortFile -----

  /** A source file: distinct record ids on real pages, and records that hold the attribute. */
  ghost predicate SourceOk(source: seq<Entry>, off: nat) {
    && DistinctRids(source)
    && forall i :: 0 <= i < |source| ==> 1 <= source[i].rid.pageNo && off + 4 <= |source[i].rec|
  }

  lemma SourceHasNoEmpty(es: seq<Entry>, off: nat)
    requires SourceOk(es, off)
    ensures NoEmpty(es)
  {}

  /** The file of a run: the records of some entries of the source, sorted if they can be. */
  ghost predicate RunFile(file: seq<Entry>, chunk: seq<Entry>, off: nat) {
    && multiset(RecordsOf(file)) == multiset(RecordsOf(chunk)) && |file| == |chunk|
    && (forall i :: 0 <= i < |file| ==> 1 <= file[i].rid.pageNo && off + 4 <= |file[i].rec|)
    && (KeysFit(RecordsOf(chunk), off) ==> Sorted(RecordsOf(file), off))
  }

  /** What qsort's result says about the records it stands for. */
  lemma SortedChunk(source: seq<Entry>, a: nat, b: nat, off: nat, sorted: seq<SortRec>)
    requires SourceOk(source, off) && a <= b <= |source|
    requires multiset(sorted) == multiset(SortRecs(source[a..b], off))
    requires FieldsFit(SortRecs(source[a..b], off)) ==> SortedFields(sorted)
    ensures multiset(Fetch(source, sorted)) == multiset(RecordsOf(source[a..b])) && |sorted| == b - a
    ensures forall i :: 0 <= i < |sorted| ==> off + 4 <= |Fetch(source, sorted)[i]|
    ensures KeysFit(RecordsOf(source[a..b]), off) ==> Sorted(Fetch(source, sorted), off)
  {
    var buffer := SortRecs(source[a..b], off);
    FetchChunk(source, a, b, off);
    FetchPerm(source, sorted, buffer);
    assert |multiset(sorted)| == |multiset(buffer)|;
    forall i | 0 <= i < |sorted|
      ensures off + 4 <= |Fetch(source, sorted)[i]| && Key(Fetch(source, sorted)[i], off) == sorted[i].field
    {
      FieldOf(source, a, b, off, sorted[i]) by { assert sorted[i] in multiset(sorted); }
    }
    if KeysFit(RecordsOf(source[a..b]), off) {
      ChunkFits(source[a..b], off);
    }
  }

  lemma FieldOf(source: seq<Entry>, a: nat, b: nat, off: nat, x: SortRec)
    requires SourceOk(source, off) && a <= b <= |source| && x in multiset(SortRecs(source[a..b], off))
    ensures off + 4 <= |Lookup(source, x.rid)| && Key(Lookup(source, x.rid), off) == x.field
  {
    var buffer := SortRecs(source[a..b], off);
    var j :| 0 <= j < |buffer| && buffer[j] == x;
    LookupHit(source, a + j);
  }

  lemma ChunkFits(chunk: seq<Entry>, off: nat)
    requires KeysFit(RecordsOf(chunk), off)
    ensures FieldsFit(SortRecs(chunk, off))
  {
    var s := SortRecs(chunk, off);
    forall x, y | x in s && y in s
      ensures IsInt32(x.field) && IsInt32(y.field) && IsInt32(x.field - y.field)
    {
      var i :| 0 <= i < |s| && s[i] == x;
      var j :| 0 <= j < |s| && s[j] == y;
      assert RecordsOf(chunk)[i] in RecordsOf(chunk) && RecordsOf(chunk)[j] in RecordsOf(chunk);
    }
  }

  /** Sort the buffer, fetch the whole records and write them to the file of a new run. By the time the file is
      opened it has been created and destroyed again; creates tells whether opening a missing file creates it. */
  method GenerateRun(source: seq<Entry>, off: nat, ghost a: nat, ghost b: nat, buffer: seq<SortRec>, creates: bool)
    returns (status: Status, file: seq<Entry>)
    requires SourceOk(source, off) && a <= b <= |source| && buffer == SortRecs(source[a..b], off)
    ensures status == if creates then OK else UNIXERR
    ensures status == OK ==> RunFile(file, source[a..b], off)
  {
    var sorted := QSort(buffer);
    file := [];
    if !creates { return UNIXERR, file; }
    SortedChunk(source, a, b, off, sorted);
    hide KeysFit, Sorted, SourceOk, SortedFields, FieldsFit, Lookup;
    var i := 0;
    while i < |sorted|
      invariant 0 <= i <= |sorted| && |file| == i
      invariant forall j :: 0 <= j < i ==> file[j].rec == Fetch(source, sorted)[j] && 1 <= file[j].rid.pageNo
    {
      var record := Lookup(source, sorted[i].rid);
      var rid: RID :| 1 <= rid.pageNo;  // wherever the record lands in the file of the run
      file := file + [Entry(rid, record)];
      i := i + 1;
    }
    assert RecordsOf(file) == Fetch(source, sorted);
    status := OK;
  }

  function FileRecs(files: seq<seq<Entry>>): seq<seq<Record>> {
    seq(|files|, i requires 0 <= i < |files| => RecordsOf(files[i]))
  }

  lemma {:induction false} BagAppend(rems: seq<seq<Record>>, r: seq<Record>)
    ensures Bag(rems + [r]) == Bag(rems) + multiset(r)
  {
    if rems == [] {
      assert rems + [r] == [r];
      assert [r][1..] == [];
    } else {
      assert (rems + [r])[1..] == rems[1..] + [r];
      BagAppend(rems[1..], r);
    }
  }

  /** The files written so far hold the first pos records of the source. */
  ghost predicate Split(source: seq<Entry>, pos: nat, files: seq<seq<Entry>>, off: nat, maxItems: int) {
    && pos <= |source|
    && Bag(FileRecs(files)) == multiset(RecordsOf(source[..pos]))
    && (forall k :: 0 <= k < |files| ==> FileOk(files[k], off) && |files[k]| <= maxItems)
    && (KeysFit(RecordsOf(source), off) ==> forall k :: 0 <= k < |files| ==> Sorted(RecordsOf(files[k]), off))
  }

  ghost predicate FileOk(file: seq<Entry>, off: nat) {
    forall i :: 0 <= i < |file| ==> 1 <= file[i].rid.pageNo && off + 4 <= |file[i].rec|
  }

  lemma ChunkKeysFit(source: seq<Entry>, a: nat, b: nat, off: nat)
    requires a <= b <= |source| && KeysFit(RecordsOf(source), off)
    ensures KeysFit(RecordsOf(source[a..b]), off)
  {
    forall r | r in RecordsOf(source[a..b]) ensures r in RecordsOf(source) {
      var i :| 0 <= i < b - a && RecordsOf(source[a..b])[i] == r;
      assert RecordsOf(source)[a + i] == r;
    }
  }

  lemma SplitStep(source: seq<Entry>, a: nat, b: nat, files: seq<seq<Entry>>, off: nat, maxItems: int, file: seq<Entry>)
    requires Split(source, a, files, off, maxItems) && a <= b <= |source| && b - a <= maxItems
    requires RunFile(file, source[a..b], off)
    ensures Split(source, b, files + [file], off, maxItems)
  {
    hide Bag, Key, Sorted;
    BagAppend(FileRecs(files), RecordsOf(file));
    assert FileRecs(files + [file]) == FileRecs(files) + [RecordsOf(file)];
    assert source[..b] == source[..a] + source[a..b];
    assert RecordsOf(source[..b]) == RecordsOf(source[..a]) + RecordsOf(source[a..b]);
    if KeysFit(RecordsOf(source), off) {
      ChunkKeysFit(source, a, b, off);
    }
  }

  /** Read up to maxItems records into the buffer. */
  method FillBuffer(scan: Scan, off: nat, maxItems: int) returns (next: Scan, buffer: seq<SortRec>)
    requires scan.Valid() && scan.filter == NoFilter && SourceOk(scan.file, off) && maxItems >= 2
    ensures next.Valid() && next.filter == NoFilter && next.file == scan.file
    ensures next.pos == if scan.pos + maxItems <= |scan.file| then scan.pos + maxItems else |scan.file|
    ensures buffer == SortRecs(scan.file[scan.pos..next.pos], off)
  {
    SourceHasNoEmpty(scan.file, off);
    hide SourceOk, Key, NoEmpty, Skip, NextStatus, NextRest;
    next, buffer := scan, [];
    ghost var file, start := scan.file, scan.pos;
    while |buffer| < maxItems
      invariant next.Valid() && next.filter == NoFilter && next.file == file && start <= next.pos
      invariant |buffer| == next.pos - start <= maxItems
      invariant buffer == SortRecs(file[start..next.pos], off)
    {
      NextPlain(next);
      var (s, status) := next.Next();
      if status == FILEEOF { break; }
      next := s;
      var rec := next.Current().rec;
      buffer := buffer + [SortRec(next.Current().rid, Key(rec, off))];
      assert file[start..next.pos] == file[start..next.pos - 1] + [file[next.pos - 1]];
    }
  }

  /** sortFile: split the source into sorted runs of at most maxItems records. Reading past the end again
      yields end of file again, which is what ends the loop. */
  method SortFile(source: seq<Entry>, off: nat, maxItems: int, creates: bool)
    returns (status: Status, files: seq<seq<Entry>>)
    requires SourceOk(source, off) && maxItems >= 2
    ensures status == if source == [] || creates then OK else UNIXERR
    ensures status == OK ==> Split(source, |source|, files, off, maxItems)
  {
    hide SourceOk, KeysFit, Sorted, Split;
    var hfs := Open(source, NoFilter);
    files := [];
    var numItems := 1;
    SplitStart(source, off, maxItems);
    while numItems > 0
      invariant hfs.Valid() && hfs.file == source && hfs.filter == NoFilter
      invariant Split(source, hfs.pos, files, off, maxItems)
      invariant numItems <= 0 ==> hfs.pos == |source|
      invariant hfs.pos > 0 ==> creates
      decreases |source| - hfs.pos, numItems > 0
    {
      ghost var a := hfs.pos;
      var buffer;
      hfs, buffer := FillBuffer(hfs, off, maxItems);
      numItems := |buffer|;
      if numItems > 0 {
        var file;
        status, file := GenerateRun(source, off, a, hfs.pos, buffer, creates);
        if status != OK { return; }
        SplitStep(source, a, hfs.pos, files, off, maxItems, file);
        files := files + [file];
      }
    }
    status := OK;
  }

  lemma SplitStart(source: seq<Entry>, off: nat, maxItems: int)
    ensures Split(source, 0, [], off, maxItems)
  {}

  /** startScans: a scan of each run, with no record fetched yet. */
  method StartScans(files: seq<seq<Entry>>, off: nat) returns (runs: seq<Run>)
    requires forall k :: 0 <= k < |files| ==> FileOk(files[k], off)
    ensures AllOk(runs, off) && Rems(runs) == FileRecs(files)
    ensures forall k :: 0 <= k < |runs| ==> Replay(runs[k]) == []
  {
    runs := [];
    var k := 0;
    while k < |files|
      invariant 0 <= k <= |files| && |runs| == k
      invariant forall j :: 0 <= j < k ==>
        runs[j] == Run(Open(files[j], NoFilter), false, [], RID(-1, -1), 0, RID(-1, -1))
    {
      runs := runs + [Run(Open(files[k], NoFilter), false, [], RID(-1, -1), 0, RID(-1, -1))];
      k := k + 1;
    }
    assert Rems(runs) == FileRecs(files);
  }

  lemma {:induction false} ReplaysEmpty(rems: seq<seq<Record>>, off: nat)
    requires forall k :: 0 <= k < |rems| ==> rems[k] == []
    ensures MergeOut(rems, off) == []
  {}

  lemma SplitIsSorted(source: seq<Entry>, files: seq<seq<Entry>>, off: nat, maxItems: int)
    requires Split(source, |source|, files, off, maxItems)
    ensures multiset(MergeOut(FileRecs(files), off)) == multiset(RecordsOf(source))
    ensures KeysFit(RecordsOf(source), off) ==> Sorted(MergeOut(FileRecs(files), off), off)
  {
    assert source[..|source|] == source;
    MergeIsPermutation(FileRecs(files), off);
    if KeysFit(RecordsOf(source), off) {
      forall r | r in Bag(FileRecs(files)) ensures r in RecordsOf(source) {
        assert r in multiset(RecordsOf(source));
      }
      MergeIsSorted(FileRecs(files), off);
    }
  }

  /** The constructor of SortedFile. next() will return every record of the source exactly once, in
      nondecreasing order if the keys can be compared. */
  method OpenSorted(source: seq<Entry>, offset: int, len: int, maxItems: int, creates: bool)
    returns (status: Status, sf: SortedFile?)
    requires offset >= 0 ==> SourceOk(source, offset)
    ensures status == if offset < 0 || len != 4 then BADSORTPARM else if maxItems < 2 then INSUFMEM
                      else if source == [] || creates then OK else UNIXERR
    ensures status == OK ==> sf != null && fresh(sf) && sf.Valid() && sf.offset == offset
    ensures status == OK ==> Delivered(sf.Output(), RecordsOf(source), offset) && sf.Rewound() == []
  {
    sf := null;
    if offset < 0 || len != 4 { return BADSORTPARM, sf; }
    if maxItems < 2 { return INSUFMEM, sf; }
    var files;
    status, files := SortFile(source, offset, maxItems, creates);
    if status != OK { return; }
    SplitIsSorted(source, files, offset, maxItems);
    var runs := StartScans(files, offset);
    ReplaysEmpty(Replays(runs), offset);
    sf := new SortedFile(offset, runs);
  }
}
