/** The sort-merge join (join.C) over two sorted files. */
module SortMerge {
  import opened Bytes
  import opened Statuses
  import opened ScanSpec
  import opened Sorting
  import opened JoinSpecs
  import opened JoinResults

  /** Go forward to the first inner record that is not below the outer one. */
  function Seek(j: Join, o: Record, inner: seq<Record>): (r: seq<Record>)
    ensures |r| <= |inner| && r == inner[|inner| - |r|..]
  {
    if inner == [] || !After(Key(o, j.off1), Key(inner[0], j.off2)) then inner else Seek(j, o, inner[1..])
  }

  /** The mark is at the first inner record that the outer one is not after, or at the end. */
  lemma {:induction false} SeekLaw(j: Join, o: Record, inner: seq<Record>)
    ensures var r := Seek(j, o, inner);
            && (r != [] ==> !After(Key(o, j.off1), Key(r[0], j.off2)))
            && forall k :: 0 <= k < |inner| - |r| ==> After(Key(o, j.off1), Key(inner[k], j.off2))
  {
    if Seek(j, o, inner) != inner {
      SeekLaw(j, o, inner[1..]);
      assert forall k :: 0 < k < |inner| ==> inner[k] == inner[1..][k - 1];
    }
  }

  /** The tuples of the group of equal inner records. */
  function Group(j: Join, o: Record, inner: seq<Record>): seq<Record> {
    if inner == [] || Diff32(Key(o, j.off1), Key(inner[0], j.off2)) != 0 then []
    else [Project(j.rel1, j.projs, o, inner[0])] + Group(j, o, inner[1..])
  }

  /** What the merge emits from two sequences in whatever order: every outer record starts at the mark that its
      predecessor left. */
  function SmOut(j: Join, outer: seq<Record>, inner: seq<Record>): seq<Record> {
    if outer == [] then []
    else
      var marked := Seek(j, outer[0], inner);
      Group(j, outer[0], marked) + SmOut(j, outer[1..], marked)
  }

  lemma CompareKeys(j: Join, o: Record, i: Record)
    ensures Diff32(Key(o, j.off1), Key(i, j.off2)) == 0 <==> Key(o, j.off1) == Key(i, j.off2)
    ensures IsInt32(Key(o, j.off1) - Key(i, j.off2)) ==>
      (After(Key(o, j.off1), Key(i, j.off2)) <==> Key(o, j.off1) > Key(i, j.off2))
  {
    KeyIsInt32(o, j.off1);
    KeyIsInt32(i, j.off2);
    Diff32Exact(Key(o, j.off1), Key(i, j.off2));
  }

  /** Inner records that equal no outer record contribute nothing. */
  lemma {:induction false} NothingJoins(j: Join, outer: seq<Record>, inner: seq<Record>)
    requires j.op == EQ && forall o, i :: o in outer && i in inner ==> Key(o, j.off1) != Key(i, j.off2)
    ensures JoinOut(j, outer, inner) == []
  {
    if outer != [] {
      assert outer[0] in outer;
      NoneJoins(j, outer[0], inner);
      assert forall o :: o in outer[1..] ==> o in outer;
      NothingJoins(j, outer[1..], inner);
    }
  }

  lemma {:induction false} NoneJoins(j: Join, o: Record, inner: seq<Record>)
    requires forall i :: i in inner ==> !Joins(j, o, i)
    ensures InnerOut(j, o, inner) == []
  {
    if inner != [] {
      assert inner[0] in inner;
      assert forall i :: i in inner[1..] ==> i in inner;
      NoneJoins(j, o, inner[1..]);
    }
  }

  /** A record that the mark has not passed is not above any equal one behind it: if b equals o, the comparison of o
      with a is the comparison of b with a, two records of one relation. */
  lemma NotAfterEqual(j: Join, o: Record, a: Record, b: Record)
    requires Key(o, j.off1) == Key(b, j.off2) && Key(a, j.off2) <= Key(b, j.off2)
    requires IsInt32(Key(b, j.off2) - Key(a, j.off2)) && !After(Key(o, j.off1), Key(a, j.off2))
    ensures Key(o, j.off1) == Key(a, j.off2)
  {
    CompareKeys(j, o, a);
  }

  /** On a sorted inner that starts where the mark is, the group is all that joins. */
  lemma {:induction false} GroupIsInnerOut(j: Join, o: Record, inner: seq<Record>)
    requires j.op == EQ && Sorted(inner, j.off2) && KeysFit(inner, j.off2)
    requires inner != [] ==> !After(Key(o, j.off1), Key(inner[0], j.off2))
    ensures Group(j, o, inner) == InnerOut(j, o, inner)
  {
    if inner != [] {
      CompareKeys(j, o, inner[0]);
      if Joins(j, o, inner[0]) {
        SortedTail(inner, j.off2);
        KeysFitPart(inner, j.off2, 1);
        if |inner| > 1 {
          assert inner[0] in inner && inner[1] in inner;
          CompareKeys(j, o, inner[1]);
        }
        GroupIsInnerOut(j, o, inner[1..]);
      } else {
        forall i | i in inner ensures !Joins(j, o, i) {
          assert inner[0] in inner && Key(inner[0], j.off2) <= Key(i, j.off2);
          if Joins(j, o, i) {
            NotAfterEqual(j, o, inner[0], i);
          }
        }
        NoneJoins(j, o, inner);
      }
    }
  }

  lemma KeysFitPart(s: seq<Record>, off: nat, n: nat)
    requires KeysFit(s, off) && n <= |s|
    ensures KeysFit(s[n..], off)
  {
    assert forall r :: r in s[n..] ==> r in s;
  }

  /** What lies before the mark equals neither this outer record nor any later one: an equal pair would make the
      comparison that passed it one between two outer records. */
  lemma SkippedJoinsNone(j: Join, outer: seq<Record>, inner: seq<Record>)
    requires outer != [] && Sorted(outer, j.off1) && KeysFit(outer, j.off1)
    ensures var marked := Seek(j, outer[0], inner);
            && (marked != [] ==> !After(Key(outer[0], j.off1), Key(marked[0], j.off2)))
            && forall o, i :: o in outer && i in inner[..|inner| - |marked|] ==> Key(o, j.off1) != Key(i, j.off2)
  {
    SeekLaw(j, outer[0], inner);
    var marked := Seek(j, outer[0], inner);
    hide Key;
    forall o, i | o in outer && i in inner[..|inner| - |marked|] ensures Key(o, j.off1) != Key(i, j.off2) {
      assert outer[0] in outer && Key(outer[0], j.off1) <= Key(o, j.off1);
      CompareKeys(j, outer[0], i);
    }
  }

  lemma SortedSuffix(s: seq<Record>, off: nat, n: nat)
    requires Sorted(s, off) && n <= |s|
    ensures Sorted(s[n..], off)
  {
    forall a, b | 0 <= a < b < |s[n..]| ensures Key(s[n..][a], off) <= Key(s[n..][b], off) {
      assert s[n..][a] == s[n + a] && s[n..][b] == s[n + b];
    }
  }

  /** On sorted inputs whose keys can be compared within each relation the merge computes the equality join, whatever
      the differences across the two: the mark never passes a record that a later outer record needs. */
  lemma {:induction false} SmIsJoin(j: Join, outer: seq<Record>, inner: seq<Record>)
    requires j.op == EQ && Sorted(outer, j.off1) && Sorted(inner, j.off2)
    requires KeysFit(outer, j.off1) && KeysFit(inner, j.off2)
    ensures multiset(SmOut(j, outer, inner)) == multiset(JoinOut(j, outer, inner))
    decreases |outer|
  {
    hide Sorted, KeysFit, Key, Joins, After, Seek, Group, InnerOut;
    if outer != [] {
      var marked := Seek(j, outer[0], inner);
      var skipped := inner[..|inner| - |marked|];
      SkippedJoinsNone(j, outer, inner);
      SortedSuffix(inner, j.off2, |skipped|);
      KeysFitPart(inner, j.off2, |skipped|);
      GroupIsInnerOut(j, outer[0], marked);
      SortedTail(outer, j.off1);
      KeysFitPart(outer, j.off1, 1);
      SmIsJoin(j, outer[1..], marked);
      assert inner == skipped + marked;
      NothingJoins(j, outer, skipped);
      SkippedLeavesJoin(j, outer, skipped, marked);
    }
  }

  lemma SkippedLeavesJoin(j: Join, outer: seq<Record>, skipped: seq<Record>, marked: seq<Record>)
    requires JoinOut(j, outer, skipped) == []
    ensures multiset(JoinOut(j, outer, skipped + marked)) == multiset(JoinOut(j, outer, marked))
  {
    JoinOutInnerSplit(j, outer, skipped, marked);
  }

  /** Advance the inner file to the first record not below o, and mark it. */
  method SeekInner(j: Join, o: Record, sorted2: SortedFile) returns (endOfInner: bool, innerRec: Record)
    requires sorted2.Valid() && sorted2.offset == j.off2
    modifies sorted2
    ensures sorted2.Valid()
    ensures var marked := Seek(j, o, old(sorted2.Output()));
            && sorted2.Rewound() == sorted2.MarkedOutput() == marked && endOfInner == (marked == [])
            && (!endOfInner ==> innerRec == marked[0]) && sorted2.Output() == if endOfInner then [] else marked[1..]
  {
    hide MergeOut, Rems, Replays, Marks, AllOk, Key;
    endOfInner := false;
    innerRec := [];
    var done := false;
    ghost var marked := Seek(j, o, sorted2.Output());
    while !done
      invariant sorted2.Valid()
      invariant !done ==> Seek(j, o, sorted2.Output()) == marked && !endOfInner
      invariant done ==>
        && marked != []
        && sorted2.Rewound() == marked
        && innerRec == marked[0]
        && sorted2.Output() == marked[1..]
        && !endOfInner
      decreases !done, |sorted2.Output()|
    {
      var status;
      status, innerRec := sorted2.Next();
      if status != OK {
        endOfInner := true;
        break;
      }
      if !After(Key(o, j.off1), Key(innerRec, j.off2)) {
        done := true;
      }
    }
    sorted2.SetMark();
  }

  /** Emit the tuples of the equal inner records. */
  method EmitGroup(j: Join, o: Record, sorted2: SortedFile, endOfInner: bool, innerRec: Record,
                   outputData: array<byte>, result: ResultRel,
                   ghost marked: seq<Record>, ghost before: seq<Record>, ghost rest: seq<Record>,
                   ghost out: seq<Record>)
    returns (status: Status)
    requires sorted2.Valid() && sorted2.offset == j.off2 && outputData.Length == RecLen(j.projs)
    requires forall i :: i in marked ==> Covers(j.rel1, j.projs, o, i)
    requires endOfInner == (marked == []) && (!endOfInner ==> innerRec == marked[0] && sorted2.Output() == marked[1..])
    requires Progress(j.projs, before, result.recs, Group(j, o, marked) + rest, out)
    modifies outputData, result, sorted2
    ensures sorted2.Valid() && sorted2.MarkedOutput() == old(sorted2.MarkedOutput())
    ensures status == OK ==> Progress(j.projs, before, result.recs, rest, out)
    ensures status != OK ==> Appended(j.projs, before, status, result.recs, out)
  {
    hide Covers, Progress, Appended, Project, MergeOut, Rems, Replays, Marks, AllOk, Key;
    var atEnd, rec := endOfInner, innerRec;
    ghost var left := marked;
    while !atEnd && Diff32(Key(o, j.off1), Key(rec, j.off2)) == 0
      invariant sorted2.Valid() && sorted2.MarkedOutput() == old(sorted2.MarkedOutput())
      invariant atEnd == (left == []) && (!atEnd ==> rec == left[0] && sorted2.Output() == left[1..])
      invariant forall i :: i in left ==> Covers(j.rel1, j.projs, o, i)
      invariant Progress(j.projs, before, result.recs, Group(j, o, left) + rest, out)
      decreases |left|
    {
      ghost var tuple := Project(j.rel1, j.projs, o, rec);
      ghost var todo := Group(j, o, left[1..]) + rest;
      assert Group(j, o, left) + rest == [tuple] + todo;
      ghost var now := result.recs;
      status := Emit(j, o, rec, outputData, result);
      if status != OK {
        ProgressFails(j.projs, before, now, tuple, todo, out);
        assert result.recs == now;
        return ASSERTFAILED;
      }
      ProgressStep(j.projs, before, now, tuple, todo, out);
      left := left[1..];
      status, rec := sorted2.Next();
      atEnd := status != OK;
    }
    assert [] + rest == rest;
    return OK;
  }

  /** Sorting writes a run, and so opens its file, unless there is nothing to sort. */
  predicate Sorts(es: seq<Entry>, creates: bool) { es == [] || creates }

  /** The sorted sequences s1 and s2 are those that the two SortedFiles return; the operator plays no part. */
  method QuSmJoin(j: Join, outer: seq<Entry>, inner: seq<Entry>, creates: bool, result: ResultRel)
    returns (status: Status, ghost s1: seq<Record>, ghost s2: seq<Record>)
    requires Inputs(j, outer, inner)
    modifies result
    ensures !Sorts(outer, creates) || !Sorts(inner, creates) ==> status == UNIXERR && result.recs == old(result.recs)
    ensures Sorts(outer, creates) && Sorts(inner, creates) ==>
      && Delivered(s1, RecordsOf(outer), j.off1) && Delivered(s2, RecordsOf(inner), j.off2)
      && Appended(j.projs, old(result.recs), status, result.recs, SmOut(j, s1, s2))
  {
    hide Covers, Progress, Appended, MergeOut, Rems, Replays, Marks, AllOk, Key, Sorted, KeysFit, SourceOk, Seek,
         Group, AllCovered, Inputs;
    SortableInputs(j, outer, inner);
    var sorted1, sorted2;
    s1, s2 := [], [];
    status, sorted1 := OpenSorted(outer, j.off1, 4, 1000, creates);
    if status != OK { return; }
    status, sorted2 := OpenSorted(inner, j.off2, 4, 1000, creates);
    if status != OK { return; }
    s1, s2 := sorted1.Output(), sorted2.Output();
    sorted2.SetMark();
    ghost var before, out := result.recs, SmOut(j, s1, s2);
    var outputData := new byte[RecLen(j.projs)];
    ProgressStart(j.projs, before, out);
    PermutedCovers(j, outer, inner, s1, s2);
    var firstTime := true;
    ghost var left, marked := s1, s2;
    while true
      invariant sorted1.Valid() && sorted2.Valid() && sorted1.offset == j.off1 && sorted2.offset == j.off2
      invariant sorted1.Output() == left && (if firstTime then sorted2.Output() else sorted2.MarkedOutput()) == marked
      invariant AllCovered(j, left, marked) && Progress(j.projs, before, result.recs, SmOut(j, left, marked), out)
      decreases |left|
    {
      var outerRec;
      status, outerRec := sorted1.Next();
      if status != OK { break; }
      status := MergeOne(j, outerRec, sorted2, firstTime, outputData, result, left, marked, before, out);
      if status != OK { return; }
      marked := Seek(j, outerRec, marked);
      firstTime := false;
      left := left[1..];
    }
    ProgressEnd(j.projs, before, result.recs, out);
    status := OK;
  }

  ghost predicate AllCovered(j: Join, outer: seq<Record>, inner: seq<Record>) {
    forall o, i :: o in outer && i in inner ==> Covers(j.rel1, j.projs, o, i)
  }

  /** The turn of the loop for one outer record: marked is what the inner file returns after going back. */
  method MergeOne(j: Join, o: Record, sorted2: SortedFile, firstTime: bool, outputData: array<byte>, result: ResultRel,
                  ghost left: seq<Record>, ghost marked: seq<Record>, ghost before: seq<Record>, ghost out: seq<Record>)
    returns (status: Status)
    requires sorted2.Valid() && sorted2.offset == j.off2 && outputData.Length == RecLen(j.projs)
    requires left != [] && o == left[0] && AllCovered(j, left, marked)
    requires (if firstTime then sorted2.Output() else sorted2.MarkedOutput()) == marked
    requires Progress(j.projs, before, result.recs, SmOut(j, left, marked), out)
    modifies outputData, result, sorted2
    ensures sorted2.Valid() && sorted2.MarkedOutput() == Seek(j, o, marked)
    ensures AllCovered(j, left[1..], Seek(j, o, marked))
    ensures status == OK ==> Progress(j.projs, before, result.recs, SmOut(j, left[1..], Seek(j, o, marked)), out)
    ensures status != OK ==> Appended(j.projs, before, status, result.recs, out)
  {
    hide Covers, Progress, Appended, MergeOut, Rems, Replays, Marks, AllOk, Key, Seek, Group;
    if !firstTime {
      sorted2.GotoMark();
    }
    var endOfInner, innerRec := SeekInner(j, o, sorted2);
    SeekKeeps(j, o, marked);
    status := EmitGroup(j, o, sorted2, endOfInner, innerRec, outputData, result,
                        Seek(j, o, marked), before, SmOut(j, left[1..], Seek(j, o, marked)), out);
  }

  lemma SeekKeeps(j: Join, o: Record, inner: seq<Record>)
    ensures forall i :: i in Seek(j, o, inner) ==> i in inner
  {}

  lemma PermutedCovers(j: Join, outer: seq<Entry>, inner: seq<Entry>, s1: seq<Record>, s2: seq<Record>)
    requires Inputs(j, outer, inner) && multiset(s1) == multiset(RecordsOf(outer))
    requires multiset(s2) == multiset(RecordsOf(inner))
    ensures AllCovered(j, s1, s2)
  {
    forall o, i | o in s1 && i in s2 ensures Covers(j.rel1, j.projs, o, i) {
      assert o in multiset(s1) && i in multiset(s2);
      var a :| 0 <= a < |outer| && RecordsOf(outer)[a] == o;
      var b :| 0 <= b < |inner| && RecordsOf(inner)[b] == i;
    }
  }

  /** A record that consists of its attribute at off. */
  function KeyRecord(off: nat, key: int): (r: Record)
    requires IsInt32(key)
    ensures |r| == off + 4 && Key(r, off) == key
  {
    var r := seq(off, _ => 0) + IntBytes(key);
    IntAtIsBytes(r, off, key);
    r
  }

  lemma SmOutPair(j: Join, o: Record, i: Record)
    ensures |SmOut(j, [o], [i])| == if Key(o, j.off1) == Key(i, j.off2) then 1 else 0
  {
    hide Key, Project;
    CompareKeys(j, o, i);
    assert [o][1..] == [] && [i][1..] == [];
    var marked := Seek(j, o, [i]);
    if marked != [] {
      assert marked == [i];
      assert Group(j, o, []) == [];
    } else {
      assert After(Key(o, j.off1), Key([i][0], j.off2));
    }
    assert SmOut(j, [], marked) == [];
    assert SmOut(j, [o], [i]) == Group(j, o, marked) + SmOut(j, [], marked);
  }

  /** The merge computes the join of all sorted inputs whose keys can be compared within each relation. */
  ghost predicate SmRight(j: Join) {
    forall outer, inner ::
      Sorted(outer, j.off1) && Sorted(inner, j.off2) && KeysFit(outer, j.off1) && KeysFit(inner, j.off2) ==>
      multiset(SmOut(j, outer, inner)) == multiset(JoinOut(j, outer, inner))
  }

  /** The sort-merge path ignores the operator, so it is right for equality and for no other operator. */
  lemma SmRightIffEquality(j: Join)
    ensures SmRight(j) <==> j.op == EQ
  {
    hide Sorted, KeysFit, SmOut, JoinOut;
    if j.op == EQ {
      forall outer, inner | Sorted(outer, j.off1) && Sorted(inner, j.off2) && KeysFit(outer, j.off1)
          && KeysFit(inner, j.off2)
        ensures multiset(SmOut(j, outer, inner)) == multiset(JoinOut(j, outer, inner))
      {
        SmIsJoin(j, outer, inner);
      }
    } else {
      SmWrong(j);
    }
  }

  lemma SmWrong(j: Join)
    requires j.op != EQ
    ensures !SmRight(j)
  {
    hide Key, SmOut, JoinOut;
    var o := KeyRecord(j.off1, if j.op == GT || j.op == GTE then 1 else 0);
    var i := KeyRecord(j.off2, if j.op == GT || j.op == GTE then 0 else 1);
    assert Sorted([o], j.off1) && Sorted([i], j.off2) && KeysFit([o], j.off1) && KeysFit([i], j.off2);
    JoinOutPair(j, o, i);
    SmOutPair(j, o, i);
    assert |multiset(SmOut(j, [o], [i]))| == 0 && |multiset(JoinOut(j, [o], [i]))| == 1;
  }

  // ----- which keys the merge can be trusted with -----

  ghost predicate InRange(recs: seq<Record>, off: nat, lo: int, hi: int) {
    forall r :: r in recs ==> lo <= Key(r, off) <= hi
  }

  /** The sort-merge join is right on all relations with keys from lo to hi, whatever the two sorts deliver that is
      within their promise. */
  ghost predicate SmJoinRightOn(j: Join, lo: int, hi: int) {
    forall outer, inner, s1, s2 ::
      && InRange(outer, j.off1, lo, hi)
      && InRange(inner, j.off2, lo, hi)
      && Delivered(s1, outer, j.off1)
      && Delivered(s2, inner, j.off2) ==>
      multiset(SmOut(j, s1, s2)) == multiset(JoinOut(j, outer, inner))
  }

  /** For equality the sort-merge join is right on all keys of a range exactly when the width of the range fits in
      32 bits. */
  lemma SmRightIffRangeFits(j: Join, lo: int, hi: int)
    requires j.op == EQ && IsInt32(lo) && IsInt32(hi) && lo <= hi
    ensures SmJoinRightOn(j, lo, hi) <==> IsInt32(hi - lo)
  {
    if IsInt32(hi - lo) {
      hide Key, InRange, Delivered, KeysFit, SmOut, JoinOut;
      forall outer, inner, s1, s2 | InRange(outer, j.off1, lo, hi) && InRange(inner, j.off2, lo, hi)
                                    && Delivered(s1, outer, j.off1) && Delivered(s2, inner, j.off2)
        ensures multiset(SmOut(j, s1, s2)) == multiset(JoinOut(j, outer, inner))
      {
        RangeFits(outer, j.off1, lo, hi);
        RangeFits(inner, j.off2, lo, hi);
        SmBag(j, outer, inner, s1, s2);
      }
    } else {
      var low, high := KeyRecord(j.off2, lo), KeyRecord(j.off2, lo + INT_LIM);
      var o := KeyRecord(j.off1, lo + INT_LIM);
      hide Key, KeyRecord, SmOut, JoinOut, InRange, Delivered;
      FewInRange([o], j.off1, lo, hi);
      FewInRange([low, high], j.off2, lo, hi);
      MissedPair(j, o, low, high);
      DifferentBags(SmOut(j, [o], [low, high]), JoinOut(j, [o], [low, high]));
    }
  }

  lemma RangeFits(s: seq<Record>, off: nat, lo: int, hi: int)
    requires InRange(s, off, lo, hi) && IsInt32(hi - lo)
    ensures KeysFit(s, off)
  {}

  lemma FewInRange(s: seq<Record>, off: nat, lo: int, hi: int)
    requires 1 <= |s| <= 2 && lo <= Key(s[0], off) <= Key(s[|s| - 1], off) <= hi
    ensures InRange(s, off, lo, hi) && Delivered(s, s, off)
  {}

  /** No other sort would help: two inner keys 2^31 apart are each below the other, so that whatever order the inner
      relation comes in, the outer record that equals the second one of them loses its tuple. */
  lemma SmNeedsRange(j: Join, low: Record, high: Record, s2: seq<Record>)
    requires j.op == EQ && Key(high, j.off2) == Key(low, j.off2) + INT_LIM && multiset(s2) == multiset{low, high}
    ensures exists o :: Key(o, j.off1) in {Key(low, j.off2), Key(high, j.off2)}
                        && multiset(SmOut(j, [o], s2)) != multiset(JoinOut(j, [o], [low, high]))
  {
    hide SmOut, JoinOut;
    TwoOrders(s2, low, high);
    KeyIsInt32(s2[1], j.off2);
    var o := KeyRecord(j.off1, Key(s2[1], j.off2));
    hide Key, KeyRecord;
    MissedPair(j, o, s2[0], s2[1]);
    assert multiset([low, high]) == multiset(s2);
    JoinOfPermutations(j, [o], [o], s2, [low, high]);
    DifferentBags(SmOut(j, [o], s2), JoinOut(j, [o], s2));
  }

  lemma OtherOne(x: Record, y: Record, a: Record, b: Record)
    requires multiset{x, y} == multiset{a, b}
    ensures if x == a then y == b else x == b && y == a
  {
    assert x in multiset{x, y} && y in multiset{x, y} && a in multiset{a, b};
  }

  lemma TwoOrders(s: seq<Record>, a: Record, b: Record)
    requires multiset(s) == multiset{a, b}
    ensures s == [a, b] || s == [b, a]
  {
    assert |multiset(s)| == 2;
    assert s == [s[0], s[1]] && s[0] in multiset(s);
    OtherOne(s[0], s[1], a, b);
  }

  lemma DifferentBags(a: seq<Record>, b: seq<Record>)
    requires |a| != |b|
    ensures multiset(a) != multiset(b)
  {
    assert |multiset(a)| == |a| && |multiset(b)| == |b|;
  }

  lemma MissedPair(j: Join, o: Record, x: Record, y: Record)
    requires j.op == EQ && Key(o, j.off1) == Key(y, j.off2)
    requires Key(y, j.off2) - Key(x, j.off2) == INT_LIM || Key(x, j.off2) - Key(y, j.off2) == INT_LIM
    ensures SmOut(j, [o], [x, y]) == [] && |JoinOut(j, [o], [x, y])| == 1
  {
    hide Key, Project, JoinOut, InnerOut;
    assert !After(Key(y, j.off2), Key(x, j.off2)) && Diff32(Key(y, j.off2), Key(x, j.off2)) != 0;
    hide After, Diff32;
    assert [o][1..] == [];
    assert Seek(j, o, [x, y]) == [x, y];
    assert SmOut(j, [o], [x, y]) == Group(j, o, [x, y]) + SmOut(j, [], [x, y]);
    assert [x, y] == [x] + [y];
    JoinOutOne(j, o, [x, y]);
    JoinOutOne(j, o, [x]);
    JoinOutOne(j, o, [y]);
    InnerOutConcat(j, o, [x], [y]);
    JoinOutPair(j, o, x);
    JoinOutPair(j, o, y);
  }

  /** What the merge emits does not depend on the operator. */
  lemma {:induction false} SmIgnoresOperator(j: Join, op: Operator, outer: seq<Record>, inner: seq<Record>)
    ensures SmOut(j, outer, inner) == SmOut(j.(op := op), outer, inner)
    decreases |outer|
  {
    if outer != [] {
      SeekIgnoresOperator(j, op, outer[0], inner);
      GroupIgnoresOperator(j, op, outer[0], Seek(j, outer[0], inner));
      SmIgnoresOperator(j, op, outer[1..], Seek(j, outer[0], inner));
    }
  }

  lemma {:induction false} SeekIgnoresOperator(j: Join, op: Operator, o: Record, inner: seq<Record>)
    ensures Seek(j, o, inner) == Seek(j.(op := op), o, inner)
  {
    if inner != [] {
      SeekIgnoresOperator(j, op, o, inner[1..]);
    }
  }

  lemma {:induction false} GroupIgnoresOperator(j: Join, op: Operator, o: Record, inner: seq<Record>)
    ensures Group(j, o, inner) == Group(j.(op := op), o, inner)
  {
    if inner != [] {
      GroupIgnoresOperator(j, op, o, inner[1..]);
    }
  }

  lemma SameKeysFit(a: seq<Record>, b: seq<Record>, off: nat)
    requires multiset(a) == multiset(b) && KeysFit(b, off)
    ensures KeysFit(a, off)
  {
    forall r | r in a ensures r in b {
      assert r in multiset(b);
    }
  }

  /** The merge of the two sorted files gives the equality join of the relations. */
  lemma SmBag(j: Join, outer: seq<Record>, inner: seq<Record>, s1: seq<Record>, s2: seq<Record>)
    requires Delivered(s1, outer, j.off1) && Delivered(s2, inner, j.off2) && KeysFit(outer, j.off1)
    requires KeysFit(inner, j.off2)
    ensures multiset(SmOut(j, s1, s2)) == multiset(JoinOut(j.(op := EQ), outer, inner))
  {
    hide Sorted, KeysFit;
    var e := j.(op := EQ);
    SmIgnoresOperator(j, EQ, s1, s2);
    SameKeysFit(s1, outer, j.off1);
    SameKeysFit(s2, inner, j.off2);
    SmIsJoin(e, s1, s2);
    JoinOfPermutations(e, s1, outer, s2, inner);
  }
}
