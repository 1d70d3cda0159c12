/** Choosing a join algorithm (join.C), and their agreement. */
module Joining {
  import opened Bytes
  import opened Statuses
  import opened ScanSpec
  import opened Sorting
  import opened JoinSpecs
  import opened JoinResults
  import opened NestedLoops
  import opened SortMerge
  import opened BlockHash
  import SlottedPage

  datatype JoinMethod = NLJoin | SMJoin | HashJoin

  /** The operator that the chosen algorithm evaluates. */
  function Effective(joinMethod: JoinMethod, j: Join): Join {
    if joinMethod == SMJoin then j.(op := EQ) else j
  }

  /** The keys can be compared as the algorithm does. */
  ghost predicate Comparable(joinMethod: JoinMethod, j: Join, outer: seq<Record>, inner: seq<Record>) {
    if joinMethod == SMJoin then KeysFit(outer, j.off1) && KeysFit(inner, j.off2)
    else AllDecided(j, outer, inner)
  }

  ghost predicate Joined(projs: seq<Attr>, before: seq<Record>, status: Status, after: seq<Record>, out: seq<Record>) {
    if Insertable(RecLen(projs)) || out == [] then status == OK && multiset(after) == multiset(before) + multiset(out)
    else status == ASSERTFAILED && after == before
  }

  lemma AppendedBag(projs: seq<Attr>, before: seq<Record>, status: Status, after: seq<Record>, emitted: seq<Record>,
                    out: seq<Record>)
    requires Appended(projs, before, status, after, emitted) && multiset(emitted) == multiset(out)
    ensures Joined(projs, before, status, after, out)
  {
    assert |multiset(emitted)| == |emitted| && |multiset(out)| == |out|;
  }

  /** Only for equality is the block hash join run. */
  predicate Hashes(joinMethod: JoinMethod, j: Join) { joinMethod == HashJoin && j.op == EQ }

  predicate HasBlocks(outerTupwidth: nat) { 0 < outerTupwidth <= SlottedPage.DATA_SIZE }

  /** Both relations can be sorted. */
  predicate BothSort(outer: seq<Entry>, inner: seq<Entry>, creates: bool) {
    Sorts(outer, creates) && Sorts(inner, creates)
  }

  /** The algorithm gets as far as joining. */
  predicate Runs(joinMethod: JoinMethod, j: Join, outerTupwidth: nat, outer: seq<Entry>, inner: seq<Entry>,
                 creates: bool)
  {
    && (Hashes(joinMethod, j) ==> HasBlocks(outerTupwidth))
    && (joinMethod == SMJoin ==> BothSort(outer, inner, creates))
  }

  /** Whichever algorithm is chosen, the result relation gains the tuples of the join; only the hash join of tuples
      that no page holds fails, and the sort-merge join if the runs of the sort cannot be opened. */
  method QuJoin(joinMethod: JoinMethod, j: Join, outerTupwidth: nat, outer: seq<Entry>, inner: seq<Entry>,
                creates: bool, result: ResultRel)
    returns (status: Status)
    requires Inputs(j, outer, inner)
    requires Hashes(joinMethod, j) && outerTupwidth > SlottedPage.DATA_SIZE ==> inner != []
    modifies result
    ensures Hashes(joinMethod, j) && !HasBlocks(outerTupwidth) ==>
      status == DIVISIONBYZERO && result.recs == old(result.recs)
    ensures joinMethod == SMJoin && !BothSort(outer, inner, creates) ==>
      status == UNIXERR && result.recs == old(result.recs)
    ensures Runs(joinMethod, j, outerTupwidth, outer, inner, creates)
            && Comparable(joinMethod, j, RecordsOf(outer), RecordsOf(inner)) ==>
              Joined(j.projs, old(result.recs), status, result.recs,
                     JoinOut(Effective(joinMethod, j), RecordsOf(outer), RecordsOf(inner)))
  {
    hide Appended, Joined, KeysFit, AllDecided, Sorted, HashOut, NlOut, JoinOut, Covers;
    ghost var before := result.recs;
    if joinMethod == NLJoin || (joinMethod == HashJoin && j.op != EQ) {
      status := QuNlJoin(j, outer, inner, result);
      if AllDecided(j, RecordsOf(outer), RecordsOf(inner)) {
        NlIsJoin(j, RecordsOf(outer), inner);
        AppendedBag(j.projs, before, status, result.recs, NlOut(j, RecordsOf(outer), inner),
                    JoinOut(j, RecordsOf(outer), RecordsOf(inner)));
      }
    } else if joinMethod == SMJoin {
      ghost var s1, s2;
      status, s1, s2 := QuSmJoin(j, outer, inner, creates, result);
      if BothSort(outer, inner, creates) && Comparable(joinMethod, j, RecordsOf(outer), RecordsOf(inner)) {
        SmBag(j, RecordsOf(outer), RecordsOf(inner), s1, s2);
        AppendedBag(j.projs, before, status, result.recs, SmOut(j, s1, s2),
                    JoinOut(Effective(SMJoin, j), RecordsOf(outer), RecordsOf(inner)));
      }
    } else {
      status := QuHashJoin(j, outerTupwidth, outer, inner, result);
      if !HasBlocks(outerTupwidth) { return; }
      AllFound(outer);
      var n := OuterTupsPerBlock(outerTupwidth);
      HashIsJoin(j, outer, outer, n, RecordsOf(inner));
      AppendedBag(j.projs, before, status, result.recs, HashOut(j, outer, outer, n, RecordsOf(inner)),
                  JoinOut(j, RecordsOf(outer), RecordsOf(inner)));
    }
  }

  /** For equality, on keys that can be compared within each relation, the three algorithms emit the same bag of
      tuples. */
  lemma JoinsAgree(j: Join, outer: seq<Entry>, inner: seq<Entry>, s1: seq<Record>, s2: seq<Record>, n: nat)
    requires j.op == EQ && n > 0 && Inputs(j, outer, inner)
    requires Delivered(s1, RecordsOf(outer), j.off1) && KeysFit(RecordsOf(outer), j.off1)
    requires Delivered(s2, RecordsOf(inner), j.off2) && KeysFit(RecordsOf(inner), j.off2)
    ensures multiset(NlOut(j, RecordsOf(outer), inner)) == multiset(SmOut(j, s1, s2))
    ensures multiset(SmOut(j, s1, s2)) == multiset(HashOut(j, outer, outer, n, RecordsOf(inner)))
  {
    NlIsJoin(j, RecordsOf(outer), inner);
    SmBag(j, RecordsOf(outer), RecordsOf(inner), s1, s2);
    AllFound(outer);
    HashIsJoin(j, outer, outer, n, RecordsOf(inner));
  }
}
