/** The nested loops join (join.C). */
module NestedLoops {
  import opened Bytes
  import opened Statuses
  import opened ScanSpec
  import opened Sorting
  import opened JoinSpecs
  import opened JoinResults

  /** The operator with its sides exchanged. */
  function Flip(op: Operator): Operator {
    match op
    case EQ => EQ
    case GT => LT
    case GTE => LTE
    case LT => GT
    case LTE => GTE
    case NE => NE
  }

  /** The filter of the inner scan for an outer record. */
  function InnerFilter(j: Join, o: Record): Filter {
    IntFilter(j.off2, Flip(j.op), Key(o, j.off1))
  }

  /** The comparison of two keys through their difference decides the operator. */
  predicate Decided(op: Operator, a: int, b: int) {
    op == EQ || op == NE || IsInt32(b - a)
  }

  ghost predicate AllDecided(j: Join, outer: seq<Record>, inner: seq<Record>) {
    forall o, i :: o in outer && i in inner ==> Decided(j.op, Key(o, j.off1), Key(i, j.off2))
  }

  /** The filtered inner scan selects the pairs outer.key op inner.key, exactly when the difference decides. */
  lemma FlippedFilter(j: Join, o: Record, i: Record)
    requires j.off2 + 4 <= |i|
    ensures (MatchRec(InnerFilter(j, o), i) <==> Joins(j, o, i)) <==> Decided(j.op, Key(o, j.off1), Key(i, j.off2))
  {
    KeyIsInt32(o, j.off1);
    MatchRecExact(j.off2, Flip(j.op), Key(o, j.off1), i);
  }

  function Projected(j: Join, o: Record, es: seq<Entry>): seq<Record> {
    if es == [] then [] else [Project(j.rel1, j.projs, o, es[0].rec)] + Projected(j, o, es[1..])
  }

  /** What nested loops emits, whatever the keys. */
  function NlOut(j: Join, outer: seq<Record>, inner: seq<Entry>): seq<Record> {
    if outer == [] then []
    else Projected(j, outer[0], Matching(inner, InnerFilter(j, outer[0]))) + NlOut(j, outer[1..], inner)
  }

  lemma {:induction false} FilterIsInnerOut(j: Join, o: Record, inner: seq<Entry>)
    requires SourceOk(inner, j.off2) && AllDecided(j, [o], RecordsOf(inner))
    ensures Projected(j, o, Matching(inner, InnerFilter(j, o))) == InnerOut(j, o, RecordsOf(inner))
  {
    if inner != [] {
      assert RecordsOf(inner)[0] in RecordsOf(inner) && o in [o];
      FlippedFilter(j, o, inner[0].rec);
      assert RecordsOf(inner)[1..] == RecordsOf(inner[1..]);
      assert forall r :: r in RecordsOf(inner)[1..] ==> r in RecordsOf(inner);
      FilterIsInnerOut(j, o, inner[1..]);
      var m := Matching(inner[1..], InnerFilter(j, o));
      assert ([inner[0]] + m)[1..] == m;
    }
  }

  /** Nested loops computes the join for all six operators when the differences decide. */
  lemma {:induction false} NlIsJoin(j: Join, outer: seq<Record>, inner: seq<Entry>)
    requires SourceOk(inner, j.off2) && AllDecided(j, outer, RecordsOf(inner))
    ensures NlOut(j, outer, inner) == JoinOut(j, outer, RecordsOf(inner))
  {
    if outer != [] {
      assert outer[0] in outer;
      FilterIsInnerOut(j, outer[0], inner);
      assert forall r :: r in outer[1..] ==> r in outer;
      NlIsJoin(j, outer[1..], inner);
    }
  }

  lemma ProjectedNone(j: Join, o: Record, rest: seq<Record>)
    ensures Projected(j, o, []) + rest == rest
  {}

  lemma ProjectedStep(j: Join, o: Record, e: Entry, todo: seq<Entry>, rest: seq<Record>)
    ensures Projected(j, o, [e] + todo) + rest == [Project(j.rel1, j.projs, o, e.rec)] + (Projected(j, o, todo) + rest)
  {
    assert ([e] + todo)[1..] == todo;
  }

  /** The inner loop of nested loops. */
  method ScanInner(j: Join, o: Record, inner: seq<Entry>, outputData: array<byte>, result: ResultRel,
                   ghost before: seq<Record>, ghost rest: seq<Record>, ghost out: seq<Record>)
    returns (status: Status)
    requires outputData.Length == RecLen(j.projs) && SourceOk(inner, j.off2)
    requires forall b :: 0 <= b < |inner| ==> Covers(j.rel1, j.projs, o, inner[b].rec)
    requires Progress(j.projs, before, result.recs, Projected(j, o, Matching(inner, InnerFilter(j, o))) + rest, out)
    modifies outputData, result
    ensures status == OK ==> Progress(j.projs, before, result.recs, rest, out)
    ensures status != OK ==> Appended(j.projs, before, status, result.recs, out)
  {
    hide Covers, Progress, Appended, Project, Projected, Matching, SourceOk, Skip, NextStatus, NextRest, InnerFilter;
    SourceHasNoEmpty(inner, j.off2);
    var f := InnerFilter(j, o);
    var innerScan := Open(inner, f);
    assert innerScan.Rest() == inner;
    while true
      invariant innerScan.Valid() && innerScan.file == inner && innerScan.filter == f
      invariant Progress(j.projs, before, result.recs, Projected(j, o, Matching(innerScan.Rest(), f)) + rest, out)
      decreases |inner| - innerScan.pos
    {
      MatchingStep(innerScan);
      var (t, s) := innerScan.Next();
      if s != OK { break; }
      innerScan := t;
      var innerRec := innerScan.Current().rec;
      ghost var next := Matching(innerScan.Rest(), f);
      ProjectedStep(j, o, innerScan.Current(), next, rest);
      ghost var now, tuple, todo := result.recs, Project(j.rel1, j.projs, o, innerRec), Projected(j, o, next) + rest;
      status := Emit(j, o, innerRec, outputData, result);
      if status != OK {
        ProgressFails(j.projs, before, now, tuple, todo, out);
        assert now + [] == now;
        return ASSERTFAILED;
      }
      ProgressStep(j.projs, before, now, tuple, todo, out);
    }
    ProjectedNone(j, o, rest);
    return OK;
  }

  method QuNlJoin(j: Join, outer: seq<Entry>, inner: seq<Entry>, result: ResultRel) returns (status: Status)
    requires Inputs(j, outer, inner)
    modifies result
    ensures Appended(j.projs, old(result.recs), status, result.recs, NlOut(j, RecordsOf(outer), inner))
  {
    hide Covers, Progress, Appended, Projected, Matching;
    ghost var before, out := result.recs, NlOut(j, RecordsOf(outer), inner);
    var outputData := new byte[RecLen(j.projs)];
    var outerScan := Open(outer, NoFilter);
    assert outer[0..] == outer;
    ProgressStart(j.projs, before, out);
    while true
      invariant outerScan.Valid() && outerScan.file == outer && outerScan.filter == NoFilter
      invariant Progress(j.projs, before, result.recs, NlOut(j, RecordsOf(outer[outerScan.pos..]), inner), out)
      decreases |outer| - outerScan.pos
    {
      NextPlain(outerScan);
      var k := outerScan.pos;
      var (t, s) := outerScan.Next();
      if s != OK { break; }
      outerScan := t;
      assert RecordsOf(outer[k..])[1..] == RecordsOf(outer[k + 1..]);
      status := ScanInner(j, outerScan.Current().rec, inner, outputData, result, before,
                          NlOut(j, RecordsOf(outer[k + 1..]), inner), out);
      if status != OK { return; }
    }
    ProgressEnd(j.projs, before, result.recs, out);
    return OK;
  }
}
