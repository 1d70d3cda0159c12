/** The block hash join (join.C): nested loops over blocks of the outer relation, with a hash table for each. */
module BlockHash {
  import opened Bytes
  import opened Statuses
  import opened ScanSpec
  import opened Sorting
  import opened JoinSpecs
  import opened JoinHash
  import opened JoinResults
  import SlottedPage

  const BLOCKSIZE := 4

  /** The outer tuples that fit in a block of pages. */
  function OuterTupsPerBlock(outerTupwidth: int): int
    requires outerTupwidth > 0
  {
    BLOCKSIZE * (SlottedPage.DATA_SIZE / outerTupwidth)
  }

  /** The number of buckets, a product that is rounded towards zero. */
  function TableSize(outerTupsPerBlock: int): int {
    (outerTupsPerBlock as real * 1.15).Floor
  }

  /** For wider tuples a block holds none and its hash table has no bucket. */
  lemma BlockHoldsTuples(outerTupwidth: int)
    requires outerTupwidth > 0
    ensures OuterTupsPerBlock(outerTupwidth) >= 0 && TableSize(OuterTupsPerBlock(outerTupwidth)) >= 0
    ensures OuterTupsPerBlock(outerTupwidth) > 0 <==> outerTupwidth <= SlottedPage.DATA_SIZE
    ensures TableSize(OuterTupsPerBlock(outerTupwidth)) > 0 <==> outerTupwidth <= SlottedPage.DATA_SIZE
    ensures var n := OuterTupsPerBlock(outerTupwidth);
            && n % 4 == 0 && n / 4 * outerTupwidth <= 1004 < (n / 4 + 1) * outerTupwidth
            && 100 * TableSize(n) <= 115 * n < 100 * (TableSize(n) + 1)
  {
    if outerTupwidth <= SlottedPage.DATA_SIZE {
      assert SlottedPage.DATA_SIZE / outerTupwidth >= 1;
    }
    Buckets(OuterTupsPerBlock(outerTupwidth));
    Quotient(1004, outerTupwidth);
  }

  lemma Quotient(n: int, d: int)
    requires d > 0
    ensures n / d * d <= n < (n / d + 1) * d
  {}

  lemma Buckets(n: int)
    requires n >= 0
    ensures TableSize(n) >= 0 && (TableSize(n) > 0 <==> n > 0)
    ensures 100 * TableSize(n) <= 115 * n < 100 * (TableSize(n) + 1)
  {
    if n > 0 {
      assert n as real * 1.15 >= 1.15;
    }
  }

  /** The pairs in the hash table after a block: the latest record first. */
  function BlockPairs(block: seq<Entry>, off: nat): seq<Pair> {
    if block == [] then []
    else
      var last := block[|block| - 1];
      [Pair(Key(last.rec, off), last.rid)] + BlockPairs(block[..|block| - 1], off)
  }

  /** The tuples of an inner record with the outer records of some ids. */
  function Fetched(j: Join, source: seq<Entry>, rids: seq<RID>, i: Record): seq<Record> {
    if rids == [] then []
    else [Project(j.rel1, j.projs, Lookup(source, rids[0]), i)] + Fetched(j, source, rids[1..], i)
  }

  function BlockRids(j: Join, block: seq<Entry>, i: Record): seq<RID> {
    MatchingRids(BlockPairs(block, j.off1), Key(i, j.off2))
  }

  /** What a block of the outer relation emits. */
  function BlockOut(j: Join, source: seq<Entry>, block: seq<Entry>, inner: seq<Record>): seq<Record> {
    if inner == [] then []
    else Fetched(j, source, BlockRids(j, block, inner[0]), inner[0]) + BlockOut(j, source, block, inner[1..])
  }

  /** What the hash join emits for the rest of the outer relation, read n tuples at a time. */
  function HashOut(j: Join, source: seq<Entry>, rest: seq<Entry>, n: nat, inner: seq<Record>): seq<Record>
    requires n > 0
    decreases |rest|
  {
    if |rest| < n then BlockOut(j, source, rest, inner)
    else BlockOut(j, source, rest[..n], inner) + HashOut(j, source, rest[n..], n, inner)
  }

  ghost predicate Found(source: seq<Entry>, es: seq<Entry>) {
    forall k :: 0 <= k < |es| ==> Lookup(source, es[k].rid) == es[k].rec
  }

  lemma LastRid(j: Join, block: seq<Entry>, i: Record)
    requires block != []
    ensures var last := block[|block| - 1];
            BlockRids(j, block, i)
              == (if Key(last.rec, j.off1) == Key(i, j.off2) then [last.rid] else [])
                 + BlockRids(j, block[..|block| - 1], i)
  {
    hide Key;
    var front, last := block[..|block| - 1], block[|block| - 1];
    var p, ps := Pair(Key(last.rec, j.off1), last.rid), BlockPairs(front, j.off1);
    assert ([p] + ps)[1..] == ps;
  }

  lemma FetchedCons(j: Join, source: seq<Entry>, rid: RID, rids: seq<RID>, i: Record)
    ensures Fetched(j, source, [rid] + rids, i)
         == [Project(j.rel1, j.projs, Lookup(source, rid), i)] + Fetched(j, source, rids, i)
  {
    assert ([rid] + rids)[1..] == rids;
  }

  /** The tuples of the last record of a block come first in one result and last in the other. */
  lemma LastTuple(j: Join, source: seq<Entry>, block: seq<Entry>, i: Record) returns (ts: seq<Record>)
    requires j.op == EQ && block != [] && Lookup(source, block[|block| - 1].rid) == block[|block| - 1].rec
    ensures var front := block[..|block| - 1];
            && Fetched(j, source, BlockRids(j, block, i), i) == ts + Fetched(j, source, BlockRids(j, front, i), i)
            && JoinOut(j, RecordsOf(block), [i]) == JoinOut(j, RecordsOf(front), [i]) + ts
  {
    hide Key, Lookup, Project, BlockRids, JoinOut, Fetched;
    var front, last := block[..|block| - 1], block[|block| - 1];
    LastRid(j, block, i);
    assert RecordsOf(block) == RecordsOf(front) + [last.rec];
    JoinOutConcat(j, RecordsOf(front), [last.rec], [i]);
    JoinOutPair(j, last.rec, i);
    ts := JoinOut(j, [last.rec], [i]);
    var rids := BlockRids(j, front, i);
    if Joins(j, last.rec, i) {
      FetchedCons(j, source, last.rid, rids, i);
    } else {
      assert [] + rids == rids;
      assert [] + Fetched(j, source, rids, i) == Fetched(j, source, rids, i);
    }
  }

  lemma Rotated(ts: seq<Record>, a: seq<Record>, b: seq<Record>)
    requires multiset(a) == multiset(b)
    ensures multiset(ts + a) == multiset(b + ts)
  {}

  lemma {:induction false} FetchedIsJoin(j: Join, source: seq<Entry>, block: seq<Entry>, i: Record)
    requires j.op == EQ && Found(source, block)
    ensures multiset(Fetched(j, source, BlockRids(j, block, i), i)) == multiset(JoinOut(j, RecordsOf(block), [i]))
    decreases |block|
  {
    if block != [] {
      hide BlockRids, JoinOut, Fetched;
      var front := block[..|block| - 1];
      FetchedIsJoin(j, source, front, i);
      var ts := LastTuple(j, source, block, i);
      Rotated(ts, Fetched(j, source, BlockRids(j, front, i), i), JoinOut(j, RecordsOf(front), [i]));
    }
  }

  lemma {:induction false} BlockIsJoin(j: Join, source: seq<Entry>, block: seq<Entry>, inner: seq<Record>)
    requires j.op == EQ && Found(source, block)
    ensures multiset(BlockOut(j, source, block, inner)) == multiset(JoinOut(j, RecordsOf(block), inner))
  {
    if inner == [] {
      JoinOutNoInner(j, RecordsOf(block));
    } else {
      FetchedIsJoin(j, source, block, inner[0]);
      BlockIsJoin(j, source, block, inner[1..]);
      assert inner == [inner[0]] + inner[1..];
      JoinOutInnerSplit(j, RecordsOf(block), [inner[0]], inner[1..]);
    }
  }

  /** Every outer tuple is in exactly one block and every inner tuple meets each equal one exactly once: whatever
      the keys, the hash join computes the equality join. */
  lemma {:induction false} HashIsJoin(j: Join, source: seq<Entry>, rest: seq<Entry>, n: nat, inner: seq<Record>)
    requires j.op == EQ && n > 0 && Found(source, rest)
    ensures multiset(HashOut(j, source, rest, n, inner)) == multiset(JoinOut(j, RecordsOf(rest), inner))
    decreases |rest|
  {
    if |rest| < n {
      BlockIsJoin(j, source, rest, inner);
    } else {
      assert Found(source, rest[..n]) && Found(source, rest[n..]);
      assert RecordsOf(rest) == RecordsOf(rest[..n]) + RecordsOf(rest[n..]);
      hide Found, BlockOut, JoinOut, RecordsOf, Lookup;
      BlockIsJoin(j, source, rest[..n], inner);
      HashIsJoin(j, source, rest[n..], n, inner);
      JoinOutConcat(j, RecordsOf(rest[..n]), RecordsOf(rest[n..]), inner);
    }
  }

  lemma AllFound(source: seq<Entry>)
    requires DistinctRids(source)
    ensures Found(source, source)
  {
    forall k | 0 <= k < |source| ensures Lookup(source, source[k].rid) == source[k].rec {
      LookupHit(source, k);
    }
  }

  lemma BlockPairsNone(off: nat)
    ensures BlockPairs([], off) == []
  {}

  lemma BlockPairsStep(file: seq<Entry>, a: nat, b: nat, off: nat)
    requires a < b <= |file|
    ensures BlockPairs(file[a..b], off)
         == [Pair(Key(file[b - 1].rec, off), file[b - 1].rid)] + BlockPairs(file[a..b - 1], off)
  {
    assert file[a..b][..b - a - 1] == file[a..b - 1];
  }

  /** Read the next block of the outer relation into the hash table. A block of no tuples reads nothing and does
      not reach the end of the relation. */
  method ReadBlock(j: Join, outerScan: Scan, outerTupsPerBlock: int, joinHT: JoinHashTbl)
    returns (next: Scan, endOfOuter: bool)
    requires outerScan.Valid() && outerScan.filter == NoFilter && SourceOk(outerScan.file, j.off1)
    requires outerTupsPerBlock >= 0 && joinHT.Valid() && joinHT.pairs == []
    requires joinHT.size == TableSize(outerTupsPerBlock)
    modifies joinHT, joinHT.bucketCnt, joinHT.chain
    ensures joinHT.Valid() && next.Valid() && next.file == outerScan.file && next.filter == NoFilter
    ensures endOfOuter == (|next.file| - outerScan.pos < outerTupsPerBlock)
    ensures next.pos == if endOfOuter then |next.file| else outerScan.pos + outerTupsPerBlock
    ensures joinHT.pairs == BlockPairs(next.file[outerScan.pos..next.pos], j.off1)
  {
    hide SourceOk, JoinHashTbl.Valid, Key, BlockPairs;
    Buckets(outerTupsPerBlock);
    SourceHasNoEmpty(outerScan.file, j.off1);
    next, endOfOuter := outerScan, false;
    ghost var file, start := outerScan.file, outerScan.pos;
    BlockPairsNone(j.off1);
    assert file[start..start] == [];
    var i := 0;
    while i < outerTupsPerBlock
      invariant 0 <= i <= outerTupsPerBlock && next.Valid() && next.file == file && next.filter == NoFilter
      invariant next.pos == start + i && joinHT.Valid()
      invariant joinHT.pairs == BlockPairs(file[start..next.pos], j.off1)
    {
      NextPlain(next);
      var (t, s) := next.Next();
      if s != OK {
        endOfOuter := true;
        break;
      }
      next, i := t, i + 1;
      BlockPairsStep(file, start, next.pos, j.off1);
      var status := joinHT.Insert(next.Current().rid, Key(next.Current().rec, j.off1));
    }
  }

  /** Join one inner record with the outer records found for it. */
  method EmitMatches(j: Join, source: seq<Entry>, rids: seq<RID>, i: Record, outputData: array<byte>, result: ResultRel,
                     ghost before: seq<Record>, ghost rest: seq<Record>, ghost out: seq<Record>)
    returns (status: Status)
    requires outputData.Length == RecLen(j.projs)
    requires forall k :: 0 <= k < |rids| ==> Covers(j.rel1, j.projs, Lookup(source, rids[k]), i)
    requires Progress(j.projs, before, result.recs, Fetched(j, source, rids, i) + rest, out)
    modifies outputData, result
    ensures status == OK ==> Progress(j.projs, before, result.recs, rest, out)
    ensures status != OK ==> Appended(j.projs, before, status, result.recs, out)
  {
    hide Covers, Progress, Appended, Project, Lookup;
    var k := 0;
    while k < |rids|
      invariant 0 <= k <= |rids|
      invariant Progress(j.projs, before, result.recs, Fetched(j, source, rids[k..], i) + rest, out)
    {
      var outerRec := Lookup(source, rids[k]);
      ghost var tuple := Project(j.rel1, j.projs, outerRec, i);
      FetchedStep(j, source, rids, k, i, rest);
      ghost var now, todo := result.recs, Fetched(j, source, rids[k + 1..], i) + rest;
      status := Emit(j, outerRec, i, outputData, result);
      if status != OK {
        ProgressFails(j.projs, before, now, tuple, todo, out);
        assert now + [] == now;
        return ASSERTFAILED;
      }
      ProgressStep(j.projs, before, now, tuple, todo, out);
      k := k + 1;
    }
    assert [] + rest == rest;
    return OK;
  }

  lemma FetchedStep(j: Join, source: seq<Entry>, rids: seq<RID>, k: nat, i: Record, rest: seq<Record>)
    requires k < |rids|
    ensures Fetched(j, source, rids[k..], i) + rest
         == [Project(j.rel1, j.projs, Lookup(source, rids[k]), i)] + (Fetched(j, source, rids[k + 1..], i) + rest)
  {
    assert rids[k..][1..] == rids[k + 1..];
  }

  /** Every matching id is that of a record of the block. */
  lemma {:induction false} RidsOfBlock(j: Join, block: seq<Entry>, i: Record, rid: RID)
    requires rid in BlockRids(j, block, i)
    ensures exists k :: 0 <= k < |block| && block[k].rid == rid
    decreases |block|
  {
    hide Key;
    var front, last := block[..|block| - 1], block[|block| - 1];
    var p, ps := Pair(Key(last.rec, j.off1), last.rid), BlockPairs(front, j.off1);
    assert ([p] + ps)[1..] == ps;
    if last.rid != rid {
      RidsOfBlock(j, front, i, rid);
    }
  }

  lemma BlockCovered(j: Join, outer: seq<Entry>, a: nat, b: nat, inner: seq<Entry>, m: nat)
    requires Inputs(j, outer, inner) && a <= b <= |outer| && m < |inner|
    ensures var rids := BlockRids(j, outer[a..b], inner[m].rec);
            forall k :: 0 <= k < |rids| ==> Covers(j.rel1, j.projs, Lookup(outer, rids[k]), inner[m].rec)
  {
    hide Covers, Key, BlockRids, Lookup;
    var i := inner[m].rec;
    var rids := BlockRids(j, outer[a..b], i);
    forall k | 0 <= k < |rids| ensures Covers(j.rel1, j.projs, Lookup(outer, rids[k]), i) {
      RidsOfBlock(j, outer[a..b], i, rids[k]);
      var n :| 0 <= n < b - a && outer[a..b][n].rid == rids[k];
      LookupHit(outer, a + n);
    }
  }

  /** The tuples a block has yet to give from inner record m on, and those after the block. */
  ghost function Todo(j: Join, outer: seq<Entry>, a: nat, b: nat, inner: seq<Entry>, m: nat,
                      rest: seq<Record>): seq<Record>
    requires a <= b <= |outer| && m <= |inner|
  {
    BlockOut(j, outer, outer[a..b], RecordsOf(inner[m..])) + rest
  }

  /** Join inner record m with the block in the hash table. */
  method ProbeOne(j: Join, outer: seq<Entry>, ghost a: nat, ghost b: nat, ghost inner: seq<Entry>, ghost m: nat,
                  innerRec: Record,
                  joinHT: JoinHashTbl, outputData: array<byte>, result: ResultRel,
                  ghost before: seq<Record>, ghost rest: seq<Record>, ghost out: seq<Record>)
    returns (status: Status)
    requires Inputs(j, outer, inner) && a <= b <= |outer| && m < |inner| && innerRec == inner[m].rec
    requires outputData.Length == RecLen(j.projs)
    requires joinHT.Valid() && joinHT.pairs == BlockPairs(outer[a..b], j.off1)
    requires joinHT.size > 0 ==> Progress(j.projs, before, result.recs, Todo(j, outer, a, b, inner, m, rest), out)
    modifies outputData, result
    ensures joinHT.Valid()
    ensures joinHT.size > 0 && status == OK ==>
      Progress(j.projs, before, result.recs, Todo(j, outer, a, b, inner, m + 1, rest), out)
    ensures joinHT.size > 0 && status != OK ==> Appended(j.projs, before, status, result.recs, out)
    ensures joinHT.size == 0 ==> status == DIVISIONBYZERO && result.recs == old(result.recs)
  {
    hide Covers, Progress, Appended, Inputs, Key, MatchingRids, BlockPairs, Fetched, JoinHashTbl.Valid, Todo,
         RecLen;
    var outerRidCnt, matchingOuterRids;
    status, outerRidCnt, matchingOuterRids := joinHT.Lookup(Key(innerRec, j.off2));
    if status != OK { return; }
    BlockCovered(j, outer, a, b, inner, m);
    TodoStep(j, outer, a, b, inner, m, rest);
    status := EmitMatches(j, outer, matchingOuterRids[..outerRidCnt], innerRec, outputData, result, before,
                          Todo(j, outer, a, b, inner, m + 1, rest), out);
  }

  /** The scan of the inner relation for one block. */
  method ProbeInner(j: Join, outer: seq<Entry>, ghost a: nat, ghost b: nat, inner: seq<Entry>, joinHT: JoinHashTbl,
                    outputData: array<byte>,
                    result: ResultRel, ghost before: seq<Record>, ghost rest: seq<Record>, ghost out: seq<Record>)
    returns (status: Status)
    requires Inputs(j, outer, inner) && a <= b <= |outer| && outputData.Length == RecLen(j.projs)
    requires joinHT.Valid() && joinHT.pairs == BlockPairs(outer[a..b], j.off1)
    requires joinHT.size > 0 ==> Progress(j.projs, before, result.recs, Todo(j, outer, a, b, inner, 0, rest), out)
    modifies outputData, result
    ensures joinHT.size > 0 && status == OK ==> Progress(j.projs, before, result.recs, rest, out)
    ensures joinHT.size > 0 && status != OK ==> Appended(j.projs, before, status, result.recs, out)
    ensures joinHT.size == 0 ==>
      status == (if inner == [] then OK else DIVISIONBYZERO) && result.recs == old(result.recs)
  {
    hide Progress, Appended, Inputs, BlockPairs, JoinHashTbl.Valid, SourceOk, Todo, RecLen, NoEmpty,
         Skip, Scan.Rest, NextRest, NextStatus;
    SortableInputs(j, outer, inner);
    SourceHasNoEmpty(inner, j.off2);
    var innerScan := Open(inner, NoFilter);
    while true
      invariant innerScan.Valid() && innerScan.file == inner && innerScan.filter == NoFilter && joinHT.Valid()
      invariant joinHT.size > 0 ==>
        Progress(j.projs, before, result.recs, Todo(j, outer, a, b, inner, innerScan.pos, rest), out)
      invariant joinHT.size == 0 ==> innerScan.pos == 0 && result.recs == old(result.recs)
      decreases |inner| - innerScan.pos
    {
      NextPlain(innerScan);
      ghost var m := innerScan.pos;
      var (t, s) := innerScan.Next();
      if s != OK { break; }
      innerScan := t;
      var innerRec := innerScan.Current().rec;
      status := ProbeOne(j, outer, a, b, inner, m, innerRec, joinHT, outputData, result, before, rest, out);
      if status != OK { return; }
    }
    TodoEnd(j, outer, a, b, inner, rest);
    return OK;
  }

  lemma TodoEnd(j: Join, outer: seq<Entry>, a: nat, b: nat, inner: seq<Entry>, rest: seq<Record>)
    requires a <= b <= |outer|
    ensures Todo(j, outer, a, b, inner, |inner|, rest) == rest
  {
    assert inner[|inner|..] == [] && RecordsOf([]) == [];
    assert [] + rest == rest;
  }

  lemma TodoStart(j: Join, outer: seq<Entry>, a: nat, b: nat, inner: seq<Entry>, rest: seq<Record>)
    requires a <= b <= |outer|
    ensures Todo(j, outer, a, b, inner, 0, rest) == BlockOut(j, outer, outer[a..b], RecordsOf(inner)) + rest
  {
    assert inner[0..] == inner;
  }

  lemma TodoStep(j: Join, outer: seq<Entry>, a: nat, b: nat, inner: seq<Entry>, m: nat, rest: seq<Record>)
    requires a <= b <= |outer| && m < |inner|
    ensures Todo(j, outer, a, b, inner, m, rest)
         == Fetched(j, outer, BlockRids(j, outer[a..b], inner[m].rec), inner[m].rec)
          + Todo(j, outer, a, b, inner, m + 1, rest)
  {
    assert RecordsOf(inner[m..])[1..] == RecordsOf(inner[m + 1..]);
  }

  /** One turn of the outer loop. With no tuples in a block the turn neither reads the outer relation nor ends the
      loop: an inner record makes the table without buckets divide by zero, and without one the loop is where
      it was. */
  method BlockTurn(j: Join, n: int, outer: seq<Entry>, inner: seq<Entry>, outerScan: Scan, outputData: array<byte>,
                   result: ResultRel,
                   ghost before: seq<Record>, ghost out: seq<Record>)
    returns (status: Status, next: Scan, endOfOuter: bool)
    requires Inputs(j, outer, inner) && n >= 0 && outputData.Length == RecLen(j.projs)
    requires outerScan.Valid() && outerScan.file == outer && outerScan.filter == NoFilter
    requires n > 0 ==>
      Progress(j.projs, before, result.recs, HashOut(j, outer, outer[outerScan.pos..], n, RecordsOf(inner)), out)
    modifies outputData, result
    ensures next.Valid() && next.file == outer && next.filter == NoFilter && outerScan.pos <= next.pos
    ensures n > 0 && status == OK ==>
      Progress(j.projs, before, result.recs,
               if endOfOuter then [] else HashOut(j, outer, outer[next.pos..], n, RecordsOf(inner)), out)
    ensures n > 0 && status == OK && !endOfOuter ==> outerScan.pos < next.pos
    ensures n > 0 && status != OK ==> Appended(j.projs, before, status, result.recs, out)
    ensures n == 0 ==> status == (if inner == [] then OK else DIVISIONBYZERO) && result.recs == old(result.recs)
    ensures n == 0 ==> next == outerScan && !endOfOuter
  {
    hide Covers, Progress, Appended, BlockOut, BlockPairs, Inputs, SourceOk, JoinHashTbl.Valid, TableSize, Todo;
    SortableInputs(j, outer, inner);
    Buckets(n);
    var joinHT := new JoinHashTbl(TableSize(n));
    ghost var a := outerScan.pos;
    next, endOfOuter := ReadBlock(j, outerScan, n, joinHT);
    ghost var rest: seq<Record> := [];
    if n > 0 {
      rest := if endOfOuter then [] else HashOut(j, outer, outer[next.pos..], n, RecordsOf(inner));
      HashOutStep(j, outer, a, n, RecordsOf(inner));
      TodoStart(j, outer, a, next.pos, inner, rest);
    }
    status := ProbeInner(j, outer, a, next.pos, inner, joinHT, outputData, result, before, rest, out);
  }

  /** The program is killed where it divides by zero: by a width of zero, or by the size of the table that serves
      tuples wider than a page. With such tuples and no inner record it never ends, as BlockTurn shows. */
  method QuHashJoin(j: Join, outerTupwidth: nat, outer: seq<Entry>, inner: seq<Entry>, result: ResultRel)
    returns (status: Status)
    requires Inputs(j, outer, inner)
    requires outerTupwidth > SlottedPage.DATA_SIZE ==> inner != []
    modifies result
    ensures outerTupwidth == 0 || outerTupwidth > SlottedPage.DATA_SIZE ==>
      status == DIVISIONBYZERO && result.recs == old(result.recs)
    ensures 0 < outerTupwidth <= SlottedPage.DATA_SIZE ==>
      && OuterTupsPerBlock(outerTupwidth) > 0
      && Appended(j.projs, old(result.recs), status, result.recs,
                  HashOut(j, outer, outer, OuterTupsPerBlock(outerTupwidth), RecordsOf(inner)))
  {
    hide Covers, Progress, Appended, BlockOut, Inputs, OuterTupsPerBlock;
    var outputData := new byte[RecLen(j.projs)];
    if outerTupwidth == 0 { return DIVISIONBYZERO; }
    BlockHoldsTuples(outerTupwidth);
    var n := OuterTupsPerBlock(outerTupwidth);
    ghost var before, out: seq<Record> := result.recs, [];
    assert outer[0..] == outer;
    if n > 0 {
      out := HashOut(j, outer, outer, n, RecordsOf(inner));
      ProgressStart(j.projs, before, out);
    }
    var outerScan := Open(outer, NoFilter);
    var endOfOuter := false;
    while !endOfOuter
      invariant outerScan.Valid() && outerScan.file == outer && outerScan.filter == NoFilter
      invariant n > 0 ==>
        Progress(j.projs, before, result.recs,
                 if endOfOuter then [] else HashOut(j, outer, outer[outerScan.pos..], n, RecordsOf(inner)), out)
      invariant n == 0 ==> !endOfOuter && result.recs == before
      decreases |outer| - outerScan.pos, !endOfOuter
    {
      status, outerScan, endOfOuter := BlockTurn(j, n, outer, inner, outerScan, outputData, result, before, out);
      if status != OK { return; }
    }
    ProgressEnd(j.projs, before, result.recs, out);
    return OK;
  }

  lemma HashOutStep(j: Join, source: seq<Entry>, a: nat, n: nat, inner: seq<Record>)
    requires a <= |source| && n > 0
    ensures HashOut(j, source, source[a..], n, inner) ==
            if |source| - a < n then BlockOut(j, source, source[a..|source|], inner) + []
            else BlockOut(j, source, source[a..a + n], inner) + HashOut(j, source, source[a + n..], n, inner)
  {
    assert source[a..|source|] == source[a..];
    if |source| - a >= n {
      assert source[a..][..n] == source[a..a + n] && source[a..][n..] == source[a + n..];
    }
  }
}
