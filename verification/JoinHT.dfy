/** The hash table of the block hash join (joinHT.h, joinHT.C), for an INTEGER attribute. */
module JoinHash {
  import opened Bytes
  import opened Statuses

  /** A join attribute value and the record it was found in. */
  datatype Pair = Pair(attrValue: int, rid: RID)

  /** The products wrap around, % truncates towards zero, and abs makes the result a bucket number. */
  function Hash(key: int, size: int): (h: int)
    requires size > 0
    ensures 0 <= h < size
  {
    var value := Wrap32(Wrap32(key * size) * 31);
    (if value < 0 then -value else value) % size
  }

  /** The pairs whose value hashes to c. */
  function Bucketed(ps: seq<Pair>, c: int, size: int): seq<Pair>
    requires size > 0
  {
    if ps == [] then []
    else if Hash(ps[0].attrValue, size) == c then [ps[0]] + Bucketed(ps[1..], c, size) else Bucketed(ps[1..], c, size)
  }

  /** The record ids paired with a value. */
  function MatchingRids(ps: seq<Pair>, key: int): seq<RID> {
    if ps == [] then []
    else if ps[0].attrValue == key then [ps[0].rid] + MatchingRids(ps[1..], key) else MatchingRids(ps[1..], key)
  }

  /** Looking at one chain loses no match. */
  lemma {:induction false} ChainHasAllMatches(ps: seq<Pair>, key: int, size: int)
    requires size > 0
    ensures MatchingRids(Bucketed(ps, Hash(key, size), size), key) == MatchingRids(ps, key)
  {
    if ps != [] {
      ChainHasAllMatches(ps[1..], key, size);
      var c := Hash(key, size);
      if Hash(ps[0].attrValue, size) == c {
        var rest := Bucketed(ps[1..], c, size);
        assert ([ps[0]] + rest)[1..] == rest;
      }
    }
  }

  class HashBucket {
    const pair: Pair
    const next: HashBucket?

    constructor (pair: Pair, next: HashBucket?)
      ensures this.pair == pair && this.next == next
    {
      this.pair, this.next := pair, next;
    }
  }

  class JoinHashTbl {
    const size: nat
    const bucketCnt: array<int>
    const chain: array<HashBucket?>
    ghost var pairs: seq<Pair>                // everything inserted, latest first
    ghost var chains: seq<seq<HashBucket>>    // the buckets of each chain, in order

    static ghost function At(bs: seq<HashBucket>, k: nat): HashBucket? {
      if k < |bs| then bs[k] else null
    }

    static ghost predicate Linked(head: HashBucket?, bs: seq<HashBucket>) {
      head == At(bs, 0) && forall k :: 0 <= k < |bs| ==> bs[k].next == At(bs, k + 1)
    }

    static ghost function PairsOf(bs: seq<HashBucket>): seq<Pair> {
      seq(|bs|, k requires 0 <= k < |bs| => bs[k].pair)
    }

    ghost predicate Valid()
      reads this, bucketCnt, chain
    {
      && bucketCnt.Length == chain.Length == size == |chains|
      && (forall c :: 0 <= c < size ==> Linked(chain[c], chains[c]) && bucketCnt[c] == |chains[c]|)
      && (forall c :: 0 <= c < size ==> PairsOf(chains[c]) == Bucketed(pairs, c, size))
    }

    constructor (size: nat)
      ensures Valid() && this.size == size && pairs == [] && fresh(bucketCnt) && fresh(chain)
    {
      this.size := size;
      bucketCnt := new int[size](_ => 0);
      chain := new HashBucket?[size](_ => null);
      pairs := [];
      chains := seq(size, _ => []);
    }

    /** A table without buckets has nothing to divide by. */
    method Insert(newRid: RID, attrValue: int) returns (status: Status)
      requires Valid()
      modifies this`pairs, this`chains, bucketCnt, chain
      ensures Valid() && status == if size == 0 then DIVISIONBYZERO else OK
      ensures pairs == if status == OK then [Pair(attrValue, newRid)] + old(pairs) else old(pairs)
    {
      if size == 0 { return DIVISIONBYZERO; }
      status := OK;
      var index := Hash(attrValue, size);
      var pair := Pair(attrValue, newRid);
      var tmpBuc := new HashBucket(pair, chain[index]);
      assert Linked(chain[index], chains[index]);
      assert PairsOf([tmpBuc] + chains[index]) == [pair] + PairsOf(chains[index]);
      assert ([pair] + pairs)[1..] == pairs;
      chain[index] := tmpBuc;
      bucketCnt[index] := bucketCnt[index] + 1;
      chains := chains[index := [tmpBuc] + chains[index]];
      pairs := [pair] + pairs;
    }

    /** The ids of all records inserted with a value, in an array that one chain never overflows. */
    method Lookup(attrValue: int) returns (status: Status, ridCnt: int, outRids: array<RID>)
      requires Valid()
      ensures status == if size == 0 then DIVISIONBYZERO else OK
      ensures fresh(outRids) && 0 <= ridCnt <= outRids.Length
      ensures status == OK ==> outRids[..ridCnt] == MatchingRids(pairs, attrValue)
    {
      hide Hash, Bucketed;
      if size == 0 { return DIVISIONBYZERO, 0, new RID[0]; }
      status := OK;
      var index := Hash(attrValue, size);
      ghost var bs := chains[index];
      assert Linked(chain[index], bs) && bucketCnt[index] == |bs|;
      ghost var ps := PairsOf(bs);
      outRids := new RID[bucketCnt[index]](_ => NULLRID);
      ridCnt := 0;
      var tmpBuc := chain[index];
      ghost var k: nat := 0;
      while tmpBuc != null
        invariant k <= |bs| && tmpBuc == At(bs, k) && 0 <= ridCnt <= k
        invariant outRids[..ridCnt] + MatchingRids(ps[k..], attrValue) == MatchingRids(ps, attrValue)
        decreases |bs| - k
      {
        assert ps[k..][1..] == ps[k + 1..];
        if tmpBuc.pair.attrValue == attrValue {
          outRids[ridCnt] := tmpBuc.pair.rid;
          ridCnt := ridCnt + 1;
        }
        tmpBuc := tmpBuc.next;
        k := k + 1;
      }
      assert ps == Bucketed(pairs, index, size);
      ChainHasAllMatches(pairs, attrValue, size);
    }
  }
}
