/** The hash index of the buffer pool (bufHash.C): an array of linked bucket chains. */
module BufHash {
  import opened Statuses
  import opened DiskSpec

  class Bucket {
    const id: PageId
    const frameNo: int
    var next: Bucket?

    constructor (id: PageId, frameNo: int, next: Bucket?)
      ensures this.id == id && this.frameNo == frameNo && this.next == next
    {
      this.id, this.frameNo, this.next := id, frameNo, next;
    }
  }

  /** File ids and page numbers are non-negative, so the remainder is a bucket number. */
  function Hash(id: PageId, size: int): (h: int)
    requires size > 0
    ensures 0 <= h < size
  {
    (id.file + id.pageNo) % size
  }

  class BufHashTbl {
    const size: int
    const ht: array<Bucket?>
    ghost var chains: seq<seq<Bucket>>   // the buckets of each chain, in order
    ghost var buckets: set<Bucket>       // the buckets in use
    ghost var index: map<PageId, int>    // the mapping the table stands for

    static ghost function At(chain: seq<Bucket>, k: nat): Bucket? {
      if k < |chain| then chain[k] else null
    }

    static ghost predicate Among(chain: seq<Bucket>, buckets: set<Bucket>) {
      forall k :: 0 <= k < |chain| ==> chain[k] in buckets
    }

    static ghost predicate Linked(head: Bucket?, chain: seq<Bucket>)
      reads chain
    {
      head == At(chain, 0) && forall k :: 0 <= k < |chain| ==> chain[k].next == At(chain, k + 1)
    }

    /** Chain c holds exactly the entries of the mapping that hash to c, each once. */
    static ghost predicate Holds(chain: seq<Bucket>, c: int, size: int, index: map<PageId, int>)
      requires size > 0
    {
      && (forall k :: 0 <= k < |chain| ==>
            Hash(chain[k].id, size) == c && chain[k].id in index && index[chain[k].id] == chain[k].frameNo)
      && (forall j, k :: 0 <= j < k < |chain| ==> chain[j].id != chain[k].id)
      && (forall id :: id in index && Hash(id, size) == c ==> InChain(chain, id))
    }

    static ghost predicate InChain(chain: seq<Bucket>, id: PageId) {
      exists k :: 0 <= k < |chain| && chain[k].id == id
    }

    /** The chains are laid out by the next pointers. */
    ghost predicate Shape()
      reads this, ht, buckets
    {
      && size > 0 && ht.Length == size == |chains|
      && (forall c :: 0 <= c < size ==> Among(chains[c], buckets))
      && (forall c :: 0 <= c < size ==> Linked(ht[c], chains[c]))
    }

    ghost predicate Valid()
      reads this, ht, buckets
    {
      Shape() && forall c :: 0 <= c < size ==> Holds(chains[c], c, size, index)
    }

    constructor (htSize: int)
      requires htSize > 0
      ensures Valid() && fresh(ht) && buckets == {} && index == map[]
    {
      size := htSize;
      ht := new Bucket?[htSize](_ => null);
      chains := seq(htSize, _ => []);
      buckets := {};
      index := map[];
    }

    method Lookup(id: PageId) returns (status: Status, frameNo: int)
      requires Valid()
      ensures if id in index then status == OK && frameNo == index[id] else status == HASHNOTFOUND
    {
      frameNo := 0;
      var c := Hash(id, size);
      ghost var chain := chains[c];
      ghost var k: nat := 0;
      assert Linked(ht[c], chain) && Holds(chain, c, size, index);
      var tmpBuc := ht[c];
      while tmpBuc != null
        invariant k <= |chain| && tmpBuc == At(chain, k)
        invariant forall j :: 0 <= j < k ==> chain[j].id != id
        decreases |chain| - k
      {
        if tmpBuc.id == id { return OK, tmpBuc.frameNo; }
        tmpBuc := tmpBuc.next;
        k := k + 1;
      }
      return HASHNOTFOUND, frameNo;
    }

    static lemma HoldsOther(chain: seq<Bucket>, c: int, size: int, index: map<PageId, int>, index': map<PageId, int>)
      requires size > 0 && Holds(chain, c, size, index)
      requires forall id :: Hash(id, size) == c ==>
        (id in index' <==> id in index) && (id in index ==> index'[id] == index[id])
      ensures Holds(chain, c, size, index')
    {}

    static lemma HoldsPrepend(chain: seq<Bucket>, c: int, size: int, index: map<PageId, int>, b: Bucket)
      requires size > 0 && Holds(chain, c, size, index)
      requires Hash(b.id, size) == c && b.id !in index
      ensures Holds([b] + chain, c, size, index[b.id := b.frameNo])
    {
      var longer := [b] + chain;
      forall id | id in index[b.id := b.frameNo] && Hash(id, size) == c
        ensures InChain(longer, id)
      {
        if id == b.id {
          assert longer[0].id == id;
        } else {
          assert InChain(chain, id);
          var k :| 0 <= k < |chain| && chain[k].id == id;
          assert longer[k + 1].id == id;
        }
      }
    }

    static lemma AllHoldInsert(chains: seq<seq<Bucket>>, size: int, index: map<PageId, int>, c: int, b: Bucket)
      requires |chains| == size > 0 && 0 <= c < size && Hash(b.id, size) == c && b.id !in index
      requires forall d :: 0 <= d < size ==> Holds(chains[d], d, size, index)
      ensures var more := chains[c := [b] + chains[c]];
              forall d :: 0 <= d < size ==> Holds(more[d], d, size, index[b.id := b.frameNo])
    {
      assert Holds(chains[c], c, size, index);
      HoldsPrepend(chains[c], c, size, index, b);
      forall d | 0 <= d < size && d != c
        ensures Holds(chains[d], d, size, index[b.id := b.frameNo])
      {
        assert Holds(chains[d], d, size, index);
        HoldsOther(chains[d], d, size, index, index[b.id := b.frameNo]);
      }
    }

    /** Make a bucket that points to the head of chain c the new head. */
    method Prepend(c: int, tmpBuc: Bucket)
      requires Shape() && 0 <= c < size && tmpBuc.next == ht[c]
      modifies this`chains, this`buckets, ht
      ensures Shape() && buckets == old(buckets) + {tmpBuc}
      ensures chains == old(chains)[c := [tmpBuc] + old(chains)[c]]
    {
      ghost var chain := chains[c];
      assert Linked(ht[c], chain) && Among(chain, buckets);
      ht[c] := tmpBuc;
      assert Linked(tmpBuc, [tmpBuc] + chain);
      chains := chains[c := [tmpBuc] + chain];
      buckets := buckets + {tmpBuc};
      forall d | 0 <= d < size && d != c
        ensures Among(chains[d], buckets) && Linked(ht[d], chains[d])
      {
        assert old(Among(chains[d], buckets) && Linked(ht[d], chains[d]));
      }
    }

    method Insert(id: PageId, frameNo: int) returns (status: Status)
      requires Valid()
      modifies this`chains, this`buckets, this`index, ht
      ensures Valid() && fresh(buckets - old(buckets))
      ensures status == if id in old(index) then HASHTBLERROR else OK
      ensures index == if status == OK then old(index)[id := frameNo] else old(index)
    {
      hide Hash, InChain, Holds;
      var c := Hash(id, size);
      var dup, _ := Lookup(id);
      if dup == OK { return HASHTBLERROR; }
      var tmpBuc := new Bucket(id, frameNo, ht[c]);
      AllHoldInsert(chains, size, index, c, tmpBuc);
      Prepend(c, tmpBuc);
      index := index[id := frameNo];
      return OK;
    }

    static ghost function Without(chain: seq<Bucket>, k: int): seq<Bucket>
      requires 0 <= k < |chain|
    {
      chain[..k] + chain[k + 1..]
    }

    static lemma HoldsRemove(chain: seq<Bucket>, c: int, size: int, index: map<PageId, int>, k: int)
      requires size > 0 && Holds(chain, c, size, index) && 0 <= k < |chain|
      ensures Holds(Without(chain, k), c, size, index - {chain[k].id})
    {
      var shorter := Without(chain, k);
      forall id | id in index && id != chain[k].id && Hash(id, size) == c
        ensures InChain(shorter, id)
      {
        assert InChain(chain, id);
        var j :| 0 <= j < |chain| && chain[j].id == id;
        assert shorter[if j < k then j else j - 1].id == id;
      }
    }

    /** Redirect the pointer to tmpBuc, bucket k of chain c, past it. */
    method Unlink(c: int, ghost k: nat, prevBuc: Bucket, tmpBuc: Bucket)
      requires Shape() && 0 <= c < size && k < |chains[c]| && tmpBuc == chains[c][k]
      requires k > 0 ==> prevBuc == chains[c][k - 1] && chains[c][0] != tmpBuc
      requires forall d, j :: 0 <= d < size && 0 <= j < |chains[d]| && chains[d][j] == prevBuc ==>
        d == c && (j == k - 1 || k == 0)
      modifies this`chains, ht, prevBuc`next
      ensures Shape() && chains == old(chains)[c := Without(old(chains)[c], k)]
    {
      ghost var chain := chains[c];
      assert Linked(ht[c], chain) && Among(chain, buckets);
      if tmpBuc == ht[c] {
        ht[c] := tmpBuc.next;
      } else {
        prevBuc.next := tmpBuc.next;
      }
      assert Linked(ht[c], Without(chain, k));
      chains := chains[c := Without(chain, k)];
      forall d | 0 <= d < size && d != c
        ensures Among(chains[d], buckets) && Linked(ht[d], chains[d])
      {
        assert old(Among(chains[d], buckets) && Linked(ht[d], chains[d]));
      }
    }

    static lemma AllHoldRemove(chains: seq<seq<Bucket>>, size: int, index: map<PageId, int>, c: int, k: int)
      requires |chains| == size > 0 && 0 <= c < size && 0 <= k < |chains[c]|
      requires forall d :: 0 <= d < size ==> Holds(chains[d], d, size, index)
      ensures var rest := chains[c := Without(chains[c], k)];
              forall d :: 0 <= d < size ==> Holds(rest[d], d, size, index - {chains[c][k].id})
      ensures forall d, j :: 0 <= d < size && 0 <= j < |chains[d]| && d != c ==> chains[d][j].id != chains[c][k].id
      ensures forall j :: 0 <= j < |chains[c]| && j != k ==> chains[c][j].id != chains[c][k].id
    {
      var id := chains[c][k].id;
      assert Holds(chains[c], c, size, index);
      HoldsRemove(chains[c], c, size, index, k);
      forall d | 0 <= d < size && d != c
        ensures Holds(chains[d], d, size, index - {id})
        ensures forall j :: 0 <= j < |chains[d]| ==> chains[d][j].id != id
      {
        assert Holds(chains[d], d, size, index);
        HoldsOther(chains[d], d, size, index, index - {id});
      }
    }

    method Splice(c: int, ghost k: nat, prevBuc: Bucket, tmpBuc: Bucket)
      requires Valid() && 0 <= c < size && k < |chains[c]| && tmpBuc == chains[c][k]
      requires prevBuc == chains[c][if k > 0 then k - 1 else 0]
      modifies this`chains, this`index, ht, prevBuc`next
      ensures Valid() && index == old(index) - {tmpBuc.id}
    {
      hide Hash, InChain, Holds;
      AllHoldRemove(chains, size, index, c, k);
      AllHoldRemove(chains, size, index, c, if k > 0 then k - 1 else 0);
      Unlink(c, k, prevBuc, tmpBuc);
      index := index - {tmpBuc.id};
    }

    method Remove(id: PageId) returns (status: Status)
      requires Valid()
      modifies this`chains, this`index, ht, buckets
      ensures Valid()
      ensures status == if id in old(index) then OK else HASHTBLERROR
      ensures index == old(index) - {id}
    {
      var c := Hash(id, size);
      var tmpBuc := ht[c];
      var prevBuc := ht[c];
      ghost var chain := chains[c];
      ghost var k: nat := 0;
      assert Linked(ht[c], chain) && Holds(chain, c, size, index) && Among(chain, buckets);
      while tmpBuc != null
        invariant k <= |chain| && tmpBuc == At(chain, k)
        invariant prevBuc == At(chain, if k == 0 then 0 else k - 1)
        invariant forall j :: 0 <= j < k ==> chain[j].id != id
        decreases |chain| - k
      {
        if tmpBuc.id == id {
          Splice(c, k, prevBuc, tmpBuc);
          return OK;
        }
        prevBuc := tmpBuc;
        tmpBuc := tmpBuc.next;
        k := k + 1;
      }
      return HASHTBLERROR;
    }
  }
}
