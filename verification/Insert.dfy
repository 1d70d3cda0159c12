/** QU_Insert (phase 6, insert.C): lay out the attribute values of a tuple as the catalog says and append it. */
module InsertOperator {
  import opened Bytes
  import opened Statuses
  import opened DiskSpec
  import opened Clock
  import opened PoolSpec
  import opened Buffer
  import opened ScanSpec
  import opened HeapSpec
  import opened HeapPool
  import opened HeapSessions
  import opened HeapFiles
  import opened JoinResults
  import SlottedPage

  /** A catalog entry, and a value with the name of its attribute, already decoded to bytes. */
  datatype AttrDesc = AttrDesc(name: int, offset: nat, len: nat)
  datatype AttrValue = AttrValue(name: int, value: Record)

  /** The attributes lie one after the other from offset at on. */
  ghost predicate Tiled(attrs: seq<AttrDesc>, at: nat) {
    attrs == [] || (attrs[0].offset == at && Tiled(attrs[1..], at + attrs[0].len))
  }

  function Width(attrs: seq<AttrDesc>): nat {
    if attrs == [] then 0 else attrs[0].len + Width(attrs[1..])
  }

  ghost predicate CatalogOk(attrs: seq<AttrDesc>) {
    Tiled(attrs, 0) && forall i, j :: 0 <= i < j < |attrs| ==> attrs[i].name != attrs[j].name
  }

  /** How often the list names an attribute. */
  function Given(list: seq<AttrValue>, name: int): nat {
    if list == [] then 0 else (if list[0].name == name then 1 else 0) + Given(list[1..], name)
  }

  /** Every attribute of the relation is given exactly once. */
  ghost predicate Complete(attrs: seq<AttrDesc>, list: seq<AttrValue>) {
    forall j :: 0 <= j < |attrs| ==> Given(list, attrs[j].name) == 1
  }

  function ValueOf(list: seq<AttrValue>, name: int): Record {
    if list == [] then [] else if list[0].name == name then list[0].value else ValueOf(list[1..], name)
  }

  /** The values in the order of the catalog, each cut to the length of its attribute. */
  function Row(attrs: seq<AttrDesc>, list: seq<AttrValue>): Record {
    if attrs == [] then []
    else
      var v := ValueOf(list, attrs[0].name);
      (if attrs[0].len <= |v| then v[..attrs[0].len] else v) + Row(attrs[1..], list)
  }

  // ----- the length of the record -----

  /** The length the first pair of loops computes: an attribute counts as often as it is given. */
  function GivenLen(attrs: seq<AttrDesc>, list: seq<AttrValue>): nat {
    if attrs == [] then 0 else Given(list, attrs[0].name) * attrs[0].len + GivenLen(attrs[1..], list)
  }

  lemma {:induction false} CompleteLen(attrs: seq<AttrDesc>, list: seq<AttrValue>)
    requires Complete(attrs, list)
    ensures GivenLen(attrs, list) == Width(attrs)
  {
    if attrs != [] {
      assert Given(list, attrs[0].name) == 1;
      assert forall j :: 0 <= j < |attrs[1..]| ==> attrs[1..][j] == attrs[j + 1];
      CompleteLen(attrs[1..], list);
    }
  }

  method RecordLen(attrs: seq<AttrDesc>, list: seq<AttrValue>) returns (len: nat)
    ensures len == GivenLen(attrs, list)
  {
    len := 0;
    var i := 0;
    while i < |attrs|
      invariant 0 <= i <= |attrs| && len + GivenLen(attrs[i..], list) == GivenLen(attrs, list)
    {
      ghost var start := len;
      var j := 0;
      while j < |list|
        invariant 0 <= j <= |list|
        invariant len + Given(list[j..], attrs[i].name) * attrs[i].len
               == start + Given(list, attrs[i].name) * attrs[i].len
      {
        assert list[j..][1..] == list[j + 1..];
        if attrs[i].name == list[j].name {
          OneMoreTime(Given(list[j + 1..], attrs[i].name), attrs[i].len);
          len := len + attrs[i].len;
        }
        j := j + 1;
      }
      assert attrs[i..][1..] == attrs[i + 1..];
      i := i + 1;
    }
  }

  lemma OneMoreTime(n: nat, len: nat)
    ensures (1 + n) * len == n * len + len
  {}

  // ----- the bytes of the record -----

  /** Every copy stays within the record and within its value. */
  ghost predicate CopiesFit(attrs: seq<AttrDesc>, list: seq<AttrValue>, len: nat) {
    forall i, j :: 0 <= i < |list| && 0 <= j < |attrs| && list[i].name == attrs[j].name ==>
      attrs[j].offset + attrs[j].len <= len && attrs[j].len <= |list[i].value|
  }

  ghost predicate HasValue(attr: AttrDesc, value: Record, data: seq<byte>) {
    && attr.offset + attr.len <= |data|
    && attr.len <= |value|
    && data[attr.offset..attr.offset + attr.len] == value[..attr.len]
  }

  /** Before the loops reach value i and attribute j. */
  predicate Earlier(i: int, j: int, i': int, j': int) { i' < i || (i' == i && j' < j) }

  ghost predicate Placed(attrs: seq<AttrDesc>, list: seq<AttrValue>, data: seq<byte>, i: int, j: int) {
    forall i', j' :: 0 <= i' < |list| && 0 <= j' < |attrs| && Earlier(i, j, i', j') ==>
      list[i'].name == attrs[j'].name ==> HasValue(attrs[j'], list[i'].value, data)
  }

  lemma {:induction false} GivenAt(list: seq<AttrValue>, name: int, i: nat)
    requires i < |list| && list[i].name == name
    ensures Given(list, name) >= 1
  {
    if i > 0 {
      GivenAt(list[1..], name, i - 1);
    }
  }

  lemma {:induction false} GivenTwice(list: seq<AttrValue>, name: int, i: nat, k: nat)
    requires i < k < |list| && list[i].name == name == list[k].name
    ensures Given(list, name) >= 2
  {
    if i > 0 {
      GivenTwice(list[1..], name, i - 1, k - 1);
    } else {
      GivenAt(list[1..], name, k - 1);
    }
  }

  lemma {:induction false} TiledApart(attrs: seq<AttrDesc>, at: nat, i: nat, j: nat)
    requires Tiled(attrs, at) && i < j < |attrs|
    ensures attrs[i].offset + attrs[i].len <= attrs[j].offset
  {
    if i > 0 {
      TiledApart(attrs[1..], at + attrs[0].len, i - 1, j - 1);
    } else {
      TiledFrom(attrs[1..], at + attrs[0].len, j - 1);
    }
  }

  lemma {:induction false} TiledFrom(attrs: seq<AttrDesc>, at: nat, j: nat)
    requires Tiled(attrs, at) && j < |attrs|
    ensures at <= attrs[j].offset
  {
    if j > 0 {
      TiledFrom(attrs[1..], at + attrs[0].len, j - 1);
    }
  }

  /** Copying a value does not disturb those copied before. */
  lemma PlacedStep(attrs: seq<AttrDesc>, list: seq<AttrValue>, data: seq<byte>, i: nat, j: nat, data': seq<byte>)
    requires CatalogOk(attrs) && Complete(attrs, list) && Placed(attrs, list, data, i, j)
    requires i < |list| && j < |attrs| && list[i].name == attrs[j].name && |data'| == |data|
    requires HasValue(attrs[j], list[i].value, data')
    requires forall k :: 0 <= k < |data| && !(attrs[j].offset <= k < attrs[j].offset + attrs[j].len) ==>
      data'[k] == data[k]
    ensures Placed(attrs, list, data', i, j + 1)
  {
    forall i', j' | 0 <= i' < |list| && 0 <= j' < |attrs| && Earlier(i, j + 1, i', j')
                    && list[i'].name == attrs[j'].name
      ensures HasValue(attrs[j'], list[i'].value, data')
    {
      if j' == j {
        if i' < i {
          GivenTwice(list, attrs[j].name, i', i);
        }
      } else {
        assert HasValue(attrs[j'], list[i'].value, data);
        TiledApart(attrs, 0, if j' < j then j' else j, if j' < j then j else j');
      }
    }
  }

  /** The second pair of loops: copy every value to the offset of its attribute. */
  method FillRecord(attrs: seq<AttrDesc>, list: seq<AttrValue>, data: array<byte>)
    requires CopiesFit(attrs, list, data.Length)
    modifies data
    ensures CatalogOk(attrs) && Complete(attrs, list) ==> Placed(attrs, list, data[..], |list|, 0)
  {
    hide CatalogOk, Complete, HasValue;
    ghost var ok := CatalogOk(attrs) && Complete(attrs, list);
    var i := 0;
    while i < |list|
      invariant 0 <= i <= |list| && (ok ==> Placed(attrs, list, data[..], i, 0))
    {
      var j := 0;
      while j < |attrs|
        invariant 0 <= j <= |attrs| && (ok ==> Placed(attrs, list, data[..], i, j))
      {
        if list[i].name == attrs[j].name {
          ghost var was := data[..];
          PutValue(attrs[j], list[i].value, data);
          if ok {
            PlacedStep(attrs, list, was, i, j, data[..]);
          }
        }
        j := j + 1;
      }
      i := i + 1;
    }
  }

  method PutValue(attr: AttrDesc, value: Record, data: array<byte>)
    requires attr.offset + attr.len <= data.Length && attr.len <= |value|
    modifies data
    ensures HasValue(attr, value, data[..])
    ensures forall k :: 0 <= k < data.Length && !(attr.offset <= k < attr.offset + attr.len) ==> data[k] == old(data[k])
  {
    forall k | 0 <= k < attr.len {
      data[attr.offset + k] := value[k];
    }
  }

  // ----- the tuple -----

  lemma {:induction false} GivenHasIndex(list: seq<AttrValue>, name: int) returns (i: nat)
    requires Given(list, name) >= 1
    ensures i < |list| && list[i].name == name && list[i].value == ValueOf(list, name)
  {
    if list[0].name == name {
      i := 0;
    } else {
      i := GivenHasIndex(list[1..], name);
      i := i + 1;
    }
  }

  lemma {:induction false} PlacedIsRow(attrs: seq<AttrDesc>, list: seq<AttrValue>, data: seq<byte>, at: nat)
    requires Tiled(attrs, at) && Complete(attrs, list) && Placed(attrs, list, data, |list|, 0)
    requires at + Width(attrs) == |data|
    ensures data[at..] == Row(attrs, list)
  {
    if attrs != [] {
      var i := GivenHasIndex(list, attrs[0].name);
      assert HasValue(attrs[0], list[i].value, data);
      assert forall j :: 0 <= j < |attrs[1..]| ==> attrs[1..][j] == attrs[j + 1];
      PlacedIsRow(attrs[1..], list, data, at + attrs[0].len);
      assert data[at..] == data[at..at + attrs[0].len] + data[at + attrs[0].len..];
    }
  }

  /** Byte b of an attribute is byte b of its value and stands that far behind the offset in the catalog. */
  ghost predicate LaidOut(attrs: seq<AttrDesc>, list: seq<AttrValue>, rec: Record) {
    forall i, j, b :: 0 <= i < |list| && 0 <= j < |attrs| && list[i].name == attrs[j].name && 0 <= b < attrs[j].len ==>
      ByteOf(attrs[j], list[i].value, rec, b)
  }

  ghost predicate ByteOf(attr: AttrDesc, value: Record, rec: Record, b: nat) {
    b < |value| && attr.offset + b < |rec| && rec[attr.offset + b] == value[b]
  }

  lemma PlacedIsLaidOut(attrs: seq<AttrDesc>, list: seq<AttrValue>, rec: Record)
    requires Placed(attrs, list, rec, |list|, 0)
    ensures LaidOut(attrs, list, rec)
  {
    forall i, j, b | 0 <= i < |list| && 0 <= j < |attrs| && list[i].name == attrs[j].name && 0 <= b < attrs[j].len
      ensures ByteOf(attrs[j], list[i].value, rec, b)
    {
      var a, v := attrs[j], list[i].value;
      assert HasValue(a, v, rec);
      assert rec[a.offset..a.offset + a.len][b] == v[..a.len][b];
    }
  }

  /** Build the record of a tuple. */
  method BuildRecord(attrs: seq<AttrDesc>, list: seq<AttrValue>) returns (rec: Record)
    requires CopiesFit(attrs, list, GivenLen(attrs, list))
    ensures |rec| == GivenLen(attrs, list)
    ensures CatalogOk(attrs) && Complete(attrs, list) ==> rec == Row(attrs, list) && LaidOut(attrs, list, rec)
  {
    var len := RecordLen(attrs, list);
    var data := new byte[len];
    FillRecord(attrs, list, data);
    rec := data[..];
    if CatalogOk(attrs) && Complete(attrs, list) {
      CompleteLen(attrs, list);
      PlacedIsRow(attrs, list, rec, 0);
      PlacedIsLaidOut(attrs, list, rec);
      assert rec[0..] == rec;
    }
  }

  /** Append a tuple to a relation: one record is added, the pool is left as it was found. */
  method QuInsert(bm: BufMgr, f: nat, others: nat, ghost h: Heap, attrs: seq<AttrDesc>, list: seq<AttrValue>)
    returns (status: Status, ghost rec: Record, ghost rid: RID, ghost out: Heap)
    requires bm.Valid() && Inv(h) && Settled(bm.View(), f, h) && h.hdrNo == 1 && Unpinned(bm.View(), f, h.chain)
    requires others == 0 ==> Idle(bm.View(), f)
    requires |PinnedPages(bm.View())| + 2 <= bm.numBufs && CopiesFit(attrs, list, GivenLen(attrs, list))
    modifies bm.Repr()
    ensures bm.Valid() && fresh(bm.Repr() - old(bm.Repr())) && SamePins(old(bm.View()), bm.View())
    ensures Inv(out) && Settled(bm.View(), f, out) && (others == 0 ==> OnDisk(bm.View(), f, out))
    ensures |rec| == GivenLen(attrs, list)
    ensures CatalogOk(attrs) && Complete(attrs, list) ==> rec == Row(attrs, list) && LaidOut(attrs, list, rec)
    ensures if status == OK then Inserted(Entries(h.pages), Entries(out.pages), rid, rec)
            else Entries(out.pages) == Entries(h.pages)
    ensures status == OK ==> Insertable(|rec|)
    ensures status != OK && Insertable(|rec|) ==> old(|PinnedPages(bm.View())|) + 2 == bm.numBufs
  {
    hide BufMgr.Linked, BufMgr.View, PoolSpec.Ok, HeapSpec.Inv, HeapSpec.Entries, HeapFile.Valid, HeapFile.CursorOk,
         HeapFile.Hd, HeapFile.AtLast, HeapPool.Quiet, HeapPool.Settled, HeapPool.CanOpen, HeapPool.Idle,
         HeapPool.OnDisk;
    hide Unpinned, PinnedPages, SamePins, Inserted, CopiesFit, CatalogOk, Complete, LaidOut, PoolSpec.Exhausted;
    var tuple := BuildRecord(attrs, list);
    rec := tuple;
    ghost var p, hd := bm.View(), Closed(f, 1);
    FirstCanOpen(bm, f, h);
    var ifs := OpenAppender(bm, f, h);
    ghost var q, hd' := bm.View(), ifs.Hd();
    RoomForOne(p, hd, ifs);
    status, rid := AppendTuple(ifs, tuple);
    QuietCompose(p, hd, q, hd', bm.View(), ifs.Hd());
    out := ifs.heap;
    EndSession(ifs, true, others, p);
  }

  lemma RoomForOne(p: Pool, hd: Handle, ifs: HeapFile)
    requires PoolSpec.Ok(p) && ifs.Valid() && Quiet(p, hd, ifs.bm.View(), ifs.Hd())
    ensures |PinnedPages(p)| + 3 <= ifs.bm.numBufs ==> !PoolSpec.Exhausted(ifs.bm.View())
  {
    PinnedByOpen(p, hd, ifs.bm.View(), ifs.Hd());
    if |PinnedPages(p)| + 3 <= ifs.bm.numBufs {
      NotFull(ifs.bm.View());
    }
  }
}
