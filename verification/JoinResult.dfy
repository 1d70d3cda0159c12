/** The output of a join (join.C): building tuples and adding them to the result relation. */
module JoinResults {
  import opened Bytes
  import opened Statuses
  import opened ScanSpec
  import opened Sorting
  import opened JoinSpecs
  import SlottedPage

  /** The output relation: an InsertFileScan on a heap file with a frame to spare. */
  class ResultRel {
    var recs: seq<Record>

    method InsertRecord(rec: Record) returns (status: Status)
      modifies this
      ensures status == if |rec| > SlottedPage.DATA_SIZE then INVALIDRECLEN
                        else if Insertable(|rec|) then OK else NOSPACE
      ensures recs == if status == OK then old(recs) + [rec] else old(recs)
    {
      if |rec| > SlottedPage.DATA_SIZE { return INVALIDRECLEN; }
      if |rec| + SlottedPage.SLOT_SIZE > SlottedPage.DATA_SIZE { return NOSPACE; }
      recs := recs + [rec];
      return OK;
    }
  }

  predicate Insertable(len: nat) {
    len + SlottedPage.SLOT_SIZE <= SlottedPage.DATA_SIZE
  }

  /** The records hold their join attributes and every projected attribute. */
  ghost predicate Inputs(j: Join, outer: seq<Entry>, inner: seq<Entry>) {
    && SourceOk(outer, j.off1) && SourceOk(inner, j.off2)
    && forall a, b :: 0 <= a < |outer| && 0 <= b < |inner| ==> Covers(j.rel1, j.projs, outer[a].rec, inner[b].rec)
  }

  // ----- one output tuple -----

  method Memcpy(dst: array<byte>, at: nat, src: Record)
    requires at + |src| <= dst.Length
    modifies dst
    ensures dst[..at + |src|] == old(dst[..at]) + src
  {
    forall k | 0 <= k < |src| {
      dst[at + k] := src[k];
    }
  }

  function AttrBytes(rel1: int, attr: Attr, o: Record, i: Record): Record {
    Field(if attr.relName == rel1 then o else i, attr.offset, attr.len)
  }

  lemma NextAttr(rel1: int, projs: seq<Attr>, o: Record, i: Record, k: nat)
    requires Covers(rel1, projs, o, i) && k < |projs|
    ensures var src := AttrBytes(rel1, projs[k], o, i);
            && |src| == projs[k].len && RecLen(projs[k..]) == |src| + RecLen(projs[k + 1..])
            && Project(rel1, projs[k..], o, i) == src + Project(rel1, projs[k + 1..], o, i)
  {
    assert projs[k..][1..] == projs[k + 1..];
  }

  lemma NoAttr(rel1: int, projs: seq<Attr>, o: Record, i: Record)
    ensures projs[0..] == projs
    ensures RecLen(projs[|projs|..]) == 0 && Project(rel1, projs[|projs|..], o, i) == []
  {}

  /** The loop that copies the projected attributes into the output buffer. */
  method CopyAttrs(rel1: int, projs: seq<Attr>, o: Record, i: Record, outputData: array<byte>)
    requires Covers(rel1, projs, o, i) && outputData.Length == RecLen(projs)
    modifies outputData
    ensures outputData[..] == Project(rel1, projs, o, i)
    ensures Projects(rel1, projs, o, i, outputData[..])
  {
    ProjectIsBytes(rel1, projs, o, i);
    hide RecLen, Project, AttrBytes, Covers;
    NoAttr(rel1, projs, o, i);
    ghost var all := Project(rel1, projs, o, i);
    var outputOffset := 0;
    ghost var copied: Record := [];
    var k := 0;
    while k < |projs|
      invariant 0 <= k <= |projs| && 0 <= outputOffset && outputOffset + RecLen(projs[k..]) == outputData.Length
      invariant copied == outputData[..outputOffset]
      invariant copied + Project(rel1, projs[k..], o, i) == all
    {
      NextAttr(rel1, projs, o, i, k);
      var src := AttrBytes(rel1, projs[k], o, i);
      Memcpy(outputData, outputOffset, src);
      Regroup(copied, src, Project(rel1, projs[k + 1..], o, i));
      copied := copied + src;
      outputOffset := outputOffset + |src|;
      k := k + 1;
    }
    Whole(copied, outputData[..]);
  }

  lemma Regroup(a: Record, b: Record, c: Record)
    ensures a + (b + c) == a + b + c
  {}

  lemma Whole(a: Record, b: Record)
    requires |a| == |b| && a == b[..|a|]
    ensures a + [] == b
  {}

  /** Build an output tuple and add it to the result. */
  method Emit(j: Join, o: Record, i: Record, outputData: array<byte>, result: ResultRel) returns (status: Status)
    requires Covers(j.rel1, j.projs, o, i) && outputData.Length == RecLen(j.projs)
    modifies outputData, result
    ensures status == OK <==> Insertable(RecLen(j.projs))
    ensures result.recs == old(result.recs) + if status == OK then [Project(j.rel1, j.projs, o, i)] else []
  {
    CopyAttrs(j.rel1, j.projs, o, i, outputData);
    ProjectLength(j.rel1, j.projs, o, i);
    status := result.InsertRecord(outputData[..]);
  }

  /** What a join leaves in the result: everything, or nothing when the first tuple cannot be inserted, where
      ASSERT ends the program. */
  ghost predicate Appended(projs: seq<Attr>, before: seq<Record>, status: Status, after: seq<Record>,
                           out: seq<Record>) {
    if Insertable(RecLen(projs)) || out == [] then status == OK && after == before + out
    else status == ASSERTFAILED && after == before
  }

  /** A join under way: what is there, and what is still to come. */
  ghost predicate Progress(projs: seq<Attr>, before: seq<Record>, now: seq<Record>, todo: seq<Record>,
                           out: seq<Record>) {
    now + todo == before + out && (!Insertable(RecLen(projs)) ==> now == before)
  }

  lemma ProgressEnd(projs: seq<Attr>, before: seq<Record>, now: seq<Record>, out: seq<Record>)
    requires Progress(projs, before, now, [], out)
    ensures Appended(projs, before, OK, now, out)
  {
    assert now + [] == now;
    if now == before {
      assert |out| == 0;
    }
  }

  lemma ProgressStep(projs: seq<Attr>, before: seq<Record>, now: seq<Record>, t: Record, todo: seq<Record>,
                     out: seq<Record>)
    requires Progress(projs, before, now, [t] + todo, out) && Insertable(RecLen(projs))
    ensures Progress(projs, before, now + [t], todo, out)
  {
    assert now + ([t] + todo) == now + [t] + todo;
  }

  lemma ProgressFails(projs: seq<Attr>, before: seq<Record>, now: seq<Record>, t: Record, todo: seq<Record>,
                      out: seq<Record>)
    requires Progress(projs, before, now, [t] + todo, out) && !Insertable(RecLen(projs))
    ensures Appended(projs, before, ASSERTFAILED, now, out)
  {
    assert |now + ([t] + todo)| == |before + out|;
  }

  lemma ProgressStart(projs: seq<Attr>, before: seq<Record>, out: seq<Record>)
    ensures Progress(projs, before, before, out, out)
  {}

  lemma SortableInputs(j: Join, outer: seq<Entry>, inner: seq<Entry>)
    requires Inputs(j, outer, inner)
    ensures SourceOk(outer, j.off1) && SourceOk(inner, j.off2)
  {}
}
