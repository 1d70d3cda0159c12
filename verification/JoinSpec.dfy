/** What a join is to produce (join.C): a reference definition, and how the order of the inputs affects it. */
module JoinSpecs {
  import opened Bags
  import opened Bytes
  import opened Statuses
  import opened ScanSpec
  import opened Sorting

  /** A projected attribute: the relation it belongs to, its offset and its length. */
  datatype Attr = Attr(relName: int, offset: nat, len: nat)

  /** The resolved arguments of a join: both relations and join attributes, the operator and the projection. */
  datatype Join = Join(rel1: int, off1: nat, rel2: int, off2: nat, op: Operator, projs: seq<Attr>)

  function RecLen(projs: seq<Attr>): nat {
    if projs == [] then 0 else projs[0].len + RecLen(projs[1..])
  }

  function Field(rec: Record, offset: nat, len: nat): Record {
    if offset + len <= |rec| then rec[offset..offset + len] else []
  }

  /** The listed attributes one after the other; an attribute of the outer relation comes from the outer record. */
  function Project(rel1: int, projs: seq<Attr>, o: Record, i: Record): Record {
    if projs == [] then []
    else
      var src := if projs[0].relName == rel1 then o else i;
      Field(src, projs[0].offset, projs[0].len) + Project(rel1, projs[1..], o, i)
  }

  /** The records are long enough for every projected attribute. */
  predicate Covers(rel1: int, projs: seq<Attr>, o: Record, i: Record) {
    forall k :: 0 <= k < |projs| ==> projs[k].offset + projs[k].len <= |if projs[k].relName == rel1 then o else i|
  }

  lemma {:induction false} ProjectLength(rel1: int, projs: seq<Attr>, o: Record, i: Record)
    requires Covers(rel1, projs, o, i)
    ensures |Project(rel1, projs, o, i)| == RecLen(projs)
  {
    if projs != [] {
      assert forall k :: 0 <= k < |projs[1..]| ==> projs[1..][k] == projs[k + 1];
      ProjectLength(rel1, projs[1..], o, i);
    }
  }

  /** Byte b of attribute k of an output tuple is the byte at that place in the record of the attribute's relation,
      and it stands behind the attributes listed before. */
  ghost predicate Projects(rel1: int, projs: seq<Attr>, o: Record, i: Record, tuple: Record) {
    && |tuple| == RecLen(projs)
    && forall k, b :: 0 <= k < |projs| && 0 <= b < projs[k].len ==> ByteOf(rel1, projs, o, i, tuple, k, b)
  }

  ghost predicate ByteOf(rel1: int, projs: seq<Attr>, o: Record, i: Record, tuple: Record, k: int, b: int)
    requires 0 <= k < |projs| && 0 <= b
  {
    var src, at := if projs[k].relName == rel1 then o else i, RecLen(projs[..k]) + b;
    at < |tuple| && projs[k].offset + b < |src| && tuple[at] == src[projs[k].offset + b]
  }

  lemma ProjectHead(rel1: int, projs: seq<Attr>, o: Record, i: Record)
    requires Covers(rel1, projs, o, i) && projs != []
    ensures var src, p := if projs[0].relName == rel1 then o else i, projs[0];
            && p.offset + p.len <= |src|
            && Project(rel1, projs, o, i) == src[p.offset..p.offset + p.len] + Project(rel1, projs[1..], o, i)
    ensures Covers(rel1, projs[1..], o, i)
  {
    assert forall n :: 0 <= n < |projs[1..]| ==> projs[1..][n] == projs[n + 1];
  }

  lemma LenBefore(projs: seq<Attr>, k: int)
    requires 0 < k <= |projs|
    ensures RecLen(projs[..k]) == projs[0].len + RecLen(projs[1..][..k - 1])
  {
    assert projs[..k][1..] == projs[1..][..k - 1];
  }

  lemma {:induction false} ProjectAt(rel1: int, projs: seq<Attr>, o: Record, i: Record, k: int, b: int)
    requires Covers(rel1, projs, o, i) && 0 <= k < |projs| && 0 <= b < projs[k].len
    ensures ByteOf(rel1, projs, o, i, Project(rel1, projs, o, i), k, b)
  {
    hide Covers, Project, RecLen;
    ProjectHead(rel1, projs, o, i);
    if k == 0 {
      assert projs[..0] == [] && RecLen([]) == 0 by { NoLen(); }
    } else {
      ProjectAt(rel1, projs[1..], o, i, k - 1, b);
      LenBefore(projs, k);
    }
  }

  lemma NoLen()
    ensures RecLen([]) == 0
  {}

  lemma ProjectIsBytes(rel1: int, projs: seq<Attr>, o: Record, i: Record)
    requires Covers(rel1, projs, o, i)
    ensures Projects(rel1, projs, o, i, Project(rel1, projs, o, i))
  {
    ProjectLength(rel1, projs, o, i);
    forall k, b | 0 <= k < |projs| && 0 <= b < projs[k].len
      ensures ByteOf(rel1, projs, o, i, Project(rel1, projs, o, i), k, b)
    {
      ProjectAt(rel1, projs, o, i, k, b);
    }
  }

  /** No other tuple has these bytes. */
  lemma {:induction false} ProjectsOne(rel1: int, projs: seq<Attr>, o: Record, i: Record, tuple: Record)
    requires Covers(rel1, projs, o, i) && Projects(rel1, projs, o, i, tuple)
    ensures tuple == Project(rel1, projs, o, i)
  {
    ProjectIsBytes(rel1, projs, o, i);
    var t := Project(rel1, projs, o, i);
    forall x | 0 <= x < |tuple| ensures tuple[x] == t[x] {
      var k, b := AttrAt(projs, x);
      assert ByteOf(rel1, projs, o, i, tuple, k, b) && ByteOf(rel1, projs, o, i, t, k, b);
    }
  }

  /** Every byte of a tuple belongs to one of the attributes. */
  lemma {:induction false} AttrAt(projs: seq<Attr>, x: nat) returns (k: int, b: int)
    requires x < RecLen(projs)
    ensures 0 <= k < |projs| && 0 <= b < projs[k].len && RecLen(projs[..k]) + b == x
  {
    if x < projs[0].len {
      k, b := 0, x;
      assert projs[..0] == [];
    } else {
      k, b := AttrAt(projs[1..], x - projs[0].len);
      k := k + 1;
      assert projs[..k][1..] == projs[1..][..k - 1];
    }
  }

  predicate Joins(j: Join, o: Record, i: Record) {
    Compare(j.op, Key(o, j.off1), Key(i, j.off2))
  }

  /** The output tuples of one outer record. */
  function InnerOut(j: Join, o: Record, inner: seq<Record>): seq<Record> {
    if inner == [] then []
    else (if Joins(j, o, inner[0]) then [Project(j.rel1, j.projs, o, inner[0])] else []) + InnerOut(j, o, inner[1..])
  }

  /** The join: every pair of an outer and an inner record that satisfies the operator contributes one tuple. */
  function JoinOut(j: Join, outer: seq<Record>, inner: seq<Record>): seq<Record> {
    if outer == [] then [] else InnerOut(j, outer[0], inner) + JoinOut(j, outer[1..], inner)
  }

  // ----- splitting the inputs -----

  lemma {:induction false} InnerOutConcat(j: Join, o: Record, a: seq<Record>, b: seq<Record>)
    ensures InnerOut(j, o, a + b) == InnerOut(j, o, a) + InnerOut(j, o, b)
  {
    if a == [] {
      assert a + b == b;
    } else {
      assert (a + b)[1..] == a[1..] + b;
      InnerOutConcat(j, o, a[1..], b);
    }
  }

  lemma {:induction false} JoinOutConcat(j: Join, a: seq<Record>, b: seq<Record>, inner: seq<Record>)
    ensures JoinOut(j, a + b, inner) == JoinOut(j, a, inner) + JoinOut(j, b, inner)
  {
    if a == [] {
      assert a + b == b;
    } else {
      assert (a + b)[1..] == a[1..] + b;
      JoinOutConcat(j, a[1..], b, inner);
    }
  }

  lemma JoinOutOne(j: Join, o: Record, inner: seq<Record>)
    ensures JoinOut(j, [o], inner) == InnerOut(j, o, inner)
  {
    assert [o][1..] == [];
  }

  lemma {:induction false} JoinOutInnerSplit(j: Join, outer: seq<Record>, a: seq<Record>, b: seq<Record>)
    ensures multiset(JoinOut(j, outer, a + b)) == multiset(JoinOut(j, outer, a)) + multiset(JoinOut(j, outer, b))
  {
    if outer != [] {
      InnerOutConcat(j, outer[0], a, b);
      JoinOutInnerSplit(j, outer[1..], a, b);
    }
  }

  lemma {:induction false} JoinOutNoInner(j: Join, outer: seq<Record>)
    ensures JoinOut(j, outer, []) == []
  {
    if outer != [] {
      JoinOutNoInner(j, outer[1..]);
    }
  }

  // ----- the order of the inputs does not matter -----

  lemma {:induction false} OuterOrder(j: Join, a: seq<Record>, b: seq<Record>, inner: seq<Record>)
    requires multiset(a) == multiset(b)
    ensures multiset(JoinOut(j, a, inner)) == multiset(JoinOut(j, b, inner))
    decreases |a|
  {
    if a == [] {
      assert |multiset(b)| == 0;
      assert b == [];
    } else {
      var i := TakeOut(a, b);
      OuterOrder(j, a[1..], b[..i] + b[i + 1..], inner);
      JoinOutConcat(j, b[..i], b[i + 1..], inner);
      JoinOutConcat(j, b[..i], [a[0]] + b[i + 1..], inner);
      JoinOutConcat(j, [a[0]], b[i + 1..], inner);
      JoinOutOne(j, a[0], inner);
    }
  }

  lemma {:induction false} InnerOrder(j: Join, outer: seq<Record>, a: seq<Record>, b: seq<Record>)
    requires multiset(a) == multiset(b)
    ensures multiset(JoinOut(j, outer, a)) == multiset(JoinOut(j, outer, b))
    decreases |a|
  {
    if a == [] {
      assert |multiset(b)| == 0;
      assert b == [];
    } else {
      var i := TakeOut(a, b);
      InnerOrder(j, outer, a[1..], b[..i] + b[i + 1..]);
      assert a == [a[0]] + a[1..];
      JoinOutInnerSplit(j, outer, [a[0]], a[1..]);
      JoinOutInnerSplit(j, outer, b[..i], b[i + 1..]);
      JoinOutInnerSplit(j, outer, b[..i], [a[0]] + b[i + 1..]);
      JoinOutInnerSplit(j, outer, [a[0]], b[i + 1..]);
    }
  }

  /** A join of permuted inputs gives the same bag of tuples. */
  lemma JoinOfPermutations(j: Join, outer: seq<Record>, outer': seq<Record>, inner: seq<Record>, inner': seq<Record>)
    requires multiset(outer) == multiset(outer') && multiset(inner) == multiset(inner')
    ensures multiset(JoinOut(j, outer, inner)) == multiset(JoinOut(j, outer', inner'))
  {
    OuterOrder(j, outer, outer', inner);
    InnerOrder(j, outer', inner, inner');
  }

  lemma JoinOutPair(j: Join, o: Record, i: Record)
    ensures JoinOut(j, [o], [i]) == if Joins(j, o, i) then [Project(j.rel1, j.projs, o, i)] else []
  {
    JoinOutOne(j, o, [i]);
    assert [i][1..] == [];
  }

  // ----- the pairs that join -----

  /** bs are the positions in inner whose int stands to that of o as the operator says, in order, and out holds one
      tuple for each. */
  ghost predicate InnerPairs(j: Join, o: Record, inner: seq<Record>, bs: seq<nat>, out: seq<Record>)
    requires j.off1 + 4 <= |o| && Wide(inner, j.off2)
  {
    && |bs| == |out|
    && (forall n :: 0 <= n < |bs| ==> bs[n] < |inner| && out[n] == Project(j.rel1, j.projs, o, inner[bs[n]]))
    && (forall m, n :: 0 <= m < n < |bs| ==> bs[m] < bs[n])
    && (forall b: nat :: b < |inner| ==>
          (b in bs <==> Compare(j.op, IntAt(o, j.off1), IntAt(inner[b], j.off2))))
  }

  lemma {:induction false} InnerOutPairs(j: Join, o: Record, inner: seq<Record>) returns (bs: seq<nat>)
    requires j.off1 + 4 <= |o| && Wide(inner, j.off2)
    ensures InnerPairs(j, o, inner, bs, InnerOut(j, o, inner))
  {
    bs := [];
    if inner != [] {
      var front, i := inner[..|inner| - 1], inner[|inner| - 1];
      bs := InnerOutPairs(j, o, front);
      assert inner == front + [i] && [i][1..] == [];
      InnerOutConcat(j, o, front, [i]);
      if Joins(j, o, i) {
        bs := bs + [|front|];
      }
    }
  }

  /** The same for pairs of positions, which are ordered by the outer record and then by the inner one. */
  ghost predicate PairsOf(j: Join, outer: seq<Record>, inner: seq<Record>, ps: seq<(nat, nat)>, out: seq<Record>)
    requires Wide(outer, j.off1) && Wide(inner, j.off2)
  {
    && PairTuples(j, outer, inner, ps, out)
    && (forall m, n :: 0 <= m < n < |ps| ==> ps[m].0 < ps[n].0 || (ps[m].0 == ps[n].0 && ps[m].1 < ps[n].1))
    && forall a: nat, b: nat :: a < |outer| && b < |inner| ==>
        ((a, b) in ps <==> Compare(j.op, IntAt(outer[a], j.off1), IntAt(inner[b], j.off2)))
  }

  ghost predicate PairTuples(j: Join, outer: seq<Record>, inner: seq<Record>, ps: seq<(nat, nat)>, out: seq<Record>) {
    && |ps| == |out|
    && forall n :: 0 <= n < |ps| ==>
        && ps[n].0 < |outer| && ps[n].1 < |inner|
        && out[n] == Project(j.rel1, j.projs, outer[ps[n].0], inner[ps[n].1])
  }

  function PairsWith(a: nat, bs: seq<nat>): (r: seq<(nat, nat)>)
    ensures |r| == |bs| && forall n :: 0 <= n < |bs| ==> r[n] == (a, bs[n])
  {
    seq(|bs|, n requires 0 <= n < |bs| => (a, bs[n]))
  }

  lemma InPairsWith(a: nat, bs: seq<nat>, p: (nat, nat))
    ensures p in PairsWith(a, bs) <==> p.0 == a && p.1 in bs
  {
    if p.0 == a && p.1 in bs {
      var n :| 0 <= n < |bs| && bs[n] == p.1;
      assert PairsWith(a, bs)[n] == p;
    }
  }

  lemma MorePairs(j: Join, front: seq<Record>, o: Record, inner: seq<Record>, ps: seq<(nat, nat)>, bs: seq<nat>,
                  out: seq<Record>, more: seq<Record>)
    requires Wide(front + [o], j.off1) && Wide(inner, j.off2) && Wide(front, j.off1) && j.off1 + 4 <= |o|
    requires PairsOf(j, front, inner, ps, out) && InnerPairs(j, o, inner, bs, more)
    ensures PairsOf(j, front + [o], inner, ps + PairsWith(|front|, bs), out + more)
  {
    hide Project, Compare;
    var outer, all := front + [o], ps + PairsWith(|front|, bs);
    assert PairTuples(j, outer, inner, all, out + more);
    forall a: nat, b: nat | a < |outer| && b < |inner|
      ensures (a, b) in all <==> Compare(j.op, IntAt(outer[a], j.off1), IntAt(inner[b], j.off2))
    {
      InPairsWith(|front|, bs, (a, b));
    }
  }

  /** The join has one tuple for each pair of records whose ints satisfy the operator, and no other. */
  lemma {:induction false} JoinOutPairs(j: Join, outer: seq<Record>, inner: seq<Record>) returns (ps: seq<(nat, nat)>)
    requires Wide(outer, j.off1) && Wide(inner, j.off2)
    ensures PairsOf(j, outer, inner, ps, JoinOut(j, outer, inner))
  {
    ps := [];
    if outer != [] {
      var front, o := outer[..|outer| - 1], outer[|outer| - 1];
      ps := JoinOutPairs(j, front, inner);
      assert outer == front + [o];
      JoinOutConcat(j, front, [o], inner);
      JoinOutOne(j, o, inner);
      var bs := InnerOutPairs(j, o, inner);
      MorePairs(j, front, o, inner, ps, bs, JoinOut(j, front, inner), InnerOut(j, o, inner));
      ps := ps + PairsWith(|front|, bs);
    }
  }
}
