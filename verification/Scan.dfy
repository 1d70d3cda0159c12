/** A filtered scan over the records of a heap file (heapfile.C), as a position in a sequence. */
module ScanSpec {
  import opened Bytes
  import opened Statuses

  datatype Entry = Entry(rid: RID, rec: Record)

  datatype Operator = LT | LTE | EQ | GTE | GT | NE

  /** The records of entries. */
  function RecordsOf(es: seq<Entry>): (r: seq<Record>)
    ensures |r| == |es| && forall i :: 0 <= i < |es| ==> r[i] == es[i].rec
  {
    seq(|es|, i requires 0 <= i < |es| => es[i].rec)
  }

  /** No filter, or a comparison of the int at an offset with a constant. */
  datatype Filter = NoFilter | IntFilter(offset: nat, op: Operator, value: int)

  /** The second switch of matchRec: diff has the sign of attribute minus constant. */
  predicate Accepts(op: Operator, diff: int) {
    match op
    case LT => diff < 0
    case LTE => diff <= 0
    case EQ => diff == 0
    case GTE => diff >= 0
    case GT => diff > 0
    case NE => diff != 0
  }

  /** The comparison the operator stands for. */
  predicate Compare(op: Operator, a: int, b: int) {
    match op
    case LT => a < b
    case LTE => a <= b
    case EQ => a == b
    case GTE => a >= b
    case GT => a > b
    case NE => a != b
  }

  /** HeapFileScan::matchRec; an attribute beyond the end of the record does not match. */
  predicate MatchRec(f: Filter, rec: Record) {
    match f
    case NoFilter => true
    case IntFilter(offset, op, value) =>
      offset + 4 - 1 < |rec| && Accepts(op, Diff32(IntAt(rec, offset), value))
  }

  /** Equality and inequality filters are exact; an ordering filter decides the comparison it stands for
      exactly when the difference does not overflow or the result does not depend on its sign. */
  lemma MatchRecExact(offset: nat, op: Operator, value: int, rec: Record)
    requires IsInt32(value) && offset + 4 <= |rec|
    ensures var a := IntAt(rec, offset);
            (MatchRec(IntFilter(offset, op, value), rec) <==> Compare(op, a, value)) <==>
            (op == EQ || op == NE || IsInt32(a - value))
  {
    Diff32Exact(IntAt(rec, offset), value);
  }

  // ----- one step of a scan over the records still ahead of it -----

  /** scanNext stops at a record that matches, and at an empty record, which getRecord rejects. */
  predicate Stops(f: Filter, rec: Record) {
    rec == [] || MatchRec(f, rec)
  }

  function Skip(rest: seq<Entry>, f: Filter): (r: seq<Entry>)
    ensures |r| <= |rest| && r == rest[|rest| - |r|..]
    ensures r != [] ==> Stops(f, r[0].rec)
    ensures forall i :: 0 <= i < |rest| - |r| ==> !Stops(f, rest[i].rec)
  {
    if rest == [] || Stops(f, rest[0].rec) then rest else Skip(rest[1..], f)
  }

  function NextStatus(rest: seq<Entry>, f: Filter): Status {
    var s := Skip(rest, f);
    if s == [] then FILEEOF else if s[0].rec == [] then INVALIDSLOTNO else OK
  }

  function NextRest(rest: seq<Entry>, f: Filter): seq<Entry> {
    var s := Skip(rest, f);
    if s == [] then [] else s[1..]
  }

  /** Skipping from a gives the same as skipping from b. */
  predicate SameScan(a: seq<Entry>, b: seq<Entry>, f: Filter) {
    Skip(a, f) == Skip(b, f)
  }

  lemma ScanStart(a: seq<Entry>, f: Filter)
    ensures SameScan(a, a, f)
  {}

  lemma ScanHead(start: seq<Entry>, e: Entry, rest: seq<Entry>, f: Filter)
    requires SameScan(start, [e] + rest, f)
    ensures Stops(f, e.rec) ==>
              && NextStatus(start, f) == (if e.rec == [] then INVALIDSLOTNO else OK)
              && NextRest(start, f) == rest && Skip(start, f) != [] && Skip(start, f)[0] == e
    ensures !Stops(f, e.rec) ==> SameScan(start, rest, f)
  {
    assert ([e] + rest)[1..] == rest;
  }

  lemma ScanEnd(start: seq<Entry>, f: Filter)
    requires SameScan(start, [], f)
    ensures NextStatus(start, f) == FILEEOF && NextRest(start, f) == []
  {}

  // ----- a scan of an unchanged file as a value -----

  datatype Scan = Scan(file: seq<Entry>, filter: Filter, pos: nat) {
    ghost predicate Valid() { pos <= |file| }

    function Rest(): seq<Entry>
      requires Valid()
    {
      file[pos..]
    }

    /** scanNext */
    function Next(): (r: (Scan, Status))
      requires Valid()
      ensures r.0.Valid() && r.0.file == file && r.0.filter == filter
      ensures r.1 == NextStatus(Rest(), filter) && r.0.Rest() == NextRest(Rest(), filter)
      ensures r.1 == OK ==> 0 < r.0.pos && pos < r.0.pos && file[r.0.pos - 1] == Skip(Rest(), filter)[0]
    {
      var s := Skip(Rest(), filter);
      if s == [] then (Scan(file, filter, |file|), FILEEOF)
      else (Scan(file, filter, |file| - |s| + 1), if s[0].rec == [] then INVALIDSLOTNO else OK)
    }

    /** The record under the cursor. */
    function Current(): Entry
      requires Valid() && 0 < pos
    {
      file[pos - 1]
    }

    /** The entries that repeated calls of scanNext return before one of them is not OK. */
    function Drain(): (r: (seq<Entry>, Scan))
      requires Valid()
      ensures r.1.Valid() && r.1.file == file && r.1.filter == filter
      decreases |file| - pos
    {
      var (s, status) := Next();
      if status == OK then
        var (es, last) := s.Drain();
        ([s.Current()] + es, last)
      else ([], s)
    }
  }

  /** A freshly opened scan. */
  function Open(file: seq<Entry>, filter: Filter): Scan { Scan(file, filter, 0) }

  function Matching(es: seq<Entry>, f: Filter): seq<Entry> {
    if es == [] then []
    else if MatchRec(f, es[0].rec) then [es[0]] + Matching(es[1..], f) else Matching(es[1..], f)
  }

  /** What a loop that stops at the first step that is not OK gets out of a scan. */
  function Taken(rest: seq<Entry>, f: Filter): seq<Entry>
    decreases |rest|
  {
    if NextStatus(rest, f) != OK then [] else [Skip(rest, f)[0]] + Taken(NextRest(rest, f), f)
  }

  /** Without empty records such a loop gets every matching record. */
  lemma {:induction false} TakenIsMatching(rest: seq<Entry>, f: Filter)
    requires NoEmpty(rest)
    ensures Taken(rest, f) == Matching(rest, f)
    decreases |rest|
  {
    MatchingSkip(rest, f);
    if NextStatus(rest, f) == OK {
      assert NoEmpty(NextRest(rest, f));
      TakenIsMatching(NextRest(rest, f), f);
    }
  }

  /** No two entries have the same record id. */
  ghost predicate DistinctRids(es: seq<Entry>) {
    forall i, j :: 0 <= i < j < |es| ==> es[i].rid != es[j].rid
  }

  predicate NoEmpty(es: seq<Entry>) {
    forall i :: 0 <= i < |es| ==> es[i].rec != []
  }

  lemma {:induction false} MatchingSkip(es: seq<Entry>, f: Filter)
    requires NoEmpty(es)
    ensures Matching(Skip(es, f), f) == Matching(es, f)
  {
    if es != [] && !MatchRec(f, es[0].rec) {
      assert forall i :: 0 <= i < |es| - 1 ==> es[1..][i] == es[i + 1];
      MatchingSkip(es[1..], f);
    }
  }

  lemma MatchingNext(rest: seq<Entry>, f: Filter)
    requires NoEmpty(rest)
    ensures if NextStatus(rest, f) == OK then
              Skip(rest, f) != [] && Matching(rest, f) == [Skip(rest, f)[0]] + Matching(NextRest(rest, f), f)
            else Skip(rest, f) == [] && Matching(rest, f) == []
  {
    MatchingSkip(rest, f);
  }

  /** One step of a scan returns the first matching record, or there is none left and the scan has ended. */
  lemma MatchingStep(s: Scan)
    requires s.Valid() && NoEmpty(s.file)
    ensures var (t, status) := s.Next();
            if status == OK then
              Matching(s.Rest(), s.filter) == [t.Current()] + Matching(t.Rest(), s.filter) && s.pos < t.pos <= |s.file|
            else
              Matching(s.Rest(), s.filter) == [] && t.pos == |s.file| && t.Next() == (t, FILEEOF)
  {
    assert NoEmpty(s.Rest());
    MatchingNext(s.Rest(), s.filter);
    hide Matching, NoEmpty;
    if s.Next().1 != OK {
      assert s.Next().0.Rest() == [];
    }
  }

  /** One step of an unfiltered scan. */
  lemma PlainStep(rest: seq<Entry>)
    requires NoEmpty(rest)
    ensures NextStatus(rest, NoFilter) == if rest == [] then FILEEOF else OK
    ensures rest != [] ==> Skip(rest, NoFilter) == rest && NextRest(rest, NoFilter) == rest[1..]
    ensures rest == [] ==> NextRest(rest, NoFilter) == []
  {}

  /** Every matching record is returned exactly once and in file order, then FILEEOF, and FILEEOF again on
      every later call. */
  lemma {:induction false} DrainIsMatching(s: Scan)
    requires s.Valid() && NoEmpty(s.file)
    ensures s.Drain().0 == Matching(s.Rest(), s.filter)
    ensures var last := s.Drain().1;
            last.Next() == (last, FILEEOF) && last.pos == |s.file|
    decreases |s.file| - s.pos
  {
    MatchingStep(s);
    hide Matching, Skip, NextStatus, NextRest, NoEmpty;
    var (t, status) := s.Next();
    if status == OK {
      DrainIsMatching(t);
    }
  }

  // ----- what a filter selects -----

  /** Every record holds the int at off. */
  ghost predicate HoldsInt(es: seq<Entry>, off: nat) {
    forall k :: 0 <= k < |es| ==> off + 4 <= |es[k].rec|
  }

  /** The operator can be decided for every record through the difference of its attribute and the constant. */
  ghost predicate Decides(es: seq<Entry>, off: nat, op: Operator, value: int) {
    && HoldsInt(es, off) && IsInt32(value)
    && forall k :: 0 <= k < |es| ==> op == EQ || op == NE || IsInt32(IntAt(es[k].rec, off) - value)
  }

  predicate Satisfies(e: Entry, off: nat, op: Operator, value: int) {
    off + 4 <= |e.rec| && Compare(op, IntAt(e.rec, off), value)
  }

  /** The entries whose int at off stands in the relation to the constant. */
  function Satisfying(es: seq<Entry>, off: nat, op: Operator, value: int): seq<Entry> {
    if es == [] then []
    else (if Satisfies(es[0], off, op, value) then [es[0]] else []) + Satisfying(es[1..], off, op, value)
  }

  /** Those for which it does not. */
  function Failing(es: seq<Entry>, off: nat, op: Operator, value: int): seq<Entry> {
    if es == [] then []
    else (if Satisfies(es[0], off, op, value) then [] else [es[0]]) + Failing(es[1..], off, op, value)
  }

  lemma {:induction false} MatchingIsSatisfying(es: seq<Entry>, off: nat, op: Operator, value: int)
    requires Decides(es, off, op, value)
    ensures Matching(es, IntFilter(off, op, value)) == Satisfying(es, off, op, value)
    ensures NotMatching(es, IntFilter(off, op, value)) == Failing(es, off, op, value)
  {
    if es != [] {
      MatchRecExact(off, op, value, es[0].rec);
      assert forall k :: 0 <= k < |es[1..]| ==> es[1..][k] == es[k + 1];
      MatchingIsSatisfying(es[1..], off, op, value);
    }
  }

  /** A scan-and-stop loop under a filter gets exactly the entries that satisfy the operator, in order. */
  lemma TakenIsSatisfying(es: seq<Entry>, off: nat, op: Operator, value: int)
    requires Decides(es, off, op, value)
    ensures Taken(es, IntFilter(off, op, value)) == Satisfying(es, off, op, value)
  {
    TakenIsMatching(es, IntFilter(off, op, value));
    MatchingIsSatisfying(es, off, op, value);
  }

  /** Without a filter it gets them all. */
  lemma TakenIsAll(es: seq<Entry>)
    requires NoEmpty(es)
    ensures Taken(es, NoFilter) == es
  {
    TakenIsMatching(es, NoFilter);
    AllMatch(es);
  }

  lemma {:induction false} AllMatch(es: seq<Entry>)
    ensures Matching(es, NoFilter) == es
  {
    if es != [] {
      AllMatch(es[1..]);
    }
  }

  /** A scan-and-delete loop leaves exactly the others. */
  lemma SurvivorsFail(es: seq<Entry>, off: nat, op: Operator, value: int)
    requires Decides(es, off, op, value)
    ensures Survivors(es, IntFilter(off, op, value)) == Failing(es, off, op, value)
  {
    SurvivorsDoNotMatch(es, IntFilter(off, op, value));
    MatchingIsSatisfying(es, off, op, value);
  }

  /** An entry is selected or left, and never both. */
  lemma {:induction false} SatisfyingOrFailing(es: seq<Entry>, off: nat, op: Operator, value: int)
    ensures multiset(Satisfying(es, off, op, value)) + multiset(Failing(es, off, op, value)) == multiset(es)
    ensures forall e :: e in Satisfying(es, off, op, value) ==> Satisfies(e, off, op, value)
    ensures forall e :: e in Failing(es, off, op, value) ==> !Satisfies(e, off, op, value)
  {
    if es != [] {
      SatisfyingOrFailing(es[1..], off, op, value);
      assert es == [es[0]] + es[1..];
    }
  }

  // ----- deleting under the cursor -----

  function NotMatching(es: seq<Entry>, f: Filter): seq<Entry> {
    if es == [] then []
    else if MatchRec(f, es[0].rec) then NotMatching(es[1..], f) else [es[0]] + NotMatching(es[1..], f)
  }

  /** What a scan-and-delete loop leaves: an empty record ends the scan. */
  function Survivors(es: seq<Entry>, f: Filter): seq<Entry> {
    if es == [] || es[0].rec == [] then es
    else if MatchRec(f, es[0].rec) then Survivors(es[1..], f) else [es[0]] + Survivors(es[1..], f)
  }

  /** Without empty records exactly the matching records go. */
  lemma {:induction false} SurvivorsDoNotMatch(es: seq<Entry>, f: Filter)
    requires NoEmpty(es)
    ensures Survivors(es, f) == NotMatching(es, f)
  {
    if es != [] {
      assert forall i :: 0 <= i < |es[1..]| ==> es[1..][i] == es[i + 1];
      SurvivorsDoNotMatch(es[1..], f);
    }
  }

  lemma {:induction false} SurvivorsPast(done: seq<Entry>, rest: seq<Entry>, f: Filter)
    requires NoEmpty(done)
    ensures Survivors(done + rest, f) == NotMatching(done, f) + Survivors(rest, f)
  {
    if done == [] {
      assert done + rest == rest;
    } else {
      assert (done + rest)[1..] == done[1..] + rest;
      assert forall i :: 0 <= i < |done[1..]| ==> done[1..][i] == done[i + 1];
      SurvivorsPast(done[1..], rest, f);
    }
  }

  lemma {:induction false} SurvivorsStop(rest: seq<Entry>, f: Filter)
    requires NextStatus(rest, f) != OK
    ensures Survivors(rest, f) == rest
  {
    if rest != [] && !Stops(f, rest[0].rec) {
      SurvivorsStop(rest[1..], f);
    }
  }

  /** One entry, the one just before rest, has been taken out. */
  ghost predicate TookOut(before: seq<Entry>, after: seq<Entry>, e: Entry, rest: seq<Entry>) {
    exists behind :: before == behind + [e] + rest && after == behind + rest
  }

  lemma {:induction false} NotMatchingConcat(a: seq<Entry>, b: seq<Entry>, f: Filter)
    ensures NotMatching(a + b, f) == NotMatching(a, f) + NotMatching(b, f)
  {
    if a == [] {
      assert a + b == b;
    } else {
      assert (a + b)[1..] == a[1..] + b;
      NotMatchingConcat(a[1..], b, f);
    }
  }

  lemma {:induction false} NoneMatch(a: seq<Entry>, f: Filter)
    requires forall i :: 0 <= i < |a| ==> !MatchRec(f, a[i].rec)
    ensures NotMatching(a, f) == a
  {
    if a != [] {
      assert forall i :: 0 <= i < |a[1..]| ==> a[1..][i] == a[i + 1];
      NoneMatch(a[1..], f);
    }
  }

  /** The state of a scan-and-delete loop over the entries all: of those passed the matching ones are gone,
      those ahead are untouched. */
  ghost predicate Sieved(all: seq<Entry>, now: seq<Entry>, rest: seq<Entry>, f: Filter) {
    exists done :: NoEmpty(done) && all == done + rest && now == NotMatching(done, f) + rest
  }

  lemma SievedStart(all: seq<Entry>, f: Filter)
    ensures Sieved(all, all, all, f)
  {
    assert all == [] + all && all == NotMatching([], f) + all;
  }

  lemma SameFront(a: seq<Entry>, b: seq<Entry>, c: seq<Entry>)
    requires a + c == b + c
    ensures a == b
  {
    assert |a| == |b|;
    assert a == (a + c)[..|a|] && b == (b + c)[..|b|];
  }

  lemma NotMatchingUpTo(done: seq<Entry>, passed: seq<Entry>, e: Entry, f: Filter)
    requires (forall i :: 0 <= i < |passed| ==> !MatchRec(f, passed[i].rec)) && MatchRec(f, e.rec)
    ensures NotMatching(done + (passed + [e]), f) == NotMatching(done, f) + passed
  {
    NoneMatch(passed, f);
    NotMatchingConcat(done, passed + [e], f);
    NotMatchingConcat(passed, [e], f);
  }

  lemma SievedStep(all: seq<Entry>, now: seq<Entry>, rest: seq<Entry>, f: Filter, now': seq<Entry>)
    requires Sieved(all, now, rest, f)
    requires NextStatus(rest, f) == OK
    requires Skip(rest, f) != [] && TookOut(now, now', Skip(rest, f)[0], NextRest(rest, f))
    ensures Sieved(all, now', NextRest(rest, f), f)
  {
    hide NotMatching, MatchRec;
    NextOk(rest, f);
    var done :| NoEmpty(done) && all == done + rest && now == NotMatching(done, f) + rest;
    var passed := rest[..|rest| - |Skip(rest, f)|];
    SkipSplit(rest, f);
    SievedOne(all, now, done, rest, passed, Skip(rest, f)[0], NextRest(rest, f), f, now');
  }

  lemma SkipSplit(rest: seq<Entry>, f: Filter)
    requires Skip(rest, f) != []
    ensures var passed := rest[..|rest| - |Skip(rest, f)|];
            && rest == passed + [Skip(rest, f)[0]] + NextRest(rest, f)
            && forall i :: 0 <= i < |passed| ==> passed[i].rec != [] && !MatchRec(f, passed[i].rec)
  {
    hide MatchRec, Skip;
    SuffixSplit(rest, Skip(rest, f));
  }

  lemma SuffixSplit(rest: seq<Entry>, s: seq<Entry>)
    requires 0 < |s| <= |rest| && s == rest[|rest| - |s|..]
    ensures rest == rest[..|rest| - |s|] + [s[0]] + s[1..]
  {}

  lemma SievedOne(all: seq<Entry>, now: seq<Entry>, done: seq<Entry>, rest: seq<Entry>, passed: seq<Entry>, e: Entry,
                  rest': seq<Entry>,
                  f: Filter, now': seq<Entry>)
    requires all == done + rest && now == NotMatching(done, f) + rest && rest == passed + [e] + rest'
    requires (forall i :: 0 <= i < |passed| ==> passed[i].rec != [] && !MatchRec(f, passed[i].rec)) && e.rec != []
    requires MatchRec(f, e.rec)
    requires NoEmpty(done) && TookOut(now, now', e, rest')
    ensures Sieved(all, now', rest', f)
  {
    hide NotMatching, MatchRec;
    var behind :| now == behind + [e] + rest' && now' == behind + rest';
    NotMatchingUpTo(done, passed, e, f);
    SieveSplit(all, now, done, rest, passed, e, rest', NotMatching(done, f));
    SameFront(behind, NotMatching(done, f) + passed, [e] + rest');
    assert NoEmpty(done + (passed + [e]));
  }

  lemma SieveSplit(all: seq<Entry>, now: seq<Entry>, done: seq<Entry>, rest: seq<Entry>, passed: seq<Entry>, e: Entry,
                   rest': seq<Entry>, kept: seq<Entry>)
    requires all == done + rest && now == kept + rest && rest == passed + [e] + rest'
    ensures all == done + (passed + [e]) + rest'
    ensures now == (kept + passed) + ([e] + rest')
    ensures forall behind :: behind + [e] + rest' == behind + ([e] + rest')
  {}

  lemma SievedEnd(all: seq<Entry>, now: seq<Entry>, rest: seq<Entry>, f: Filter)
    requires Sieved(all, now, rest, f) && NextStatus(rest, f) != OK
    ensures now == Survivors(all, f)
  {
    var done :| NoEmpty(done) && all == done + rest && now == NotMatching(done, f) + rest;
    SurvivorsPast(done, rest, f);
    SurvivorsStop(rest, f);
  }

  lemma NextOk(rest: seq<Entry>, f: Filter)
    requires NextStatus(rest, f) == OK
    ensures Skip(rest, f) != [] && Skip(rest, f)[0].rec != [] && MatchRec(f, Skip(rest, f)[0].rec)
    ensures |NextRest(rest, f)| < |rest|
  {}
}
