/** Second-chance replacement (buf.h, buf.C): which frame the clock picks and what it does to the
    reference bits, stated without the loop. */
module Clock {
  import opened DiskSpec

  const NO_PAGE := PageId(-1, -1)  // file NULL, page -1

  datatype BufDesc = BufDesc(id: PageId, pinCnt: int, dirty: bool, valid: bool, refbit: bool)

  /** BufDesc::Set */
  function SetDesc(id: PageId): BufDesc { BufDesc(id, 1, false, true, true) }

  /** BufDesc::Clear, which leaves the reference bit alone. */
  function ClearDesc(d: BufDesc): BufDesc { BufDesc(NO_PAGE, 0, false, false, d.refbit) }

  /** The frame under the hand after k + 1 advances from hand, for at most two rotations. */
  function FrameAt(n: int, hand: int, k: int): (f: int)
    requires 0 <= hand < n && 0 <= k < 2 * n
    ensures 0 <= f < n
  {
    var x := hand + 1 + k;
    if x < n then x else if x < 2 * n then x - n else x - 2 * n
  }

  /** How many advances bring the hand from hand to just before frame i. */
  function Dist(n: int, hand: int, i: int): (k: int)
    requires 0 <= hand < n && 0 <= i < n
    ensures 0 <= k < n && FrameAt(n, hand, k) == i
  {
    if i > hand then i - hand - 1 else i - hand - 1 + n
  }

  lemma AdvanceClock(n: int, hand: int)
    requires 0 <= hand < n
    ensures (hand + 1) % n == FrameAt(n, hand, 0)
  {
    if hand + 1 < n {
      assert (hand + 1) % n == hand + 1;
    } else {
      assert (hand + 1) % n == 0;
    }
  }

  /** At step k the frame under the hand can be taken: it is invalid, or it is unpinned and either
      its reference bit is clear or the hand is on its second rotation. */
  predicate Candidate(t: seq<BufDesc>, hand: int, k: int)
    requires 0 <= hand < |t| && 0 <= k < 2 * |t|
  {
    var d := t[FrameAt(|t|, hand, k)];
    !d.valid || (d.pinCnt == 0 && (!d.refbit || |t| <= k))
  }

  /** The first step from k on with a candidate, or 2 * |t| when there is none. */
  function FirstCandidate(t: seq<BufDesc>, hand: int, k: int): (r: int)
    requires 0 <= hand < |t| && 0 <= k <= 2 * |t|
    ensures k <= r <= 2 * |t|
    ensures r < 2 * |t| ==> Candidate(t, hand, r)
    ensures forall j :: k <= j < r ==> !Candidate(t, hand, j)
    decreases 2 * |t| - k
  {
    if k < 2 * |t| && !Candidate(t, hand, k) then FirstCandidate(t, hand, k + 1) else k
  }

  /** The frame table after the hand has passed k frames: their reference bits are clear. */
  function Swept(t: seq<BufDesc>, hand: int, k: int): (r: seq<BufDesc>)
    requires 0 <= hand < |t| && 0 <= k <= 2 * |t|
    ensures |r| == |t|
    ensures forall i :: 0 <= i < |t| ==> r[i] == if Dist(|t|, hand, i) < k then Passed(t[i]) else t[i]
  {
    seq(|t|, i requires 0 <= i < |t| => if Dist(|t|, hand, i) < k then Passed(t[i]) else t[i])
  }

  function Passed(d: BufDesc): BufDesc {
    if d.valid then d.(refbit := false) else d
  }

  predicate Available(d: BufDesc) { !d.valid || d.pinCnt == 0 }

  /** The clock finds no frame exactly when every frame is valid and pinned. */
  lemma NoCandidateIffAllPinned(t: seq<BufDesc>, hand: int)
    requires 0 <= hand < |t|
    ensures FirstCandidate(t, hand, 0) == 2 * |t| <==> forall i :: 0 <= i < |t| ==> !Available(t[i])
  {
    if i :| 0 <= i < |t| && Available(t[i]) {
      var k := |t| + Dist(|t|, hand, i);
      assert FrameAt(|t|, hand, k) == i;
      assert Candidate(t, hand, k);
    }
  }

  /** A frame is taken on the first rotation exactly when some frame is invalid or unpinned with a
      clear reference bit; the second rotation takes the first unpinned frame after the hand. */
  lemma VictimRotation(t: seq<BufDesc>, hand: int)
    requires 0 <= hand < |t|
    ensures var k := FirstCandidate(t, hand, 0);
            && (k < |t| <==> exists i :: 0 <= i < |t| && Available(t[i]) && (t[i].valid ==> !t[i].refbit))
            && (|t| <= k < 2 * |t| ==> forall i :: 0 <= i < |t| && Dist(|t|, hand, i) < k - |t| ==> !Available(t[i]))
  {
    var k := FirstCandidate(t, hand, 0);
    if i :| 0 <= i < |t| && Available(t[i]) && (t[i].valid ==> !t[i].refbit) {
      assert Candidate(t, hand, Dist(|t|, hand, i));
    }
    if |t| <= k < 2 * |t| {
      forall i | 0 <= i < |t| && Dist(|t|, hand, i) < k - |t| ensures !Available(t[i]) {
        assert FrameAt(|t|, hand, |t| + Dist(|t|, hand, i)) == i;
        assert !Candidate(t, hand, |t| + Dist(|t|, hand, i));
      }
    }
  }

  /** One turn of the loop: the test it makes of the swept table is Candidate, and passing the frame
      clears its reference bit. */
  lemma SweepStep(t: seq<BufDesc>, hand: int, k: int)
    requires 0 <= hand < |t| && 0 <= k < 2 * |t|
    ensures var f := FrameAt(|t|, hand, k);
            var d := Swept(t, hand, k)[f];
            && FrameAt(|t|, if k == 0 then hand else FrameAt(|t|, hand, k - 1), 0) == f
            && (Candidate(t, hand, k) <==> !d.valid || (!d.refbit && d.pinCnt == 0))
            && Swept(t, hand, k + 1) == Swept(t, hand, k)[f := Passed(d)]
  {
    var f := FrameAt(|t|, hand, k);
    assert Dist(|t|, hand, f) == if k < |t| then k else k - |t|;
    assert forall i :: 0 <= i < |t| && Dist(|t|, hand, i) == Dist(|t|, hand, f) ==> i == f;
  }

  /** An invalid frame is met on the first rotation, so the test numScanned >= 2*numBufs that follows
      the loop never mistakes it for a full pool. */
  lemma InvalidFoundEarly(t: seq<BufDesc>, hand: int)
    requires 0 <= hand < |t|
    ensures var k := FirstCandidate(t, hand, 0);
            k < 2 * |t| && !t[FrameAt(|t|, hand, k)].valid ==> k < |t|
  {
    var k := FirstCandidate(t, hand, 0);
    if |t| <= k < 2 * |t| {
      assert FrameAt(|t|, hand, k - |t|) == FrameAt(|t|, hand, k);
      assert !Candidate(t, hand, k - |t|);
    }
  }
}
