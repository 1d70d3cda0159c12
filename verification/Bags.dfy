/** Bags of sequence elements. */
module Bags {
  lemma CancelHead<T>(e: T, w: seq<T>, u: seq<T>, v: seq<T>)
    requires multiset([e] + w) == multiset(u + ([e] + v))
    ensures multiset(w) == multiset(u + v)
  {
    assert multiset([e] + w) == multiset{e} + multiset(w);
    assert multiset(u + ([e] + v)) == multiset(u) + (multiset{e} + multiset(v));
    assert multiset(w) == multiset([e] + w) - multiset{e};
  }

  /** The head of a, taken out of its permutation b. */
  lemma TakeOut<T>(a: seq<T>, b: seq<T>) returns (i: nat)
    requires a != [] && multiset(a) == multiset(b)
    ensures i < |b| && b[i] == a[0] && b == b[..i] + ([a[0]] + b[i + 1..])
    ensures multiset(a[1..]) == multiset(b[..i] + b[i + 1..])
  {
    assert a[0] in multiset(b);
    i :| 0 <= i < |b| && b[i] == a[0];
    assert a == [a[0]] + a[1..];
    assert b == b[..i] + ([a[0]] + b[i + 1..]);
    CancelHead(a[0], a[1..], b[..i], b[i + 1..]);
  }
}
