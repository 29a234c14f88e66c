/**
 * Tours: the visiting orders the genetic search works on, and what it means
 * for one of them to visit every node of the graph exactly once.
 */
module Tours {

  /** A tour as the search stores it: node indices in visiting order. */
  type Tour = seq<nat>

  /** `[0, 1, ..., n-1]`, the identity order that every random tour is a shuffle of. */
  function SequenceVector(n: nat): (r: Tour)
    ensures |r| == n
    ensures forall i :: 0 <= i < n ==> r[i] == i
  {
    if n == 0 then [] else SequenceVector(n - 1) + [n - 1]
  }

  /** `t` visits each node `0..n-1` exactly once and nothing else. */
  predicate IsPermutation(t: Tour, n: nat) {
    multiset(t) == multiset(SequenceVector(n))
  }

  predicate Distinct(s: seq<nat>) {
    forall i, j :: 0 <= i < j < |s| ==> s[i] != s[j]
  }

  /** Each node below `n` occurs once in the identity order, no other value occurs. */
  lemma {:induction false} SequenceVectorCounts(n: nat)
    ensures forall x: nat :: multiset(SequenceVector(n))[x] == if x < n then 1 else 0
  {
    if n > 0 {
      var last: nat := n - 1;
      SequenceVectorCounts(last);
      var counts := multiset(SequenceVector(n));
      assert counts == multiset(SequenceVector(last)) + multiset{last};
      forall x: nat
        ensures counts[x] == if x < n then 1 else 0
      {
        assert counts[x] == multiset(SequenceVector(last))[x] + multiset{last}[x];
      }
    }
  }

  /** The counting view of a permutation, in both directions. */
  lemma PermutationCounts(t: Tour, n: nat)
    ensures IsPermutation(t, n) <==> forall x: nat :: multiset(t)[x] == if x < n then 1 else 0
  {
    SequenceVectorCounts(n);
    if forall x: nat :: multiset(t)[x] == if x < n then 1 else 0 {
      assert multiset(t) == multiset(SequenceVector(n));
    }
  }

  lemma RepeatedValueCountsTwice(s: seq<nat>, i: nat, j: nat)
    requires i < j < |s| && s[i] == s[j]
    ensures multiset(s)[s[i]] >= 2
  {
    assert s == s[..j] + [s[j]] + s[j + 1..];
    assert s[..j][i] == s[i];
    assert multiset(s[..j])[s[i]] >= 1;
  }

  /** A permutation of `0..n-1` has length `n`, values below `n`, and no repeats. */
  lemma PermutationShape(t: Tour, n: nat)
    requires IsPermutation(t, n)
    ensures |t| == n
    ensures forall i :: 0 <= i < |t| ==> t[i] < n
    ensures Distinct(t)
  {
    PermutationCounts(t, n);
    assert |t| == |multiset(t)| == |multiset(SequenceVector(n))| == n;
    forall i | 0 <= i < |t|
      ensures t[i] < n
    {
      assert t[i] in multiset(t);
    }
    forall i, j | 0 <= i < j < |t|
      ensures t[i] != t[j]
    {
      if t[i] == t[j] {
        RepeatedValueCountsTwice(t, i, j);
      }
    }
  }

  lemma PermutationLength(t: Tour, n: nat)
    requires IsPermutation(t, n)
    ensures |t| == n
  {
    assert |t| == |multiset(t)| == |multiset(SequenceVector(n))| == n;
  }

  /** The elements of `s` that do not occur in `excluded`, kept in their order in `s`. */
  function Without(s: seq<nat>, excluded: seq<nat>): (r: seq<nat>)
    ensures |r| <= |s|
    ensures forall x: nat :: multiset(r)[x] == if x in excluded then 0 else multiset(s)[x]
  {
    if s == [] then []
    else
      assert s == [s[0]] + s[1..];
      (if s[0] in excluded then [] else [s[0]]) + Without(s[1..], excluded)
  }

  /** `s` backwards, as pushing `s[hi-1], ..., s[lo]` from a reversed range does. */
  function Reverse(s: seq<nat>): (r: seq<nat>)
    ensures |r| == |s|
    ensures forall i :: 0 <= i < |s| ==> r[i] == s[|s| - 1 - i]
    ensures multiset(r) == multiset(s)
  {
    if s == [] then []
    else
      assert s == [s[0]] + s[1..];
      Reverse(s[1..]) + [s[0]]
  }

  /**
   * Filling the rest of a tour from a second permutation: a piece `seg` of a
   * permutation of `0..n-1`, together with the other parent's nodes that are
   * not in `seg`, holds every node exactly once.
   */
  lemma CutAndFillCounts(seg: seq<nat>, other: Tour, n: nat)
    requires forall x: nat :: multiset(seg)[x] <= if x < n then 1 else 0
    requires IsPermutation(other, n)
    ensures multiset(seg) + multiset(Without(other, seg)) == multiset(SequenceVector(n))
    ensures |Without(other, seg)| == n - |seg|
  {
    PermutationCounts(other, n);
    SequenceVectorCounts(n);
    var filler := Without(other, seg);
    var both: multiset<nat> := multiset(seg) + multiset(filler);
    forall x: nat
      ensures both[x] == multiset(SequenceVector(n))[x]
    {
      if x in seg {
        assert x in multiset(seg);
      }
    }
    assert both == multiset(SequenceVector(n));
    assert |both| == |seg| + |filler|;
  }

  /** A contiguous piece of a permutation holds each node at most once. */
  lemma SliceOfPermutation(t: Tour, n: nat, lo: nat, hi: nat)
    requires IsPermutation(t, n)
    requires lo <= hi <= |t|
    ensures forall x: nat :: multiset(t[lo..hi])[x] <= if x < n then 1 else 0
  {
    PermutationCounts(t, n);
    assert t == t[..lo] + t[lo..hi] + t[hi..];
    assert multiset(t) == multiset(t[..lo]) + multiset(t[lo..hi]) + multiset(t[hi..]);
    forall x: nat
      ensures multiset(t[lo..hi])[x] <= if x < n then 1 else 0
    {
      assert multiset(t[lo..hi])[x] <= multiset(t)[x];
    }
  }

  function Min(a: nat, b: nat): nat {
    if a <= b then a else b
  }

  function Max(a: nat, b: nat): nat {
    if a <= b then b else a
  }
}
