/**
 * Parent selection: individuals ranked by fitness, then breeding pairs taken
 * row by row over the ranking, best first.
 */
module Selection {
  import opened Tours

  /**
   * `a` ranks before `b`: lower fitness first and, for equal fitness, the
   * lower index first, which is where a stable sort of `0..n-1` leaves ties.
   */
  predicate RankedBefore(fitness: seq<int>, a: nat, b: nat) {
    && a < |fitness| && b < |fitness|
    && (fitness[a] < fitness[b] || (fitness[a] == fitness[b] && a < b))
  }

  predicate SortedByRank(fitness: seq<int>, s: seq<nat>) {
    forall i, j :: 0 <= i < j < |s| ==> RankedBefore(fitness, s[i], s[j])
  }

  /** `r` lists every individual index once, in ascending fitness, ties in index order. */
  predicate IsRanking(fitness: seq<int>, r: seq<nat>) {
    IsPermutation(r, |fitness|) && SortedByRank(fitness, r)
  }

  lemma SortedCons(fitness: seq<int>, y: nat, t: seq<nat>)
    requires SortedByRank(fitness, t)
    requires forall i :: 0 <= i < |t| ==> RankedBefore(fitness, y, t[i])
    ensures SortedByRank(fitness, [y] + t)
  {
    forall i, j | 0 <= i < j < |[y] + t|
      ensures RankedBefore(fitness, ([y] + t)[i], ([y] + t)[j])
    {
      if i > 0 {
        assert ([y] + t)[i] == t[i - 1];
      }
      assert ([y] + t)[j] == t[j - 1];
    }
  }

  /** Puts `x` in front of the first element it ranks before. */
  function InsertByRank(fitness: seq<int>, x: nat, s: seq<nat>): (r: seq<nat>)
    requires x < |fitness|
    requires forall i :: 0 <= i < |s| ==> s[i] < |fitness|
    requires SortedByRank(fitness, s) && x !in s
    ensures multiset(r) == multiset(s) + multiset{x}
    ensures SortedByRank(fitness, r)
  {
    if s == [] then [x]
    else if RankedBefore(fitness, x, s[0]) then
      assert forall i :: 0 <= i < |s| ==> RankedBefore(fitness, x, s[i]) by {
        forall i | 0 < i < |s|
          ensures RankedBefore(fitness, x, s[i])
        {
          assert RankedBefore(fitness, s[0], s[i]);
        }
      }
      SortedCons(fitness, x, s);
      [x] + s
    else
      assert s == [s[0]] + s[1..];
      var tail := InsertByRank(fitness, x, s[1..]);
      HeadRanksFirst(fitness, x, s, tail);
      SortedCons(fitness, s[0], tail);
      [s[0]] + tail
  }

  lemma HeadRanksFirst(fitness: seq<int>, x: nat, s: seq<nat>, tail: seq<nat>)
    requires x < |fitness| && s != [] && s[0] < |fitness|
    requires SortedByRank(fitness, s) && x != s[0] && !RankedBefore(fitness, x, s[0])
    requires multiset(tail) == multiset(s[1..]) + multiset{x}
    ensures forall i :: 0 <= i < |tail| ==> RankedBefore(fitness, s[0], tail[i])
  {
    forall i | 0 <= i < |tail|
      ensures RankedBefore(fitness, s[0], tail[i])
    {
      assert tail[i] in multiset(tail);
      if tail[i] != x {
        assert tail[i] in s[1..];
        var k :| 0 <= k < |s[1..]| && s[1..][k] == tail[i];
        assert s[k + 1] == tail[i];
      }
    }
  }

  /** Insertion sort by rank: the same elements, in rank order. */
  function SortByRank(fitness: seq<int>, s: seq<nat>): (r: seq<nat>)
    requires forall i :: 0 <= i < |s| ==> s[i] < |fitness|
    requires Distinct(s)
    ensures multiset(r) == multiset(s)
    ensures SortedByRank(fitness, r)
  {
    if s == [] then []
    else
      assert s == [s[0]] + s[1..];
      var sorted := SortByRank(fitness, s[1..]);
      assert s[0] !in sorted by {
        assert s[0] !in s[1..];
        assert s[0] !in multiset(sorted);
      }
      assert forall i :: 0 <= i < |sorted| ==> sorted[i] < |fitness| by {
        forall i | 0 <= i < |sorted|
          ensures sorted[i] < |fitness|
        {
          assert sorted[i] in multiset(s[1..]);
        }
      }
      InsertByRank(fitness, s[0], sorted)
  }

  /**
   * The program's `sort_by` on fitness applied to `0..n-1`: a stable sort, so
   * the ranking lists every index once, ascending by fitness, ties by index.
   */
  function Rank(fitness: seq<int>): (r: seq<nat>)
    ensures IsRanking(fitness, r)
    ensures |r| == |fitness|
    ensures forall i :: 0 <= i < |r| ==> r[i] < |fitness|
  {
    var ids := SequenceVector(|fitness|);
    var r := SortByRank(fitness, ids);
    PermutationShape(r, |fitness|);
    r
  }

  /**
   * Two sequences with the same elements, both in rank order, are equal:
   * so whatever stable sort produced a ranking, it is `Rank`'s.
   */
  lemma {:induction false} SortedByRankUnique(fitness: seq<int>, a: seq<nat>, b: seq<nat>)
    requires multiset(a) == multiset(b)
    requires SortedByRank(fitness, a) && SortedByRank(fitness, b)
    ensures a == b
  {
    if a != [] {
      SameHead(fitness, a, b);
      SameTails(a, b);
      SortedByRankUnique(fitness, a[1..], b[1..]);
      assert a == [a[0]] + a[1..] && b == [b[0]] + b[1..];
    } else {
      assert |b| == |multiset(b)| == 0;
    }
  }

  lemma SameHead(fitness: seq<int>, a: seq<nat>, b: seq<nat>)
    requires multiset(a) == multiset(b) && a != []
    requires SortedByRank(fitness, a) && SortedByRank(fitness, b)
    ensures b != [] && a[0] == b[0]
  {
    assert |b| == |multiset(b)| == |multiset(a)| == |a|;
    if a[0] != b[0] {
      LeadsAll(fitness, b, a[0]);
      LeadsAll(fitness, a, b[0]);
      assert false;
    }
  }

  lemma SameTails(a: seq<nat>, b: seq<nat>)
    requires multiset(a) == multiset(b) && a != [] && b != [] && a[0] == b[0]
    ensures multiset(a[1..]) == multiset(b[1..])
  {
    assert a == [a[0]] + a[1..] && b == [b[0]] + b[1..];
    assert multiset(a) == multiset{a[0]} + multiset(a[1..]);
    assert multiset(b) == multiset{a[0]} + multiset(b[1..]);
    assert multiset(a[1..]) == multiset(a) - multiset{a[0]};
    assert multiset(b[1..]) == multiset(b) - multiset{a[0]};
  }

  /** The head of a rank-ordered sequence ranks before every other element in it. */
  lemma LeadsAll(fitness: seq<int>, s: seq<nat>, x: nat)
    requires SortedByRank(fitness, s)
    requires x in multiset(s) && x != s[0]
    ensures RankedBefore(fitness, s[0], x)
  {
    var k :| 0 <= k < |s| && s[k] == x;
  }

  /** Any stable fitness sort of the individual indices is exactly `Rank`. */
  lemma StableSortIsRank(fitness: seq<int>, r: seq<nat>)
    requires IsRanking(fitness, r)
    ensures r == Rank(fitness)
  {
    SortedByRankUnique(fitness, r, Rank(fitness));
  }

  /** Lexicographic order on index pairs: row first, then column. */
  predicate LexLess(p: (nat, nat), q: (nat, nat)) {
    p.0 < q.0 || (p.0 == q.0 && p.1 < q.1)
  }

  /** Row `i` of the nested scan, columns `0..j-1`, with the diagonal `(i, i)` skipped. */
  function IndexRow(i: nat, j: nat): (row: seq<(nat, nat)>)
    ensures |row| == if i < j then j - 1 else j
  {
    if j == 0 then [] else IndexRow(i, j - 1) + (if j - 1 != i then [(i, j - 1)] else [])
  }

  /** Rows `0..i-1` of the nested scan over `n` ranked individuals. */
  function IndexPairsUpTo(n: nat, i: nat): seq<(nat, nat)>
    requires i <= n
  {
    if i == 0 then [] else IndexPairsUpTo(n, i - 1) + IndexRow(i - 1, n)
  }

  /** Each full row holds `n - 1` pairs. */
  lemma {:induction false} IndexPairsUpToLength(n: nat, i: nat)
    requires 0 < i <= n
    ensures |IndexPairsUpTo(n, i)| == i * (n - 1)
  {
    if i > 1 {
      IndexPairsUpToLength(n, i - 1);
      assert (i - 1) * (n - 1) + (n - 1) == i * (n - 1);
    }
  }

  lemma IndexPairsLength(n: nat)
    ensures |IndexPairs(n)| == PairCapacity(n)
  {
    if n > 0 {
      IndexPairsUpToLength(n, n);
    }
  }

  /** The nested scan's full visiting order over `n` ranked individuals. */
  function IndexPairs(n: nat): seq<(nat, nat)> {
    IndexPairsUpTo(n, n)
  }

  /** How many pairs the nested scan can produce at most. */
  function PairCapacity(n: nat): nat {
    if n == 0 then 0 else n * (n - 1)
  }

  lemma {:induction false} IndexRowShape(i: nat, j: nat)
    ensures forall k :: 0 <= k < |IndexRow(i, j)| ==>
      IndexRow(i, j)[k].0 == i && IndexRow(i, j)[k].1 < j && IndexRow(i, j)[k].1 != i
  {
    if j > 0 {
      IndexRowShape(i, j - 1);
    }
  }

  lemma {:induction false} IndexRowOrdered(i: nat, j: nat)
    ensures forall k, l :: 0 <= k < l < |IndexRow(i, j)| ==> IndexRow(i, j)[k].1 < IndexRow(i, j)[l].1
  {
    if j > 0 {
      IndexRowOrdered(i, j - 1);
      IndexRowShape(i, j - 1);
    }
  }

  /** Every pair the scan yields joins two different positions among the first `n`. */
  lemma {:induction false} IndexPairsShape(n: nat, i: nat)
    requires i <= n
    ensures forall k :: 0 <= k < |IndexPairsUpTo(n, i)| ==>
      && IndexPairsUpTo(n, i)[k].0 < i
      && IndexPairsUpTo(n, i)[k].1 < n
      && IndexPairsUpTo(n, i)[k].0 != IndexPairsUpTo(n, i)[k].1
  {
    if i > 0 {
      IndexPairsShape(n, i - 1);
      IndexRowShape(i - 1, n);
    }
  }

  /** The scan visits pairs in strictly increasing row-major order, so it never repeats one. */
  lemma {:induction false} IndexPairsOrdered(n: nat, i: nat)
    requires i <= n
    ensures forall k, l :: 0 <= k < l < |IndexPairsUpTo(n, i)| ==>
      LexLess(IndexPairsUpTo(n, i)[k], IndexPairsUpTo(n, i)[l])
  {
    if i > 0 {
      var before := IndexPairsUpTo(n, i - 1);
      var row := IndexRow(i - 1, n);
      IndexPairsOrdered(n, i - 1);
      IndexPairsShape(n, i - 1);
      IndexRowShape(i - 1, n);
      IndexRowOrdered(i - 1, n);
      forall k, l | 0 <= k < l < |before + row|
        ensures LexLess((before + row)[k], (before + row)[l])
      {
        if l >= |before| {
          assert (before + row)[l] == row[l - |before|];
          if k >= |before| {
            assert (before + row)[k] == row[k - |before|];
          }
        }
      }
    }
  }

  /** The scan meets every ordered pair of distinct positions. */
  lemma {:induction false} IndexPairsComplete(n: nat, i: nat, a: nat, b: nat)
    requires i <= n
    requires a < i && b < n && a != b
    ensures (a, b) in IndexPairsUpTo(n, i)
  {
    if a == i - 1 {
      IndexRowComplete(a, n, b);
    } else {
      IndexPairsComplete(n, i - 1, a, b);
    }
    InNextRow(n, i, (a, b));
  }

  /** A pair of the first `i - 1` rows or of row `i - 1` is among the first `i` rows. */
  lemma InNextRow(n: nat, i: nat, p: (nat, nat))
    requires 0 < i <= n
    requires p in IndexPairsUpTo(n, i - 1) || p in IndexRow(i - 1, n)
    ensures p in IndexPairsUpTo(n, i)
  {
    NextRow(n, i - 1);
    InAppend(p, IndexPairsUpTo(n, i - 1), IndexRow(i - 1, n));
  }

  lemma InAppend<T>(x: T, s: seq<T>, t: seq<T>)
    requires x in s || x in t
    ensures x in s + t
  {
  }

  lemma {:induction false} IndexRowComplete(i: nat, j: nat, b: nat)
    requires b < j && b != i
    ensures (i, b) in IndexRow(i, j)
  {
    if b < j - 1 {
      IndexRowComplete(i, j - 1, b);
    }
  }

  lemma {:induction false} IndexRowPrefix(i: nat, j: nat, m: nat)
    requires j <= m
    ensures IndexRow(i, j) <= IndexRow(i, m)
    decreases m
  {
    if j < m {
      IndexRowPrefix(i, j, m - 1);
      assert IndexRow(i, m - 1) <= IndexRow(i, m);
    }
  }

  lemma {:induction false} IndexPairsUpToPrefix(n: nat, i: nat, m: nat)
    requires i <= m <= n
    ensures IndexPairsUpTo(n, i) <= IndexPairsUpTo(n, m)
    decreases m
  {
    if i < m {
      IndexPairsUpToPrefix(n, i, m - 1);
      assert IndexPairsUpTo(n, m - 1) <= IndexPairsUpTo(n, m);
    }
  }

  /** Standing in row `i` at column `j`, the scan has produced a prefix of its full order. */
  lemma ScanIsPrefix(n: nat, i: nat, j: nat)
    requires i < n && j <= n
    ensures IndexPairsUpTo(n, i) + IndexRow(i, j) <= IndexPairs(n)
  {
    ScanInRow(n, i, j);
    IndexPairsUpToPrefix(n, i + 1, n);
    ScanTail(n, i, j);
  }

  lemma ScanTail(n: nat, i: nat, j: nat)
    requires i < n && j <= n
    requires IndexPairsUpTo(n, i) + IndexRow(i, j) <= IndexPairsUpTo(n, i + 1)
    requires IndexPairsUpTo(n, i + 1) <= IndexPairsUpTo(n, n)
    ensures IndexPairsUpTo(n, i) + IndexRow(i, j) <= IndexPairs(n)
  {
    PrefixTransitive(IndexPairsUpTo(n, i) + IndexRow(i, j), IndexPairsUpTo(n, i + 1), IndexPairsUpTo(n, n));
  }

  /** Part of row `i` scanned: a prefix of the scan through the end of row `i`. */
  lemma ScanInRow(n: nat, i: nat, j: nat)
    requires i < n && j <= n
    ensures IndexPairsUpTo(n, i) + IndexRow(i, j) <= IndexPairsUpTo(n, i + 1)
  {
    IndexRowPrefix(i, j, n);
    NextRow(n, i);
    ChainPrefix(IndexPairsUpTo(n, i), IndexRow(i, j), IndexRow(i, n));
  }

  lemma PrefixTransitive<T>(a: seq<T>, b: seq<T>, c: seq<T>)
    requires a <= b && b <= c
    ensures a <= c
  {
    assert b[..|a|] == a;
  }

  lemma ChainPrefix<T>(before: seq<T>, partial: seq<T>, full: seq<T>)
    requires partial <= full
    ensures before + partial <= before + full
  {
    assert (before + full)[..|before + partial|] == before + partial;
  }

  lemma NextRow(n: nat, i: nat)
    requires i < n
    ensures IndexPairsUpTo(n, i + 1) == IndexPairsUpTo(n, i) + IndexRow(i, n)
  {
  }

  lemma NextColumn(i: nat, j: nat)
    ensures IndexRow(i, j + 1) == IndexRow(i, j) + (if j != i then [(i, j)] else [])
  {
  }

  lemma ReadThroughAppend(ranked: seq<nat>, indices: seq<(nat, nat)>, pairs: seq<(nat, nat)>, p: (nat, nat))
    requires ReadThrough(ranked, indices, pairs)
    requires p.0 < |ranked| && p.1 < |ranked|
    ensures ReadThrough(ranked, indices + [p], pairs + [(ranked[p.0], ranked[p.1])])
  {
    var indices', pairs' := indices + [p], pairs + [(ranked[p.0], ranked[p.1])];
    forall k | 0 <= k < |indices'|
      ensures indices'[k].0 < |ranked| && indices'[k].1 < |ranked|
      ensures pairs'[k] == (ranked[indices'[k].0], ranked[indices'[k].1])
    {
      if k < |indices| {
        assert indices'[k] == indices[k] && pairs'[k] == pairs[k];
      }
    }
  }

  /** The first `n - 1` pairs of the scan are row 0: the best-ranked position with each other one. */
  lemma FirstRowLeads(n: nat, k: nat)
    requires k < |IndexPairs(n)| && k + 1 < n
    ensures IndexPairs(n)[k] == (0, k + 1)
  {
    IndexPairsUpToPrefix(n, 1, n);
    assert IndexPairsUpTo(n, 1) == IndexRow(0, n);
    assert k < |IndexRow(0, n)|;
    IndexRowAt(n, k);
  }

  lemma {:induction false} IndexRowAt(j: nat, k: nat)
    requires k + 1 < j
    ensures IndexRow(0, j)[k] == (0, k + 1)
  {
    if k + 2 < j {
      IndexRowAt(j - 1, k);
    }
  }

  /** `pairs` is `indices` read through the ranking. */
  predicate ReadThrough(ranked: seq<nat>, indices: seq<(nat, nat)>, pairs: seq<(nat, nat)>) {
    && |pairs| == |indices|
    && forall k :: 0 <= k < |indices| ==>
         indices[k].0 < |ranked| && indices[k].1 < |ranked| && pairs[k] == (ranked[indices[k].0], ranked[indices[k].1])
  }

  /**
   * The breeding pairs: the first `count` pairs of the nested scan over the
   * ranking, or all of them when there are fewer; each pair joins two
   * different individuals, and the first `n - 1` all lead with the best.
   */
  function CrossoverPairs(fitness: seq<int>, count: nat): (pairs: seq<(nat, nat)>)
    ensures |pairs| == Min(count, PairCapacity(|fitness|))
    ensures forall k :: 0 <= k < |pairs| ==>
      pairs[k].0 < |fitness| && pairs[k].1 < |fitness| && pairs[k].0 != pairs[k].1
    ensures forall k :: 0 <= k < |pairs| && k + 1 < |fitness| ==> pairs[k].0 == Rank(fitness)[0]
  {
    var ranked := Rank(fitness);
    var n := |fitness|;
    var visited := Visited(n, count);
    VisitedShape(n, count);
    var pairs := ReadPairs(ranked, visited);
    PermutationShape(ranked, n);
    DistinctReading(ranked, n, visited, pairs);
    LeadingReading(ranked, n, visited, pairs);
    pairs
  }

  /** The pairs of `ranked` entries that `indices` names, in order. */
  function ReadPairs(ranked: seq<nat>, indices: seq<(nat, nat)>): (pairs: seq<(nat, nat)>)
    requires forall k :: 0 <= k < |indices| ==> indices[k].0 < |ranked| && indices[k].1 < |ranked|
    ensures ReadThrough(ranked, indices, pairs)
  {
    seq(|indices|, k requires 0 <= k < |indices| => (ranked[indices[k].0], ranked[indices[k].1]))
  }

  /** The index pairs the scan visits before it stops: the first `count` of the scan order, or all of them. */
  function Visited(n: nat, count: nat): (visited: seq<(nat, nat)>)
    ensures visited <= IndexPairs(n)
    ensures |visited| == Min(count, PairCapacity(n))
  {
    IndexPairsLength(n);
    IndexPairs(n)[..Min(count, PairCapacity(n))]
  }

  /** The visited index pairs are in range, never a diagonal, and the first row leads with rank 0. */
  lemma VisitedShape(n: nat, count: nat)
    ensures forall k :: 0 <= k < |Visited(n, count)| ==>
      && Visited(n, count)[k].0 < n && Visited(n, count)[k].1 < n
      && Visited(n, count)[k].0 != Visited(n, count)[k].1
      && (k + 1 < n ==> Visited(n, count)[k] == (0, k + 1))
  {
    var visited := Visited(n, count);
    IndexPairsShape(n, n);
    forall k | 0 <= k < |visited|
      ensures visited[k] == IndexPairs(n)[k]
    {
    }
    forall k | 0 <= k < |visited| && k + 1 < n
      ensures IndexPairs(n)[k] == (0, k + 1)
    {
      FirstRowLeads(n, k);
    }
  }

  /** Reading index pairs off a repeat-free ranking never pairs an individual with itself. */
  lemma DistinctReading(ranked: seq<nat>, n: nat, indices: seq<(nat, nat)>, pairs: seq<(nat, nat)>)
    requires |ranked| == n && Distinct(ranked) && forall i :: 0 <= i < n ==> ranked[i] < n
    requires ReadThrough(ranked, indices, pairs)
    requires forall k :: 0 <= k < |indices| ==> indices[k].0 != indices[k].1
    ensures forall k :: 0 <= k < |pairs| ==> pairs[k].0 < n && pairs[k].1 < n && pairs[k].0 != pairs[k].1
  {
    forall k | 0 <= k < |pairs|
      ensures pairs[k].0 < n && pairs[k].1 < n && pairs[k].0 != pairs[k].1
    {
      var (a, b) := indices[k];
      if a < b {
        assert ranked[a] != ranked[b];
      } else {
        assert ranked[b] != ranked[a];
      }
    }
  }

  /** Index pairs that start in row 0 read as pairs that start with the best-ranked individual. */
  lemma LeadingReading(ranked: seq<nat>, n: nat, indices: seq<(nat, nat)>, pairs: seq<(nat, nat)>)
    requires |ranked| == n
    requires ReadThrough(ranked, indices, pairs)
    requires forall k :: 0 <= k < |indices| && k + 1 < n ==> indices[k].0 == 0
    ensures forall k :: 0 <= k < |pairs| && k + 1 < n ==> pairs[k].0 == ranked[0]
  {
    forall k | 0 <= k < |pairs| && k + 1 < n
      ensures pairs[k].0 == ranked[0]
    {
      assert pairs[k] == (ranked[indices[k].0], ranked[indices[k].1]);
    }
  }

  /**
   * The program's `generate_crossover_pairs`: rank, then scan the ranking
   * in nested loops.
   */
  method GenerateCrossoverPairs(fitness: seq<int>, count: nat) returns (pairs: seq<(nat, nat)>)
    ensures pairs == CrossoverPairs(fitness, count)
  {
    var parents := Rank(fitness);
    pairs := ScanPairs(parents, count);
    SameReading(fitness, count, pairs);
  }

  /**
   * The nested loop: outer index `i` and inner index `j` both from best to
   * worst rank, skipping `i == j`, returning as soon as `count` pairs are
   * collected: the pairs are the visited index pairs read through `parents`.
   */
  method ScanPairs(parents: seq<nat>, count: nat) returns (pairs: seq<(nat, nat)>)
    ensures ReadThrough(parents, Visited(|parents|, count), pairs)
  {
    var n := |parents|;
    pairs := [];
    ghost var done := [];
    for i := 0 to n
      invariant |pairs| <= count
      invariant done == IndexPairsUpTo(n, i)
      invariant ReadThrough(parents, done, pairs)
    {
      var stop;
      pairs, done, stop := ScanRow(parents, count, i, pairs, done);
      if stop {
        ScanStops(parents, count, pairs, done);
        return;
      }
    }
    ScanStops(parents, count, pairs, done);
  }

  /**
   * Where the scan stops, with `count` pairs or at the end of the scan
   * order, the index pairs it covered are exactly the visited ones.
   */
  lemma ScanStops(parents: seq<nat>, count: nat, pairs: seq<(nat, nat)>, done: seq<(nat, nat)>)
    requires done <= IndexPairs(|parents|)
    requires ReadThrough(parents, done, pairs)
    requires |pairs| == count || (|pairs| <= count && done == IndexPairs(|parents|))
    ensures ReadThrough(parents, Visited(|parents|, count), pairs)
  {
    IndexPairsLength(|parents|);
    assert done == Visited(|parents|, count);
  }

  /**
   * The inner loop for row `i`; `stop` is the early return once `count`
   * pairs are collected, otherwise the whole row has been scanned.
   */
  method ScanRow(parents: seq<nat>, count: nat, i: nat, pairs0: seq<(nat, nat)>, ghost done0: seq<(nat, nat)>)
    returns (pairs: seq<(nat, nat)>, ghost done: seq<(nat, nat)>, stop: bool)
    requires i < |parents| && |pairs0| <= count
    requires done0 == IndexPairsUpTo(|parents|, i)
    requires ReadThrough(parents, done0, pairs0)
    ensures |pairs| <= count
    ensures ReadThrough(parents, done, pairs)
    ensures stop ==> |pairs| == count && done <= IndexPairs(|parents|)
    ensures !stop ==> done == IndexPairsUpTo(|parents|, i + 1)
  {
    var n := |parents|;
    pairs, done, stop := pairs0, done0, false;
    for j := 0 to n
      invariant |pairs| <= count
      invariant done == IndexPairsUpTo(n, i) + IndexRow(i, j)
      invariant ReadThrough(parents, done, pairs)
    {
      if |pairs| == count {
        ScanIsPrefix(n, i, j);
        stop := true;
        return;
      }
      ScanStep(parents, i, j, done, pairs);
      if i != j {
        pairs := pairs + [(parents[i], parents[j])];
        done := done + [(i, j)];
      }
    }
    NextRow(n, i);
  }

  /** One column of the scan keeps the reading of the visited index pairs. */
  lemma ScanStep(parents: seq<nat>, i: nat, j: nat, done: seq<(nat, nat)>, pairs: seq<(nat, nat)>)
    requires i < |parents| && j < |parents|
    requires done == IndexPairsUpTo(|parents|, i) + IndexRow(i, j)
    requires ReadThrough(parents, done, pairs)
    ensures i == j ==> done == IndexPairsUpTo(|parents|, i) + IndexRow(i, j + 1)
    ensures i != j ==> done + [(i, j)] == IndexPairsUpTo(|parents|, i) + IndexRow(i, j + 1)
    ensures i != j ==> ReadThrough(parents, done + [(i, j)], pairs + [(parents[i], parents[j])])
  {
    NextColumn(i, j);
    if i != j {
      ReadThroughAppend(parents, done, pairs, (i, j));
    }
  }

  /** Two readings of the visited index pairs through the ranking agree. */
  lemma SameReading(fitness: seq<int>, count: nat, pairs: seq<(nat, nat)>)
    requires ReadThrough(Rank(fitness), Visited(|fitness|, count), pairs)
    ensures pairs == CrossoverPairs(fitness, count)
  {
    var expected := CrossoverPairs(fitness, count);
    assert |pairs| == |expected|;
  }

}
