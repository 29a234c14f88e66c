/**
 * The weight matrix of a graph and the length of a closed tour over it.
 * Weights are the program's signed machine integers, taken here as unbounded.
 */
module Graph {

  /** `size` nodes and an adjacency matrix of edge weights, row `from`, column `to`. */
  datatype MatrixGraph = MatrixGraph(size: nat, adjMatrix: seq<seq<int>>)

  /** `m` has `n` rows of `n` weights each. */
  predicate IsSquare(m: seq<seq<int>>, n: nat) {
    |m| == n && forall i :: 0 <= i < n ==> |m[i]| == n
  }

  /** A graph of `size` nodes whose every weight is 0. */
  function New(size: nat): (g: MatrixGraph)
    ensures g.size == size
    ensures IsSquare(g.adjMatrix, size)
    ensures forall i, j :: 0 <= i < size && 0 <= j < size ==> g.adjMatrix[i][j] == 0
  {
    MatrixGraph(size, seq(size, _ => seq(size, _ => 0)))
  }

  /** The matrix holds an entry for the step `from -> to`. */
  predicate HasEdge(g: MatrixGraph, from: nat, to: nat) {
    from < |g.adjMatrix| && to < |g.adjMatrix[from]|
  }

  /** The weight of the step `from -> to`; the program panics where the matrix has no such entry. */
  function GetWeight(g: MatrixGraph, from: nat, to: nat): (w: int)
    requires HasEdge(g, from, to)
    ensures w == g.adjMatrix[from][to]
  {
    g.adjMatrix[from][to]
  }

  /** Replaces the whole matrix; the recorded size is left as it was. */
  function SetAdjMatrix(g: MatrixGraph, adjMatrix: seq<seq<int>>): (r: MatrixGraph)
    ensures r.size == g.size
    ensures forall from: nat, to: nat :: HasEdge(r, from, to) <==> from < |adjMatrix| && to < |adjMatrix[from]|
    ensures forall from: nat, to: nat :: HasEdge(r, from, to) ==> GetWeight(r, from, to) == adjMatrix[from][to]
  {
    g.(adjMatrix := adjMatrix)
  }

  /** The position visited after position `i` on a closed tour of `n` nodes. */
  function Successor(n: nat, i: nat): nat {
    if i + 1 < n then i + 1 else 0
  }

  /** Leg `i` of the closed tour, `path[i]` to the node after it, has a matrix entry. */
  predicate LegInRange(g: MatrixGraph, path: seq<nat>, i: nat) {
    i < |path| && HasEdge(g, path[i], path[Successor(|path|, i)])
  }

  /** Every leg of the closed tour, the one back to the start included, has a matrix entry. */
  predicate TourEdgesInRange(g: MatrixGraph, path: seq<nat>) {
    && |path| >= 1
    && forall i: nat :: i < |path| ==> LegInRange(g, path, i)
  }

  /** The weights of the first `k` legs of the closed tour. */
  function LegSum(g: MatrixGraph, path: seq<nat>, k: nat): int
    requires TourEdgesInRange(g, path)
    requires k <= |path|
  {
    if k == 0 then 0
    else
      assert LegInRange(g, path, k - 1);
      LegSum(g, path, k - 1) + GetWeight(g, path[k - 1], path[Successor(|path|, k - 1)])
  }

  /** The closed-tour length: the sum over every leg `path[i] -> path[(i + 1) mod n]` of the tour. */
  function TourLength(g: MatrixGraph, path: seq<nat>): int
    requires TourEdgesInRange(g, path)
  {
    LegSum(g, path, |path|)
  }

  /**
   * The program's loop: the consecutive steps `path[i] -> path[i+1]` summed
   * first, then the closing step from the last node back to the first.
   */
  method CalculatePathLength(g: MatrixGraph, path: seq<nat>) returns (length: int)
    requires TourEdgesInRange(g, path)
    ensures length == TourLength(g, path)
  {
    length := 0;
    for i := 0 to |path| - 1
      invariant length == LegSum(g, path, i)
    {
      assert LegInRange(g, path, i);
      length := length + GetWeight(g, path[i], path[i + 1]);
    }
    assert LegInRange(g, path, |path| - 1);
    length := length + GetWeight(g, path[|path| - 1], path[0]);
  }

  /** With no negative weight in the matrix, no partial sum of legs is negative. */
  lemma {:induction false} LegSumNonNegative(g: MatrixGraph, path: seq<nat>, k: nat)
    requires TourEdgesInRange(g, path)
    requires k <= |path|
    requires forall i, j :: 0 <= i < |g.adjMatrix| && 0 <= j < |g.adjMatrix[i]| ==> g.adjMatrix[i][j] >= 0
    ensures LegSum(g, path, k) >= 0
  {
    if k > 0 {
      LegSumNonNegative(g, path, k - 1);
      assert LegInRange(g, path, k - 1);
    }
  }

  /** Tour length is non-negative whenever all weights are. */
  lemma TourLengthNonNegative(g: MatrixGraph, path: seq<nat>)
    requires TourEdgesInRange(g, path)
    requires forall i, j :: 0 <= i < |g.adjMatrix| && 0 <= j < |g.adjMatrix[i]| ==> g.adjMatrix[i][j] >= 0
    ensures TourLength(g, path) >= 0
  {
    LegSumNonNegative(g, path, |path|);
  }

  /** On the all-zero graph that `New` builds every partial sum is 0. */
  lemma {:induction false} LegSumOfNewIsZero(size: nat, path: seq<nat>, k: nat)
    requires TourEdgesInRange(New(size), path)
    requires k <= |path|
    ensures LegSum(New(size), path, k) == 0
  {
    if k > 0 {
      LegSumOfNewIsZero(size, path, k - 1);
      assert LegInRange(New(size), path, k - 1);
    }
  }

  /** Every tour over a freshly created graph has length 0. */
  lemma TourLengthOfNewIsZero(size: nat, path: seq<nat>)
    requires TourEdgesInRange(New(size), path)
    ensures TourLength(New(size), path) == 0
  {
    LegSumOfNewIsZero(size, path, |path|);
  }

  /** A one-node tour has exactly one leg, from the node to itself. */
  lemma SingleNodeTourLength(g: MatrixGraph, v: nat)
    requires HasEdge(g, v, v)
    ensures TourEdgesInRange(g, [v])
    ensures TourLength(g, [v]) == GetWeight(g, v, v)
  {
    assert LegInRange(g, [v], 0);
    assert LegSum(g, [v], 1) == LegSum(g, [v], 0) + GetWeight(g, v, v);
  }
}
