/**
 * The five mutation operators. Each random position the program draws is a
 * parameter here, constrained to the range the program draws it from.
 */
module Mutation {
  import opened Tours

  /** The operator kinds, under the program's own names; `FourOptSwap` runs the plain swap. */
  datatype MutationType = TwoOptSwap | FourOptSwap | Reversion | Insertion | Scramble

  /**
   * `floor(n * MUTATION_STRENGTH)` with `MUTATION_STRENGTH = 0.1`: the segment
   * length of the segment operators and the swap count of the scramble.
   */
  function SegmentSize(n: nat): (k: nat)
    ensures 10 * k <= n < 10 * (k + 1)
    ensures k < n || n == 0
  {
    n / 10
  }

  /** Exchanges the nodes at two positions, which may coincide. */
  function SwapMutate(path: Tour, point1: nat, point2: nat): (r: Tour)
    requires point1 < |path| && point2 < |path|
    ensures |r| == |path|
    ensures r[point1] == path[point2] && r[point2] == path[point1]
    ensures forall i :: 0 <= i < |path| && i != point1 && i != point2 ==> r[i] == path[i]
    ensures multiset(r) == multiset(path)
  {
    path[point1 := path[point2]][point2 := path[point1]]
  }

  /** `path` with the positions `lo..hi-1` in reverse order and everything else in place. */
  function ReverseSegment(path: Tour, lo: nat, hi: nat): (r: Tour)
    requires lo <= hi <= |path|
    ensures |r| == |path|
    ensures forall i :: 0 <= i < |path| && (i < lo || hi <= i) ==> r[i] == path[i]
    ensures forall i :: lo <= i < hi ==> r[i] == path[lo + hi - 1 - i]
    ensures multiset(r) == multiset(path)
  {
    assert path == path[..lo] + path[lo..hi] + path[hi..];
    path[..lo] + Reverse(path[lo..hi]) + path[hi..]
  }

  /**
   * Reverses positions `point1..point2-1`, where `point1` is drawn below
   * `n - SegmentSize(n)` and `point2` from `point1` up to `n - 1`; the last
   * position is never part of the reversed stretch.
   */
  function TwoOptSwapMutate(path: Tour, point1: nat, point2: nat): (r: Tour)
    requires point1 < |path| - SegmentSize(|path|)
    requires point1 <= point2 < |path|
    ensures |r| == |path|
    ensures forall i :: 0 <= i < |path| && (i < point1 || point2 <= i) ==> r[i] == path[i]
    ensures forall i :: point1 <= i < point2 ==> r[i] == path[point1 + point2 - 1 - i]
    ensures r[|path| - 1] == path[|path| - 1]
    ensures multiset(r) == multiset(path)
  {
    ReverseSegment(path, point1, point2)
  }

  /**
   * Reverses exactly `SegmentSize(n)` positions starting at `segmentStart`,
   * which is drawn below `n - SegmentSize(n)`; below ten nodes nothing moves.
   */
  function ReversionMutate(path: Tour, segmentStart: nat): (r: Tour)
    requires segmentStart < |path| - SegmentSize(|path|)
    ensures |r| == |path|
    ensures forall i :: 0 <= i < |path| && (i < segmentStart || segmentStart + SegmentSize(|path|) <= i) ==> r[i] == path[i]
    ensures forall i :: segmentStart <= i < segmentStart + SegmentSize(|path|) ==>
      r[i] == path[2 * segmentStart + SegmentSize(|path|) - 1 - i]
    ensures r[|path| - 1] == path[|path| - 1]
    ensures |path| < 10 ==> r == path
    ensures multiset(r) == multiset(path)
  {
    ReverseSegment(path, segmentStart, segmentStart + SegmentSize(|path|))
  }

  /** `path` without the `len` positions starting at `start`. */
  function CutOut(path: Tour, start: nat, len: nat): (rest: Tour)
    requires start + len <= |path|
  {
    path[..start] + path[start + len..]
  }

  /**
   * Takes the `SegmentSize(n)` nodes starting at `segmentStart` out of the
   * tour and puts them back, in their order, so that they start at
   * `insertPoint` of the shortened tour. Both positions are drawn below
   * `n - SegmentSize(n)`.
   */
  function InsertionMutate(path: Tour, segmentStart: nat, insertPoint: nat): (r: Tour)
    requires segmentStart < |path| - SegmentSize(|path|)
    requires insertPoint < |path| - SegmentSize(|path|)
    ensures |r| == |path|
    ensures r[insertPoint..insertPoint + SegmentSize(|path|)]
         == path[segmentStart..segmentStart + SegmentSize(|path|)]
    ensures var rest := CutOut(path, segmentStart, SegmentSize(|path|));
            r[..insertPoint] == rest[..insertPoint] &&
            r[insertPoint + SegmentSize(|path|)..] == rest[insertPoint..]
    ensures |path| < 10 ==> r == path
    ensures multiset(r) == multiset(path)
  {
    var k := SegmentSize(|path|);
    var segment := path[segmentStart..segmentStart + k];
    var rest := CutOut(path, segmentStart, k);
    MoveSegmentCounts(path, segmentStart, k, insertPoint);
    assert k == 0 ==> rest == path;
    rest[..insertPoint] + segment + rest[insertPoint..]
  }

  /** Cutting a segment out and splicing it back in elsewhere keeps every node. */
  lemma MoveSegmentCounts(path: Tour, segmentStart: nat, k: nat, insertPoint: nat)
    requires segmentStart + k <= |path|
    requires insertPoint <= |path| - k
    ensures var rest := CutOut(path, segmentStart, k);
      multiset(rest[..insertPoint] + path[segmentStart..segmentStart + k] + rest[insertPoint..]) == multiset(path)
  {
    var segment := path[segmentStart..segmentStart + k];
    var rest := CutOut(path, segmentStart, k);
    assert multiset(path) == multiset(rest) + multiset(segment) by {
      assert path == path[..segmentStart] + segment + path[segmentStart + k..];
    }
    assert rest == rest[..insertPoint] + rest[insertPoint..];
  }

  /** `Vec::insert`: `x` lands at `index` and the nodes from `index` on move one place right. */
  function InsertAt(v: Tour, index: nat, x: nat): (r: Tour)
    requires index <= |v|
    ensures |r| == |v| + 1
    ensures r[index] == x
    ensures forall i :: 0 <= i < index ==> r[i] == v[i]
    ensures forall i :: index < i <= |v| ==> r[i] == v[i - 1]
  {
    v[..index] + [x] + v[index..]
  }

  /**
   * The program's own construction of the insertion: the kept nodes first,
   * then the segment's nodes inserted one by one at `insertPoint + i`.
   */
  method InsertionMutateLoop(path: Tour, segmentStart: nat, insertPoint: nat) returns (r: Tour)
    requires segmentStart < |path| - SegmentSize(|path|)
    requires insertPoint < |path| - SegmentSize(|path|)
    ensures r == InsertionMutate(path, segmentStart, insertPoint)
  {
    var k := SegmentSize(|path|);
    var rest := CutOut(path, segmentStart, k);
    var tmp := CutOutLoop(path, segmentStart, k);
    for i := 0 to k
      invariant tmp == rest[..insertPoint] + path[segmentStart..segmentStart + i] + rest[insertPoint..]
    {
      InsertNext(rest, insertPoint, path, segmentStart, i);
      tmp := InsertAt(tmp, insertPoint + i, path[segmentStart + i]);
    }
    r := tmp;
  }

  /** The program's first two loops: every node before the segment, then every node after it. */
  method CutOutLoop(path: Tour, start: nat, len: nat) returns (rest: Tour)
    requires start + len <= |path|
    ensures |rest| == |path| - len
    ensures rest[..start] == path[..start] && rest[start..] == path[start + len..]
  {
    rest := [];
    for i := 0 to start
      invariant rest == path[..i]
    {
      rest := rest + [path[i]];
    }
    for i := start + len to |path|
      invariant rest == path[..start] + path[start + len..i]
    {
      rest := rest + [path[i]];
    }
  }

  /** Inserting the segment's next node right after the part already inserted extends that part by one. */
  lemma InsertNext(rest: Tour, insertPoint: nat, path: Tour, segmentStart: nat, i: nat)
    requires insertPoint <= |rest|
    requires segmentStart + i < |path|
    ensures InsertAt(rest[..insertPoint] + path[segmentStart..segmentStart + i] + rest[insertPoint..], insertPoint + i, path[segmentStart + i])
         == rest[..insertPoint] + path[segmentStart..segmentStart + i + 1] + rest[insertPoint..]
  {
    var before := rest[..insertPoint] + path[segmentStart..segmentStart + i] + rest[insertPoint..];
    assert before[..insertPoint + i] == rest[..insertPoint] + path[segmentStart..segmentStart + i];
    assert before[insertPoint + i..] == rest[insertPoint..];
    assert path[segmentStart..segmentStart + i + 1] == path[segmentStart..segmentStart + i] + [path[segmentStart + i]];
  }

  /** Applies the swaps in order, each one as `SwapMutate` does. */
  function ApplySwaps(path: Tour, swaps: seq<(nat, nat)>): (r: Tour)
    requires forall s :: s in swaps ==> s.0 < |path| && s.1 < |path|
    ensures |r| == |path|
    ensures multiset(r) == multiset(path)
    decreases |swaps|
  {
    if swaps == [] then path
    else ApplySwaps(SwapMutate(path, swaps[0].0, swaps[0].1), swaps[1..])
  }

  /** `SegmentSize(n)` successive swaps at independently drawn positions. */
  function ScrambleMutate(path: Tour, swaps: seq<(nat, nat)>): (r: Tour)
    requires |swaps| == SegmentSize(|path|)
    requires forall s :: s in swaps ==> s.0 < |path| && s.1 < |path|
    ensures |r| == |path|
    ensures |path| < 10 ==> r == path
    ensures multiset(r) == multiset(path)
  {
    ApplySwaps(path, swaps)
  }

  /** The random positions one application of an operator draws. */
  datatype MutationDraw =
    | Points(point1: nat, point2: nat)
    | SegmentAt(segmentStart: nat)
    | Move(segmentStart: nat, insertPoint: nat)
    | Swaps(swaps: seq<(nat, nat)>)

  /** `draw` is something the operator `kind` can draw for a tour of `n` nodes. */
  predicate DrawFits(kind: MutationType, draw: MutationDraw, n: nat) {
    match kind
    case FourOptSwap =>
      draw.Points? && draw.point1 < n && draw.point2 < n
    case TwoOptSwap =>
      draw.Points? && draw.point1 < n - SegmentSize(n) && draw.point1 <= draw.point2 < n
    case Reversion =>
      draw.SegmentAt? && draw.segmentStart < n - SegmentSize(n)
    case Insertion =>
      draw.Move? && draw.segmentStart < n - SegmentSize(n) && draw.insertPoint < n - SegmentSize(n)
    case Scramble =>
      draw.Swaps? && |draw.swaps| == SegmentSize(n) && forall s :: s in draw.swaps ==> s.0 < n && s.1 < n
  }

  /** The dispatch on the configured operator; every operator keeps a tour a permutation. */
  function MutateInPlace(kind: MutationType, path: Tour, draw: MutationDraw): (r: Tour)
    requires DrawFits(kind, draw, |path|)
    ensures |r| == |path|
    ensures multiset(r) == multiset(path)
    ensures forall n: nat :: IsPermutation(path, n) ==> IsPermutation(r, n)
  {
    match kind
    case FourOptSwap => SwapMutate(path, draw.point1, draw.point2)
    case TwoOptSwap => TwoOptSwapMutate(path, draw.point1, draw.point2)
    case Reversion => ReversionMutate(path, draw.segmentStart)
    case Insertion => InsertionMutate(path, draw.segmentStart, draw.insertPoint)
    case Scramble => ScrambleMutate(path, draw.swaps)
  }
}
