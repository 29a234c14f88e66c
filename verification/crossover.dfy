/**
 * The crossover operators: one child from two parent tours. The cut points
 * the program draws at random are parameters.
 */
module Crossover {
  import opened Tours
  import opened Options

  /**
   * The operator kinds under the program's names. `PMX` runs the one-point
   * cut-and-fill operator, not textbook partially-mapped crossover.
   */
  datatype CrossoverType = PMX | OX | CX

  /**
   * Parent 1's first `crossoverPoint` nodes, then parent 2's nodes that are
   * not among them, in parent 2's order. The cut is drawn from `1..n-1`.
   */
  function OnePointCrossover(parent1: Tour, parent2: Tour, crossoverPoint: nat): (child: Tour)
    requires 1 <= crossoverPoint < |parent1|
    ensures crossoverPoint <= |child| <= crossoverPoint + |parent2|
    ensures child[..crossoverPoint] == parent1[..crossoverPoint]
    ensures forall x: nat ::
      multiset(child)[x] == multiset(parent1[..crossoverPoint])[x] + (if x in parent1[..crossoverPoint] then 0 else multiset(parent2)[x])
  {
    var prefix := parent1[..crossoverPoint];
    var child := prefix + Without(parent2, prefix);
    assert child[..crossoverPoint] == prefix;
    assert multiset(child) == multiset(prefix) + multiset(Without(parent2, prefix));
    child
  }

  /** For permutation parents the one-point child is a permutation that starts with parent 1's prefix. */
  lemma OnePointCrossoverIsPermutation(parent1: Tour, parent2: Tour, crossoverPoint: nat, n: nat)
    requires IsPermutation(parent1, n) && IsPermutation(parent2, n)
    requires 1 <= crossoverPoint < |parent1|
    ensures var child := OnePointCrossover(parent1, parent2, crossoverPoint);
      && IsPermutation(child, n)
      && child[..crossoverPoint] == parent1[..crossoverPoint]
      && child[crossoverPoint..] == Without(parent2, parent1[..crossoverPoint])
  {
    var prefix := parent1[..crossoverPoint];
    SliceOfPermutation(parent1, n, 0, crossoverPoint);
    assert parent1[0..crossoverPoint] == prefix;
    CutAndFillCounts(prefix, parent2, n);
    assert multiset(OnePointCrossover(parent1, parent2, crossoverPoint)) == multiset(prefix) + multiset(Without(parent2, prefix));
  }

  /** How many slots are still empty. */
  function Holes(slots: seq<Option<nat>>): (count: nat) {
    if slots == [] then 0 else (if slots[0].None? then 1 else 0) + Holes(slots[1..])
  }

  lemma {:induction false} HolesAppend(a: seq<Option<nat>>, b: seq<Option<nat>>)
    ensures Holes(a + b) == Holes(a) + Holes(b)
  {
    if a == [] {
      assert a + b == b;
    } else {
      assert (a + b)[0] == a[0];
      assert (a + b)[1..] == a[1..] + b;
      HolesAppend(a[1..], b);
    }
  }

  lemma HolesOfLongerPrefix(slots: seq<Option<nat>>, i: nat)
    requires i < |slots|
    ensures Holes(slots[..i + 1]) == Holes(slots[..i]) + (if slots[i].None? then 1 else 0)
  {
    assert slots[..i + 1] == slots[..i] + [slots[i]];
    HolesAppend(slots[..i], [slots[i]]);
  }

  /**
   * Left to right, every empty slot takes the next unused node; the fill
   * fails (the program's `unwrap` panics) when the unused nodes run out.
   * Unused nodes left over at the end are dropped.
   */
  function FillGaps(slots: seq<Option<nat>>, unused: seq<nat>): (r: Option<Tour>)
    ensures r.Some? <==> Holes(slots) <= |unused|
    ensures r.Some? ==> |r.value| == |slots|
    ensures r.Some? ==> forall i :: 0 <= i < |slots| && slots[i].Some? ==> r.value[i] == slots[i].value
  {
    if slots == [] then Some([])
    else if slots[0].Some? then
      match FillGaps(slots[1..], unused)
      case None => None
      case Some(tail) => Some([slots[0].value] + tail)
    else if unused == [] then None
    else
      match FillGaps(slots[1..], unused[1..])
      case None => None
      case Some(tail) => Some([unused[0]] + tail)
  }

  /** The empty slot at position `i` receives the unused node whose index is the number of empty slots before `i`. */
  lemma {:induction false} FillGapsOrder(slots: seq<Option<nat>>, unused: seq<nat>, i: nat)
    requires FillGaps(slots, unused).Some?
    requires i < |slots| && slots[i].None?
    ensures Holes(slots[..i]) < |unused|
    ensures FillGaps(slots, unused).value[i] == unused[Holes(slots[..i])]
  {
    var used := if slots[0].None? then 1 else 0;
    if i > 0 {
      assert slots[..i][1..] == slots[1..][..i - 1];
      FillGapsOrder(slots[1..], unused[used..], i - 1);
    }
  }

  /** Parent 1's nodes at `lo..hi-1`, every other slot empty. */
  function SegmentSlots(parent1: Tour, lo: nat, hi: nat): (slots: seq<Option<nat>>)
    requires lo <= hi <= |parent1|
    ensures |slots| == |parent1|
    ensures forall i :: 0 <= i < |parent1| ==> slots[i] == if lo <= i < hi then Some(parent1[i]) else None
  {
    SlotsUpTo(parent1, lo, hi, |parent1|)
  }

  function SlotsUpTo(parent1: Tour, lo: nat, hi: nat, k: nat): (slots: seq<Option<nat>>)
    requires lo <= hi <= |parent1| && k <= |parent1|
    ensures |slots| == k
    ensures forall i :: 0 <= i < k ==> slots[i] == if lo <= i < hi then Some(parent1[i]) else None
  {
    if k == 0 then []
    else SlotsUpTo(parent1, lo, hi, k - 1) + [if lo <= k - 1 < hi then Some(parent1[k - 1]) else None]
  }

  lemma {:induction false} SegmentSlotsHoles(parent1: Tour, lo: nat, hi: nat, i: nat)
    requires lo <= hi <= |parent1|
    requires i <= |parent1|
    ensures Holes(SegmentSlots(parent1, lo, hi)[..i]) == if i <= lo then i else if i <= hi then lo else i - (hi - lo)
  {
    if i > 0 {
      SegmentSlotsHoles(parent1, lo, hi, i - 1);
      HolesOfLongerPrefix(SegmentSlots(parent1, lo, hi), i - 1);
    }
  }

  /**
   * Order crossover: the two cut points are drawn independently from
   * `0..n-1` and sorted; parent 1's nodes between them keep their positions
   * and the other positions are filled from parent 2 as `FillGaps` does.
   */
  function OrderCrossover(parent1: Tour, parent2: Tour, point1: nat, point2: nat): (child: Option<Tour>)
    requires point1 < |parent1| && point2 < |parent1|
    ensures child.Some? <==>
      |parent1| - (Max(point1, point2) - Min(point1, point2))
        <= |Without(parent2, parent1[Min(point1, point2)..Max(point1, point2)])|
    ensures child.Some? ==> |child.value| == |parent1|
    ensures child.Some? ==> forall i :: Min(point1, point2) <= i < Max(point1, point2) ==> child.value[i] == parent1[i]
  {
    var lo := Min(point1, point2);
    var hi := Max(point1, point2);
    SegmentSlotsTotalHoles(parent1, lo, hi);
    FillGaps(SegmentSlots(parent1, lo, hi), Without(parent2, parent1[lo..hi]))
  }

  lemma HolesBeforeSegment(parent1: Tour, lo: nat, hi: nat, i: nat)
    requires lo <= hi <= |parent1|
    requires i <= lo
    ensures Holes(SegmentSlots(parent1, lo, hi)[..i]) == i
  {
    SegmentSlotsHoles(parent1, lo, hi, i);
  }

  lemma HolesAfterSegment(parent1: Tour, lo: nat, hi: nat, i: nat)
    requires lo <= hi <= |parent1|
    requires hi <= i <= |parent1|
    ensures Holes(SegmentSlots(parent1, lo, hi)[..i]) == i - (hi - lo)
  {
    SegmentSlotsHoles(parent1, lo, hi, i);
  }

  lemma SegmentSlotsTotalHoles(parent1: Tour, lo: nat, hi: nat)
    requires lo <= hi <= |parent1|
    ensures Holes(SegmentSlots(parent1, lo, hi)) == |parent1| - (hi - lo)
  {
    HolesAfterSegment(parent1, lo, hi, |parent1|);
    assert SegmentSlots(parent1, lo, hi)[..|parent1|] == SegmentSlots(parent1, lo, hi);
  }

  /** `FillGapsOrder` with the number of earlier empty slots already known. */
  lemma FillGapsAt(slots: seq<Option<nat>>, unused: seq<nat>, i: nat, earlier: nat)
    requires FillGaps(slots, unused).Some?
    requires i < |slots| && slots[i].None?
    requires Holes(slots[..i]) == earlier
    ensures earlier < |unused| && FillGaps(slots, unused).value[i] == unused[earlier]
  {
    FillGapsOrder(slots, unused, i);
  }

  /** An empty slot before the segment at `i` receives `unused[i]`. */
  lemma FilledBeforeSegment(parent1: Tour, lo: nat, hi: nat, unused: seq<nat>, i: nat)
    requires lo <= hi <= |parent1|
    requires FillGaps(SegmentSlots(parent1, lo, hi), unused).Some?
    requires i < lo
    ensures i < |unused| && FillGaps(SegmentSlots(parent1, lo, hi), unused).value[i] == unused[i]
  {
    HolesBeforeSegment(parent1, lo, hi, i);
    FillGapsAt(SegmentSlots(parent1, lo, hi), unused, i, i);
  }

  /** A slot inside the segment keeps parent 1's node. */
  lemma FilledInSegment(parent1: Tour, lo: nat, hi: nat, unused: seq<nat>, i: nat)
    requires lo <= hi <= |parent1|
    requires FillGaps(SegmentSlots(parent1, lo, hi), unused).Some?
    requires lo <= i < hi
    ensures FillGaps(SegmentSlots(parent1, lo, hi), unused).value[i] == parent1[i]
  {
  }

  /** An empty slot after the segment at `i` receives `unused[i - (hi - lo)]`. */
  lemma FilledAfterSegment(parent1: Tour, lo: nat, hi: nat, unused: seq<nat>, i: nat)
    requires lo <= hi <= |parent1|
    requires FillGaps(SegmentSlots(parent1, lo, hi), unused).Some?
    requires hi <= i < |parent1|
    ensures i - (hi - lo) < |unused| && FillGaps(SegmentSlots(parent1, lo, hi), unused).value[i] == unused[i - (hi - lo)]
  {
    HolesAfterSegment(parent1, lo, hi, i);
    FillGapsAt(SegmentSlots(parent1, lo, hi), unused, i, i - (hi - lo));
  }

  /** A sequence that agrees pointwise with the order-crossover layout is that layout. */
  lemma OrderLayout(c: Tour, parent1: Tour, lo: nat, hi: nat, unused: seq<nat>)
    requires lo <= hi <= |parent1| == |c|
    requires lo + |parent1| - hi <= |unused|
    requires forall i :: 0 <= i < lo ==> c[i] == unused[i]
    requires forall i :: lo <= i < hi ==> c[i] == parent1[i]
    requires forall i :: hi <= i < |parent1| ==> c[i] == unused[i - (hi - lo)]
    ensures c == unused[..lo] + parent1[lo..hi] + unused[lo..lo + |parent1| - hi]
  {
    var expected := unused[..lo] + parent1[lo..hi] + unused[lo..lo + |parent1| - hi];
    forall i | 0 <= i < |c|
      ensures c[i] == expected[i]
    {
      if hi <= i {
        assert expected[i] == unused[lo..lo + |parent1| - hi][i - hi];
      }
    }
  }

  /** Filling segment slots from `unused`: unused nodes before the segment, the segment, unused nodes after it. */
  lemma FilledSegmentShape(parent1: Tour, lo: nat, hi: nat, unused: seq<nat>)
    requires lo <= hi <= |parent1|
    requires FillGaps(SegmentSlots(parent1, lo, hi), unused).Some?
    ensures |parent1| - (hi - lo) <= |unused|
    ensures FillGaps(SegmentSlots(parent1, lo, hi), unused).value
         == unused[..lo] + parent1[lo..hi] + unused[lo..lo + |parent1| - hi]
  {
    var n := |parent1|;
    SegmentSlotsTotalHoles(parent1, lo, hi);
    var c := FillGaps(SegmentSlots(parent1, lo, hi), unused).value;
    forall i | 0 <= i < lo
      ensures c[i] == unused[i]
    {
      FilledBeforeSegment(parent1, lo, hi, unused, i);
    }
    forall i | lo <= i < hi
      ensures c[i] == parent1[i]
    {
      FilledInSegment(parent1, lo, hi, unused, i);
    }
    forall i | hi <= i < n
      ensures c[i] == unused[i - (hi - lo)]
    {
      FilledAfterSegment(parent1, lo, hi, unused, i);
    }
    OrderLayout(c, parent1, lo, hi, unused);
  }

  /**
   * The order-crossover child is the unused nodes up to the segment, parent
   * 1's segment in place, then the next unused nodes; it exists exactly when
   * enough unused nodes remain.
   */
  lemma OrderCrossoverShape(parent1: Tour, parent2: Tour, point1: nat, point2: nat, lo: nat, hi: nat, unused: seq<nat>)
    requires point1 < |parent1| && point2 < |parent1|
    requires lo == Min(point1, point2) && hi == Max(point1, point2)
    requires unused == Without(parent2, parent1[lo..hi])
    ensures OrderCrossover(parent1, parent2, point1, point2).Some? <==> |parent1| - (hi - lo) <= |unused|
    ensures OrderCrossover(parent1, parent2, point1, point2).Some? ==>
      OrderCrossover(parent1, parent2, point1, point2).value
        == unused[..lo] + parent1[lo..hi] + unused[lo..lo + |parent1| - hi]
  {
    OrderCrossoverFills(parent1, parent2, point1, point2, lo, hi, unused);
    SegmentFill(parent1, lo, hi, unused);
  }

  lemma OrderCrossoverFills(parent1: Tour, parent2: Tour, point1: nat, point2: nat, lo: nat, hi: nat, unused: seq<nat>)
    requires point1 < |parent1| && point2 < |parent1|
    requires lo == Min(point1, point2) && hi == Max(point1, point2)
    requires unused == Without(parent2, parent1[lo..hi])
    ensures lo <= hi <= |parent1|
    ensures OrderCrossover(parent1, parent2, point1, point2) == FillGaps(SegmentSlots(parent1, lo, hi), unused)
  {
  }

  /** Filling the slots around a segment succeeds exactly when enough nodes are supplied, and gives the segment layout. */
  lemma SegmentFill(parent1: Tour, lo: nat, hi: nat, unused: seq<nat>)
    requires lo <= hi <= |parent1|
    ensures FillGaps(SegmentSlots(parent1, lo, hi), unused).Some? <==> |parent1| - (hi - lo) <= |unused|
    ensures FillGaps(SegmentSlots(parent1, lo, hi), unused).Some? ==>
      FillGaps(SegmentSlots(parent1, lo, hi), unused).value
        == unused[..lo] + parent1[lo..hi] + unused[lo..lo + |parent1| - hi]
  {
    var n := |parent1|;
    SegmentSlotsHoles(parent1, lo, hi, n);
    assert SegmentSlots(parent1, lo, hi)[..n] == SegmentSlots(parent1, lo, hi);
    if FillGaps(SegmentSlots(parent1, lo, hi), unused).Some? {
      FilledSegmentShape(parent1, lo, hi, unused);
    }
  }

  /** For permutation parents the order-crossover `unwrap` never fails and the child is a permutation. */
  lemma OrderCrossoverIsPermutation(parent1: Tour, parent2: Tour, point1: nat, point2: nat, n: nat)
    requires IsPermutation(parent1, n) && IsPermutation(parent2, n)
    requires point1 < |parent1| && point2 < |parent1|
    ensures var child := OrderCrossover(parent1, parent2, point1, point2);
      && child.Some?
      && IsPermutation(child.value, n)
  {
    var lo := Min(point1, point2);
    var hi := Max(point1, point2);
    var segment := parent1[lo..hi];
    var unused := Without(parent2, segment);
    PermutationLength(parent1, n);
    SegmentAndFillerCounts(parent1, parent2, lo, hi, n);
    OrderChildFromCounts(parent1, parent2, point1, point2, lo, hi, unused, n);
  }

  /** Once the segment and the unused nodes together hold every node once, the child is a permutation. */
  lemma OrderChildFromCounts(parent1: Tour, parent2: Tour, point1: nat, point2: nat, lo: nat, hi: nat, unused: seq<nat>, n: nat)
    requires |parent1| == n && point1 < n && point2 < n
    requires lo == Min(point1, point2) && hi == Max(point1, point2)
    requires unused == Without(parent2, parent1[lo..hi])
    requires |unused| == n - (hi - lo)
    requires multiset(parent1[lo..hi]) + multiset(unused) == multiset(SequenceVector(n))
    ensures OrderCrossover(parent1, parent2, point1, point2).Some?
    ensures IsPermutation(OrderCrossover(parent1, parent2, point1, point2).value, n)
  {
    OrderCrossoverShape(parent1, parent2, point1, point2, lo, hi, unused);
    LayoutIsPermutation(unused[..lo] + parent1[lo..hi] + unused[lo..lo + (n - hi)], unused, parent1[lo..hi], lo, n - hi, n);
  }

  /** Parent 1's nodes between the sorted cut points keep their positions in the child. */
  lemma OrderCrossoverKeepsSegment(parent1: Tour, parent2: Tour, point1: nat, point2: nat)
    requires point1 < |parent1| && point2 < |parent1|
    requires OrderCrossover(parent1, parent2, point1, point2).Some?
    ensures forall i :: Min(point1, point2) <= i < Max(point1, point2) ==>
      OrderCrossover(parent1, parent2, point1, point2).value[i] == parent1[i]
  {
    var lo := Min(point1, point2);
    var hi := Max(point1, point2);
    forall i | lo <= i < hi
      ensures OrderCrossover(parent1, parent2, point1, point2).value[i] == parent1[i]
    {
      FilledInSegment(parent1, lo, hi, Without(parent2, parent1[lo..hi]), i);
    }
  }

  /** A segment of one permutation parent and the other parent's remaining nodes together hold every node once. */
  lemma SegmentAndFillerCounts(parent1: Tour, parent2: Tour, lo: nat, hi: nat, n: nat)
    requires IsPermutation(parent1, n) && IsPermutation(parent2, n)
    requires lo <= hi <= |parent1|
    ensures multiset(parent1[lo..hi]) + multiset(Without(parent2, parent1[lo..hi])) == multiset(SequenceVector(n))
    ensures |Without(parent2, parent1[lo..hi])| == n - (hi - lo)
  {
    SliceOfPermutation(parent1, n, lo, hi);
    CutAndFillCounts(parent1[lo..hi], parent2, n);
  }

  /** Splitting the filler around the segment keeps every node it holds. */
  lemma LayoutIsPermutation(child: Tour, unused: seq<nat>, segment: seq<nat>, lo: nat, rest: nat, n: nat)
    requires lo + rest == |unused|
    requires child == unused[..lo] + segment + unused[lo..lo + rest]
    requires multiset(segment) + multiset(unused) == multiset(SequenceVector(n))
    ensures IsPermutation(child, n)
  {
    assert unused == unused[..lo] + unused[lo..lo + rest];
  }

  /** The cut points `kind` draws for parents of `n` nodes; the cycle operator never returns, so nothing fits it. */
  predicate CutsFit(kind: CrossoverType, cut: (nat, nat), n: nat) {
    match kind
    case PMX => 1 <= cut.0 < n
    case OX => cut.0 < n && cut.1 < n
    case CX => false
  }

  /** The dispatch on the configured operator; `None` is the order crossover's failed `unwrap`. */
  function CrossoverChild(kind: CrossoverType, parent1: Tour, parent2: Tour, cut: (nat, nat)): (child: Option<Tour>)
    requires CutsFit(kind, cut, |parent1|)
    ensures kind == PMX ==> child.Some? && cut.0 <= |child.value| && child.value[..cut.0] == parent1[..cut.0]
    ensures kind == OX && child.Some? ==>
      |child.value| == |parent1| && forall i :: Min(cut.0, cut.1) <= i < Max(cut.0, cut.1) ==> child.value[i] == parent1[i]
  {
    match kind
    case PMX => Some(OnePointCrossover(parent1, parent2, cut.0))
    case OX => OrderCrossover(parent1, parent2, cut.0, cut.1)
  }

  /** Crossover closure: two permutation parents always give a permutation child. */
  lemma CrossoverClosure(kind: CrossoverType, parent1: Tour, parent2: Tour, cut: (nat, nat), n: nat)
    requires IsPermutation(parent1, n) && IsPermutation(parent2, n)
    requires CutsFit(kind, cut, |parent1|)
    ensures CrossoverChild(kind, parent1, parent2, cut).Some?
    ensures IsPermutation(CrossoverChild(kind, parent1, parent2, cut).value, n)
  {
    match kind
    case PMX => OnePointCrossoverIsPermutation(parent1, parent2, cut.0, n);
    case OX => OrderCrossoverIsPermutation(parent1, parent2, cut.0, cut.1, n);
  }
}
