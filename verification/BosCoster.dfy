/** Multi-scalar multiplication on the heap: the two largest scalars a >= b of points A, B
    become a - b and b for A and A + B, until one scalar is left. */
module BosCoster {
  import opened Words
  import opened Modm64
  import opened ModmBatch
  import opened AbelianGroup
  import opened Edwards
  import opened Points
  import opened BatchHeap
  import opened BosCosterSpec
  import opened BosCosterRun
  import opened FinalStage
  import ScalarMult

  // ----- the scalars and points of the heap -----

  ghost predicate AllProper(s: seq<Limbs>) {
    forall i :: 0 <= i < |s| ==> Proper(s[i])
  }

  /** The first scalars have the values v. */
  ghost predicate Holds(s: seq<Limbs>, v: seq<nat>) {
    |v| <= |s| && forall i :: 0 <= i < |v| ==> Proper(s[i]) && Value(s[i]) == v[i]
  }

  /** The first coordinates stand for the points p. */
  ghost predicate AllStand(c: seq<GeLimbs>, p: seq<Point>) {
    |p| <= |c| && forall i :: 0 <= i < |p| ==> ScalarMult.Stands(c[i], p[i])
  }

  /** The heap between two rounds, with scalars s. */
  ghost predicate Round(heap: Heap<GeLimbs>, s: seq<nat>, limbsize: nat)
    reads heap, heap.scalars, heap.heap
  {
    && heap.Shape() && 3 <= heap.size <= |s| && limbsize <= 4
    && Holds(heap.scalars[..], s) && MaxHeap(heap.heap[..], heap.size, s) && Fits(s, heap.size, limbsize)
  }

  /** On scalars that fit, the keys the heap compares are the numbers. */
  lemma KeysAreNumbers(c: seq<Limbs>, s: seq<nat>, size: nat, limbsize: nat)
    requires Holds(c, s) && limbsize <= 4 && Fits(s, size, limbsize)
    ensures forall i :: 0 <= i < size ==> Keys(c, limbsize + 1)[i] == s[i]
  {
    forall i | 0 <= i < size
      ensures Keys(c, limbsize + 1)[i] == s[i]
    {
      FitsLow(c[i], limbsize + 1);
    }
  }

  lemma AllFit(c: seq<Limbs>, s: seq<nat>, size: nat)
    requires Holds(c, s) && size <= |s|
    ensures Fits(s, size, 4)
  {
    forall i | 0 <= i < size
      ensures s[i] < Weight(5)
    {
      LowIsValue(c[i]);
      LowBound(c[i], 5);
    }
  }

  lemma SameKeys(h: seq<nat>, size: nat, k: seq<int>, l: seq<int>)
    requires size <= |h| && size <= |k| && size <= |l| && forall i :: 0 <= i < size ==> k[i] == l[i]
    ensures MaxHeap(h, size, k) ==> MaxHeap(h, size, l)
    ensures Sinking(h, size, k, 0) ==> Sinking(h, size, l, 0)
  {
  }

  /** A heap whose root's key has changed is a heap with its root on the way down. */
  lemma RootChanged(h: seq<nat>, size: nat, k: seq<int>, x: int)
    requires MaxHeap(h, size, k) && 0 < size
    ensures h[0] < |k| && Sinking(h, size, k[h[0] := x], 0)
  {
  }

  // ----- one round -----

  /** The indices of the two largest numbers. */
  method LargestTwo(heap: Heap<GeLimbs>, limbsize: nat, ghost s: seq<nat>) returns (max1: nat, max2: nat)
    requires Round(heap, s, limbsize)
    ensures max1 == heap.heap[0] && TopIndices(s[..heap.size], max1, max2)
  {
    hide MaxHeap, Value, Low, Holds;
    KeysAreNumbers(heap.scalars[..], s, heap.size, limbsize);
    SameKeys(heap.heap[..], heap.size, s, Keys(heap.scalars[..], limbsize + 1));
    max1, max2 := GetTop2(heap, limbsize);
  }

  /** Subtracts the second scalar from the first, adds the first point to the second, and
      repairs the heap. */
  method Reduce(heap: Heap<GeLimbs>, max1: nat, max2: nat, limbsize: nat, ghost s: seq<nat>, ghost p: seq<Point>)
    requires CurveFacts() && Round(heap, s, limbsize) && heap.size % 2 == 1 && |p| == |s|
      && AllStand(heap.points[..], p)
    requires max1 == heap.heap[0] && TopIndices(s[..heap.size], max1, max2)
    modifies heap.scalars, heap.points, heap.heap
    ensures max1 < |s| && max2 < |s| && s[max2] <= s[max1]
    ensures Round(heap, s[max1 := s[max1] - s[max2]], limbsize)
    ensures AllStand(heap.points[..], p[max2 := Plus(p[max2], p[max1])])
  {
    hide MaxHeap, Sinking, Value, Low, Keys, ScalarMult.Stands, CurveFacts, Plus;
    Tops(s, heap.size, max1, max2);
    ghost var t := s[max1 := s[max1] - s[max2]];
    SubtractAt(heap, max1, max2, limbsize, s);
    ScalarMult.AddInto(heap.points, max2, max1, p[max2], p[max1]);
    RepairRoot(heap, limbsize, s, t);
  }

  /** scalars[max1] -= scalars[max2] on the limbs in use. */
  method SubtractAt(heap: Heap<GeLimbs>, max1: nat, max2: nat, limbsize: nat, ghost s: seq<nat>)
    requires Round(heap, s, limbsize) && max1 < heap.size && max2 < heap.size && s[max2] <= s[max1]
    modifies heap.scalars
    ensures heap.Shape() && Holds(heap.scalars[..], s[max1 := s[max1] - s[max2]])
  {
    hide MaxHeap, Value;
    heap.scalars[max1] := Subtract(heap.scalars[max1], heap.scalars[max2], limbsize);
  }

  /** Repairs the heap after its root has changed from s to t. */
  method RepairRoot(heap: Heap<GeLimbs>, limbsize: nat, ghost s: seq<nat>, ghost t: seq<nat>)
    requires heap.Shape() && 3 <= heap.size <= |s| == |t| && heap.size % 2 == 1 && limbsize <= 4
    requires MaxHeap(heap.heap[..], heap.size, s) && heap.heap[0] < |s| && t == s[heap.heap[0] := t[heap.heap[0]]]
    requires Holds(heap.scalars[..], t) && Fits(t, heap.size, limbsize)
    modifies heap.heap
    ensures Round(heap, t, limbsize)
  {
    hide MaxHeap, Sinking, Value, Low, Keys, Holds;
    RootChanged(heap.heap[..], heap.size, s, t[heap.heap[0]]);
    KeysAreNumbers(heap.scalars[..], t, heap.size, limbsize);
    SameKeys(heap.heap[..], heap.size, t, Keys(heap.scalars[..], limbsize + 1));
    UpdatedRoot(heap, limbsize);
    SameKeys(heap.heap[..], heap.size, Keys(heap.scalars[..], limbsize + 1), t);
  }

  /** a - b in place of a, on the limbs in use. */
  method Subtract(a: Limbs, b: Limbs, limbsize: nat) returns (out: Limbs)
    requires Proper(a) && Proper(b) && limbsize <= 4 && Value(b) <= Value(a) < Weight(limbsize + 1)
    ensures Proper(out) && Value(out) == Value(a) - Value(b)
  {
    hide Value, Low, Weight, Limb;
    FitsLow(a, limbsize + 1);
    FitsLow(b, limbsize + 1);
    out := Sub256Batch(a, a, b, limbsize);
    HighZero(out, limbsize + 1);
  }

  lemma HighZero(a: Limbs, n: nat)
    requires Proper(a) && n <= 5 && forall i :: n <= i < 5 ==> Limb(a, i) == 0
    ensures Low(a, n) == Value(a)
  {
    LowIsValue(a);
    DropZeros(a, n, 5);
  }

  lemma {:induction false} DropZeros(a: Limbs, n: nat, m: nat)
    requires n <= m <= 5 && forall i :: n <= i < m ==> Limb(a, i) == 0
    ensures Low(a, n) == Low(a, m)
  {
    if n < m {
      DropZeros(a, n, m - 1);
      LowStep(a, m - 1);
    }
  }

  /** The top limb in use is zero exactly if the number fits one limb less. */
  lemma TopLimb(a: Limbs, limbsize: nat)
    requires Proper(a) && limbsize <= 4 && Value(a) < Weight(limbsize + 1)
    ensures Limb(a, limbsize) == 0 <==> Value(a) < Weight(limbsize)
    ensures limbsize == 0 ==> Weight(limbsize) == 1
  {
    hide Value, Low, Limb;
    FitsLow(a, limbsize + 1);
    LowStep(a, limbsize);
    LowBound(a, limbsize);
    if Limb(a, limbsize) != 0 {
      MulMono(1, Limb(a, limbsize), Weight(limbsize));
    }
  }

  method StartRound(heap: Heap<GeLimbs>, half: nat, ghost s: seq<nat>)
    requires heap.scalars.Length == heap.points.Length == heap.heap.Length && 3 <= half <= |s| <= heap.heap.Length
    requires AllProper(heap.scalars[..]) && Holds(heap.scalars[..], s)
    modifies heap`size, heap.heap
    ensures Round(heap, s, 4) && heap.size == half
  {
    hide MaxHeap, Value, Low, Keys, Holds;
    assert forall i :: 0 <= i < heap.scalars.Length ==> Proper(heap.scalars[..][i]);
    Build(heap, half);
    AllFit(heap.scalars[..], s, half);
    KeysAreNumbers(heap.scalars[..], s, half, 4);
    SameKeys(heap.heap[..], half, Keys(heap.scalars[..], 5), s);
  }

  /** Brings in the other scalars, whose numbers fit the limbs in use. */
  method ExtendRound(heap: Heap<GeLimbs>, count: nat, limbsize: nat, ghost s: seq<nat>)
    requires Round(heap, s, limbsize) && heap.size <= count <= |s| && Fits(s, count, limbsize)
    modifies heap`size, heap.heap
    ensures Round(heap, s, limbsize) && heap.size == count
  {
    hide MaxHeap, Value, Low, Keys, Holds;
    var limbs := heap.scalars[..];
    assert |s| <= |limbs| by { HoldsLength(limbs, s); }
    AllFit(limbs, s, count);
    KeysAreNumbers(limbs, s, count, 4);
    SameKeys(heap.heap[..], heap.size, s, Keys(limbs, 5));
    Extend(heap, count);
    SameKeys(heap.heap[..], count, Keys(limbs, 5), s);
  }

  lemma HoldsLength(c: seq<Limbs>, s: seq<nat>)
    requires Holds(c, s)
    ensures |s| <= |c|
  {
  }

  // ----- the whole run -----

  /** Drops a limb of the width in use once the largest number has no such limb. */
  method Narrow(heap: Heap<GeLimbs>, max1: nat, max2: nat, width: nat, ghost s: seq<nat>) returns (limbsize: nat)
    requires Round(heap, s, width) && TopIndices(s[..heap.size], max1, max2) && s[max1] > 0
    ensures limbsize == NextLimb(s[max1], width) && Round(heap, s, limbsize)
  {
    hide MaxHeap, Value, Low, Weight, Limb;
    Tops(s, heap.size, max1, max2);
    limbsize := width;
    TopLimb(heap.scalars[max1], width);
    if Limb(heap.scalars[max1], limbsize) == 0 {
      limbsize := limbsize - 1;
      assert forall i :: 0 <= i < heap.size ==> s[i] == s[..heap.size][i];
    }
  }

  lemma Tops(s: seq<nat>, size: nat, i: nat, j: nat)
    requires size <= |s| && TopIndices(s[..size], i, j)
    ensures i < size && j < size && i != j && s[j] <= s[i]
    ensures s[..size][i := s[i] - s[j]] == s[i := s[i] - s[j]][..size]
    ensures size == |s| ==> s[..size] == s
  {
    assert s[i] == s[..size][i] && s[j] == s[..size][j];
  }

  /** The state between two passes of the loop: scalars s and points p of the curve that
      started as s0 and p0. */
  ghost predicate Underway(heap: Heap<GeLimbs>, s: seq<nat>, p: seq<Point>, s0: seq<nat>, p0: seq<Point>,
      extended: bool, limbsize: nat)
    reads heap, heap.scalars, heap.points, heap.heap
  {
    && |s| == |p| == |s0| >= 5 && |s0| % 2 == 1
    && Round(heap, s, limbsize) && AllStand(heap.points[..], p)
    && heap.size == Size(extended, |s0|)
    && Progress(CURVE, s, p, s0, p0, Half(|s0|), extended, limbsize)
  }

  /** The number of scalars in the heap. */
  function Size(extended: bool, count: nat): nat {
    if extended then count else Half(count)
  }

  /** What the run starts from. */
  ghost predicate Startable(s0: seq<nat>, p0: seq<Point>) {
    && CurveFacts() && |s0| == |p0| >= 5 && |s0| % 2 == 1
    && Suitable(s0) && Elements(CURVE, p0)
  }

  /** Extends the heap, whose largest scalar has come down to 128 bits. */
  method BringIn(heap: Heap<GeLimbs>, top: nat, second: nat, width: nat, limbsize: nat,
      ghost s: seq<nat>, ghost p: seq<Point>, ghost s0: seq<nat>, ghost p0: seq<Point>, count: nat)
        returns (max1: nat, max2: nat)
    requires Startable(s0, p0) && count == |s0| == |s| == |p|
    requires Round(heap, s, limbsize) && heap.size == Half(count) && width <= 4
    requires Progress(CURVE, s, p, s0, p0, Half(count), false, width)
    requires TopIndices(s[..heap.size], top, second)
      && 0 < s[second] <= s[top] < 0x1_0000_0000_0000_0000_0000_0000_0000_0000
    requires limbsize == NextLimb(s[top], width)
    modifies heap`size, heap.heap
    ensures Round(heap, s, limbsize) && heap.size == count
    ensures max1 == heap.heap[0] && TopIndices(s[..heap.size], max1, max2) && max1 < |s| && max2 < |s|
      && s[max2] <= s[max1]
    ensures Progress(CURVE, s[max1 := s[max1] - s[max2]], p[max2 := CURVE.add(p[max2], p[max1])], s0, p0, Half(count),
      true, limbsize)
  {
    hide MaxHeap, Holds, Progress, Abelian, SumOf, Suitable, Fits, TopIndices, WillExtend, Elements, NextLimb,
      ExtendLimb, CurveFacts, CURVE;
    CurveIsAbelian();
    Extending(CURVE, s, p, s0, p0, Half(count), width, top, second);
    LateScalarsFit(s, s0, Half(count), limbsize);
    ExtendRound(heap, count, limbsize, s);
    max1, max2 := LargestTwo(heap, limbsize, s);
    Tops(s, count, max1, max2);
    StepAfter(CURVE, s, p, s0, p0, Half(count), limbsize, limbsize, max1, max2);
  }

  /** The first half of a pass of the loop: adjusts the width and extends the heap, exactly if
      its largest scalar has come down to 128 bits.  The subtraction that follows keeps Progress. */
  method Widths(heap: Heap<GeLimbs>, top: nat, second: nat, width: nat, wasExtended: bool,
      ghost s: seq<nat>, ghost p: seq<Point>, ghost s0: seq<nat>, ghost p0: seq<Point>, count: nat)
    returns (limbsize: nat, extended: bool, max1: nat, max2: nat)
    requires Startable(s0, p0) && count == |s0| && Underway(heap, s, p, s0, p0, wasExtended, width)
    requires top == heap.heap[0] && TopIndices(s[..heap.size], top, second) && s[second] > 0
    modifies heap`size, heap.heap
    ensures Round(heap, s, limbsize) && heap.size == Size(extended, count) && heap.size % 2 == 1
    ensures top < |s| && (extended <==> wasExtended || s[top] < 0x1_0000_0000_0000_0000_0000_0000_0000_0000)
    ensures wasExtended == extended ==> max1 == top && max2 == second
    ensures max1 == heap.heap[0] && TopIndices(s[..heap.size], max1, max2) && max1 < |s| && max2 < |s|
      && s[max2] <= s[max1]
    ensures Progress(CURVE, s[max1 := s[max1] - s[max2]], p[max2 := CURVE.add(p[max2], p[max1])], s0, p0, Half(count),
      extended, limbsize)
  {
    hide MaxHeap, Value, Progress, Abelian, SumOf, Suitable, Fits, TopIndices, WillExtend, Elements, NextLimb,
      ExtendLimb, CurveFacts, CURVE, AllStand;
    CurveIsAbelian();
    max1, max2 := top, second;
    Tops(s, heap.size, max1, max2);
    limbsize := Narrow(heap, max1, max2, width, s);
    extended := wasExtended;
    if extended {
      StepAfter(CURVE, s, p, s0, p0, Half(count), width, limbsize, max1, max2);
    } else {
      var small := IsAtMost128Bits(heap.scalars[max1]);
      if small {
        max1, max2 := BringIn(heap, top, second, width, limbsize, s, p, s0, p0, count);
        extended := true;
      } else {
        StepBefore(CURVE, s, p, s0, p0, Half(count), width, max1, max2);
      }
    }
  }

  lemma PassLowers(s: seq<nat>, size: nat, i: nat, j: nat)
    requires size <= |s| && TopIndices(s[..size], i, j) && j < |s| && s[j] > 0
    ensures i < |s| && s[j] <= s[i] && Total(multiset(s[i := s[i] - s[j]][..size])) < Total(multiset(s[..size]))
  {
    hide Total, TopIndices;
    Tops(s, size, i, j);
    assert s[..size][j] == s[j];
    StepLowers(s[..size], i, j);
  }

  /** One pass of the loop on a heap with two nonzero scalars. */
  method Advance(heap: Heap<GeLimbs>, top: nat, second: nat, width: nat, wasExtended: bool,
      ghost s: seq<nat>, ghost p: seq<Point>, ghost s0: seq<nat>, ghost p0: seq<Point>, count: nat)
    returns (limbsize: nat, extended: bool, ghost t: seq<nat>, ghost q: seq<Point>)
    requires Startable(s0, p0) && count == |s0| && Underway(heap, s, p, s0, p0, wasExtended, width)
    requires top == heap.heap[0] && TopIndices(s[..heap.size], top, second) && s[second] > 0
    modifies heap`size, heap.scalars, heap.points, heap.heap
    ensures Underway(heap, t, q, s0, p0, extended, limbsize) && (wasExtended ==> extended)
    ensures wasExtended == extended ==> (Size(extended, count) <= |s| &&
      Total(multiset(t[..Size(extended, count)])) < Total(multiset(s[..Size(extended, count)])))
  {
    hide MaxHeap, Holds, Progress, Total, Suitable, Fits, TopIndices, CurveFacts, CURVE, AllStand, Elements, Plus,
      Value, Half;
    var max1, max2;
    limbsize, extended, max1, max2 := Widths(heap, top, second, width, wasExtended, s, p, s0, p0, count);
    Tops(s, heap.size, max1, max2);
    t, q := s[max1 := s[max1] - s[max2]], p[max2 := Plus(p[max2], p[max1])];
    ScalarMult.CurveOps(p[max2], p[max1]);
    if wasExtended == extended {
      PassLowers(s, heap.size, max1, max2);
    }
    Reduce(heap, max1, max2, limbsize, s, p);
  }

  /** What multi-scalar multiplication returns for scalars s0 and points p0, in coordinates r,
      unless the scan of the last stage leaves the scalar. */
  method MultiScalarMult(r: Ge, heap: Heap<GeLimbs>, count: nat, ghost s0: seq<nat>, ghost p0: seq<Point>)
    returns (inRange: bool, ghost a: Point)
    requires Startable(s0, p0) && count == |s0| <= heap.heap.Length
    requires heap.scalars.Length == heap.points.Length == heap.heap.Length
    requires AllProper(heap.scalars[..]) && Holds(heap.scalars[..], s0) && AllStand(heap.points[..], p0)
    modifies r, heap`size, heap.scalars, heap.points, heap.heap
    ensures inRange <==> ScanStays(s0)
    ensures inRange ==> ScalarMult.Full(r, a) && RunResult(CURVE, s0, p0, a)
    ensures AllProper(heap.scalars[..])
  {
    hide MaxHeap, Value, Progress, Total, Abelian, SumOf, IsGcd, Suitable, ScanStays, Fits, FinalValue, TopIndices,
      WillExtend, Elements, CURVE, CurveFacts, ScalarMult.Full, ScalarMult.Stands;
    var limbsize: nat := 4;
    var extended := false;
    StartRound(heap, Half(count), s0);
    Start(CURVE, s0, p0, Half(count));
    ghost var s, p := s0, p0;
    var max1, max2 := LargestTwo(heap, limbsize, s);
    Tops(s, heap.size, max1, max2);
    var done := IsZero256Batch(heap.scalars[max2]);
    while !done
      invariant Underway(heap, s, p, s0, p0, extended, limbsize)
      invariant max1 == heap.heap[0] && TopIndices(s[..heap.size], max1, max2)
      invariant max1 < heap.size && max2 < heap.size && done == (s[max2] == 0)
      decreases if extended then 0 else 1, Total(multiset(s[..Size(extended, count)]))
    {
      limbsize, extended, s, p := Advance(heap, max1, max2, limbsize, extended, s, p, s0, p0, count);
      max1, max2 := LargestTwo(heap, limbsize, s);
      Tops(s, heap.size, max1, max2);
      done := IsZero256Batch(heap.scalars[max2]);
    }
    CurveIsAbelian();
    Finishing(CURVE, s, p, s0, p0, extended, limbsize, max1, max2);
    LastScalar(s0, s[max1]);
    inRange := Final(r, heap.points[max1], heap.scalars[max1], p[max1]);
    a := FinalValue(CURVE, s[max1], p[max1]);
    assert RunEnds(CURVE, s0, p0, a, s[max1], p[max1]);
  }
}
