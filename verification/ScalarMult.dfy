/** Scalar multiplication: the interleaved two-scalar loop and the base-point comb. */
module ScalarMult {
  import opened Words
  import opened Fp
  import opened AbelianGroup
  import opened Edwards
  import opened Coordinates
  import opened Points
  import opened Digits
  import Modm64
  import Recode
  import Field64

  /** The point that the completed coordinates t stand for. */
  ghost predicate Pending(t: P1P1, a: Point) {
    LooseP1P1(t) && CompletedFor(CompletedOf(t), a) && OnCurve(a)
  }

  ghost predicate Full(r: Ge, a: Point)
    reads r
  {
    TightGe(r) && For(Coord(r), a) && OnCurve(a)
  }

  /** Like Full, but t is left over from an earlier operation. */
  ghost predicate Partial(r: Ge, a: Point)
    reads r
  {
    TightXYZ(r) && PartlyFor(Coord(r), a) && OnCurve(a)
  }

  /** Coordinates in an array of points, in the sense of Full. */
  ghost predicate Stands(v: GeLimbs, a: Point) {
    && Field64.Tight(v.x) && Field64.Tight(v.y) && Field64.Tight(v.z) && Field64.Tight(v.t)
    && For(Ext(Field64.Elem(v.x), Field64.Elem(v.y), Field64.Elem(v.z), Field64.Elem(v.t)), a) && OnCurve(a)
  }

  lemma StandsIsFull(r: Ge, a: Point)
    ensures Full(r, a) <==> Stands(r.Limbs(), a)
  {
    hide For, OnCurve, Field64.Elem;
  }

  ghost predicate CachedPoint(c: PNiels, a: Point) {
    LoosePNiels(c) && CachedFor(CachedOf(c), a) && OnCurve(a)
  }

  ghost predicate NielsPoint(c: Niels, a: Point) {
    TightNiels(c) && CachedFor(CachedOfNiels(c), a) && OnCurve(a)
  }

  // ----- the operations, as operations on points -----

  method DoubleOf(p: Ge, ghost a: Point) returns (t: P1P1)
    requires CurveFacts() && Partial(p, a)
    ensures Pending(t, Plus(a, a))
  {
    DoubleFor(Coord(p), a);
    PlusOnCurve(a, a);
    hide DoubleExt, PartlyFor, CompletedFor, CompletedOf, Coord, Plus, OnCurve;
    t := DoubleP1P1(p);
  }

  method ToPartial(r: Ge, t: P1P1, ghost a: Point)
    requires CurveFacts() && Pending(t, a)
    modifies r
    ensures Partial(r, a)
  {
    ToFullFor(CompletedOf(t), a);
    hide ToFull, CompletedFor, CompletedOf, OnCurve, Field64.Elem;
    P1P1ToPartial(r, t);
  }

  method ToFullPoint(r: Ge, t: P1P1, ghost a: Point)
    requires CurveFacts() && Pending(t, a)
    modifies r
    ensures Full(r, a)
  {
    ToFullFor(CompletedOf(t), a);
    hide ToFull, For, CompletedFor, CompletedOf, OnCurve, Coord;
    P1P1ToFull(r, t);
  }

  /** r = 2p as an operation on points, without t; r may be p. */
  method DoubleInPart(r: Ge, p: Ge, ghost a: Point)
    requires CurveFacts() && Partial(p, a)
    modifies r
    ensures Partial(r, Plus(a, a))
  {
    hide For, PartlyFor, CompletedFor, OnCurve, Plus, ToFull, DoubleExt, Field64.Elem;
    DoubleFor(Coord(p), a);
    ToFullFor(DoubleExt(Coord(p)), Plus(a, a));
    PlusOnCurve(a, a);
    ghost var e := ToFull(DoubleExt(Coord(p)));
    DoublePartial(r, p);
    AnyT(e, Coord(r), Plus(a, a));
  }

  lemma AnyT(e: Ext, f: Ext, a: Point)
    requires For(e, a) && f == e.(t := f.t)
    ensures PartlyFor(f, a)
  {
  }

  /** r = 2p as an operation on points, with t; r may be p, whose t is not read. */
  method DoubleFull(r: Ge, p: Ge, ghost a: Point)
    requires CurveFacts() && Partial(p, a)
    modifies r
    ensures Full(r, Plus(a, a))
  {
    hide For, PartlyFor, CompletedFor, OnCurve, Plus, ToFull, DoubleExt, Field64.Elem;
    DoubleFor(Coord(p), a);
    ToFullFor(DoubleExt(Coord(p)), Plus(a, a));
    PlusOnCurve(a, a);
    Points.Double(r, p);
  }

  /** r = p + q as an operation on points; r may be p or q. */
  method AddFull(r: Ge, p: Ge, q: Ge, ghost a: Point, ghost b: Point)
    requires CurveFacts() && Full(p, a) && Full(q, b)
    modifies r
    ensures Full(r, Plus(a, b))
  {
    hide For, CompletedFor, OnCurve, Plus, ToFull, AddExt, Field64.Elem;
    AddExtFor(Coord(p), Coord(q), a, b);
    ToFullFor(AddExt(Coord(p), Coord(q)), Plus(a, b));
    PlusOnCurve(a, b);
    AddPoints(r, p, q);
  }

  /** points[i] = points[i] + points[j]. */
  method AddInto(points: array<GeLimbs>, i: nat, j: nat, ghost a: Point, ghost b: Point)
    requires CurveFacts() && i < points.Length && j < points.Length && Stands(points[i], a) && Stands(points[j], b)
    modifies points
    ensures Stands(points[i], Plus(a, b))
    ensures forall k :: 0 <= k < points.Length && k != i ==> points[k] == old(points[k])
  {
    hide Stands, Full, CurveFacts, Plus;
    var p := new Ge();
    var q := new Ge();
    p.Load(points[i]);
    q.Load(points[j]);
    StandsIsFull(p, a);
    StandsIsFull(q, b);
    AddFull(p, p, q, a, b);
    StandsIsFull(p, Plus(a, b));
    points[i] := p.Limbs();
  }

  /** a + b or a - b. */
  ghost function Signed(a: Point, signbit: u8, b: Point): Point {
    if signbit == 0 then Plus(a, b) else Plus(a, Minus(b))
  }

  method AddPNiels(p: Ge, q: PNiels, signbit: u8, ghost a: Point, ghost b: Point) returns (t: P1P1)
    requires CurveFacts() && Full(p, a) && CachedPoint(q, b) && signbit <= 1
    ensures Pending(t, Signed(a, signbit, b))
  {
    AddCachedFor(Coord(p), CachedOf(q), a, b);
    SubCachedFor(Coord(p), CachedOf(q), a, b);
    PlusOnCurve(a, b);
    MinusOnCurve(b);
    PlusOnCurve(a, Minus(b));
    hide AddCached, SubCached, For, CachedFor, CachedOf, CompletedFor, CompletedOf, Coord, Plus, Minus, OnCurve, Mul,
      Neg;
    t := PNielsAddP1P1(p, q, signbit);
  }

  method AddNiels(p: Ge, q: Niels, signbit: u8, ghost a: Point, ghost b: Point) returns (t: P1P1)
    requires CurveFacts() && Full(p, a) && NielsPoint(q, b) && signbit <= 1
    ensures Pending(t, Signed(a, signbit, b))
  {
    AddCachedFor(Coord(p), CachedOfNiels(q), a, b);
    SubCachedFor(Coord(p), CachedOfNiels(q), a, b);
    PlusOnCurve(a, b);
    MinusOnCurve(b);
    PlusOnCurve(a, Minus(b));
    hide AddCached, SubCached, For, CachedFor, CachedOfNiels, CompletedFor, CompletedOf, Coord, Plus, Minus, OnCurve,
      Mul, Neg;
    t := NielsAdd2P1P1(p, q, signbit);
  }

  method CacheOf(p: Ge, ghost a: Point) returns (c: PNiels)
    requires Full(p, a)
    ensures CachedPoint(c, a)
  {
    ToCachedFor(Coord(p), a);
    hide ToCached, For, CachedFor, CachedOf, OnCurve, Coord;
    c := FullToPNiels(p);
  }

  method CachedSum(p: Ge, q: PNiels, ghost a: Point, ghost b: Point) returns (c: PNiels)
    requires CurveFacts() && Full(p, a) && CachedPoint(q, b)
    ensures CachedPoint(c, Plus(a, b))
  {
    AddCachedFor(Coord(p), CachedOf(q), a, b);
    ToFullFor(AddCached(Coord(p), CachedOf(q)), Plus(a, b));
    ToCachedFor(ToFull(AddCached(Coord(p), CachedOf(q))), Plus(a, b));
    PlusOnCurve(a, b);
    hide AddCached, ToFull, ToCached, For, CachedFor, CachedOf, CompletedFor, Plus, OnCurve, Coord;
    c := PNielsAdd(p, q);
  }

  // ----- [s1]P + [s2]B -----

  /** The table of odd multiples [1]P, [3]P, ..., [2n - 1]P. */
  ghost predicate OddMultiples(table: seq<PNiels>, p: Point) {
    forall i :: 0 <= i < |table| ==> OddEntry(table[i], i, p)
  }

  ghost predicate OddEntry(c: PNiels, i: nat, p: Point) {
    CachedPoint(c, Times(CURVE, 2 * i + 1, p))
  }

  ghost predicate OddNielsMultiples(table: seq<Niels>, b: Point) {
    forall i :: 0 <= i < |table| ==> NielsPoint(table[i], Times(CURVE, 2 * i + 1, b))
  }

  /** Curve operations under their names in the group. */
  lemma CurveOps(a: Point, b: Point)
    ensures CURVE.elem(a) == OnCurve(a) && CURVE.add(a, b) == Plus(a, b) && CURVE.neg(a) == Minus(a)
      && CURVE.zero == NEUTRAL
  {
  }

  lemma OddStep(p: Point, i: nat)
    requires CurveFacts() && OnCurve(p)
    ensures Plus(Plus(p, p), Times(CURVE, 2 * i + 1, p)) == Times(CURVE, 2 * (i + 1) + 1, p)
    ensures OnCurve(Times(CURVE, 2 * i + 1, p)) && Times(CURVE, 1, p) == p
  {
    hide CurveFacts, Abelian, Plus, OnCurve, CURVE, Times;
    CurveIsAbelian();
    CurveOps(p, p);
    OddMultipleStep(CURVE, i, p);
    CurveOps(Times(CURVE, 2 * i + 1, p), p);
    CurveOps(Plus(p, p), Times(CURVE, 2 * i + 1, p));
  }

  lemma OddMultipleStep<T(!new)>(g: Group<T>, i: nat, p: T)
    requires Abelian(g) && g.elem(p)
    ensures g.add(g.add(p, p), Times(g, 2 * i + 1, p)) == Times(g, 2 * (i + 1) + 1, p)
    ensures g.elem(Times(g, 2 * i + 1, p)) && Times(g, 1, p) == p
  {
    SmallMultiples(g, p);
    assert Times(g, 2, p) == g.add(p, Times(g, 1, p));
    TimesAdd(g, 2, 2 * i + 1, p);
    TimesElem(g, 2 * i + 1, p);
  }

  method BuildTable(p1: Ge, ghost p: Point) returns (table: array<PNiels>)
    requires CurveFacts() && Full(p1, p)
    ensures fresh(table) && table.Length == 8 && OddMultiples(table[..], p)
  {
    hide CurveFacts, Plus, OnCurve, Full, Partial, OddEntry, OddMultiples, CURVE, Times;
    var d1 := TwiceOf(p1, p);
    var first := FirstOdd(p1, p);
    table := new PNiels[8](_ => first);
    FirstEntry(table[..1], p);
    var i := 0;
    while i < 7
      invariant 0 <= i <= 7
      invariant Full(d1, Plus(p, p)) && OddMultiples(table[..i + 1], p)
    {
      LastEntry(table[..i + 1], p);
      var next := NextOdd(d1, table[i], i, p);
      OneMoreEntry(table[..i + 1], next, p);
      table[i + 1] := next;
      assert table[..i + 2] == table[..i + 1] + [next];
      i := i + 1;
    }
    assert table[..8] == table[..];
  }

  method TwiceOf(p1: Ge, ghost p: Point) returns (d1: Ge)
    requires CurveFacts() && Full(p1, p)
    ensures fresh(d1) && Full(d1, Plus(p, p)) && OnCurve(p)
  {
    hide CurveFacts, Plus, OnCurve, Full;
    d1 := new Ge();
    FullIsPartial(p1, p);
    DoubleFull(d1, p1, p);
  }

  lemma FirstEntry(t: seq<PNiels>, p: Point)
    requires |t| == 1 && OddEntry(t[0], 0, p)
    ensures OddMultiples(t, p)
  {
    hide OddEntry;
  }

  lemma LastEntry(t: seq<PNiels>, p: Point)
    requires |t| > 0 && OddMultiples(t, p)
    ensures OddEntry(t[|t| - 1], |t| - 1, p)
  {
    hide OddEntry;
  }

  lemma OneMoreEntry(t: seq<PNiels>, c: PNiels, p: Point)
    requires OddMultiples(t, p) && OddEntry(c, |t|, p)
    ensures OddMultiples(t + [c], p)
  {
    hide OddEntry;
  }

  method FirstOdd(p1: Ge, ghost p: Point) returns (c: PNiels)
    requires CurveFacts() && Full(p1, p)
    ensures OddEntry(c, 0, p)
  {
    hide CurveFacts, OnCurve, CachedPoint, CURVE, Times;
    c := CacheOf(p1, p);
    OddStep(p, 0);
  }

  /** [2i + 3]p from [2]p and [2i + 1]p. */
  method NextOdd(d1: Ge, c: PNiels, ghost i: nat, ghost p: Point) returns (next: PNiels)
    requires CurveFacts() && Full(d1, Plus(p, p)) && OnCurve(p) && OddEntry(c, i, p)
    ensures OddEntry(next, i + 1, p)
  {
    hide CurveFacts, OnCurve, Full, Plus, CachedPoint, CURVE, Times;
    OddStep(p, i);
    next := CachedSum(d1, c, Plus(p, p), Times(CURVE, 2 * i + 1, p));
  }

  lemma FullIsPartial(r: Ge, a: Point)
    requires Full(r, a)
    ensures Partial(r, a) && OnCurve(a)
  {
  }

  /** [m]p + [n]b on the curve. */
  ghost function Joint(m: int, p: Point, n: int, b: Point): Point {
    Combination(CURVE, m, p, n, b)
  }

  lemma JointDouble(m: int, p: Point, n: int, b: Point)
    requires CurveFacts() && OnCurve(p) && OnCurve(b)
    ensures Plus(Joint(m, p, n, b), Joint(m, p, n, b)) == Joint(2 * m, p, 2 * n, b)
    ensures OnCurve(Joint(m, p, n, b)) && Joint(0, p, 0, b) == NEUTRAL
  {
    hide CurveFacts, Abelian, Plus, OnCurve, CURVE, Combination;
    CurveIsAbelian();
    CurveOps(p, b);
    CurveOps(b, p);
    CurveOps(Joint(m, p, n, b), Joint(m, p, n, b));
    DoubleCombination(CURVE, m, p, n, b);
    CombinationElem(CURVE, m, p, n, b);
    ZeroCombination(CURVE, p, b);
  }

  /** The table index of an odd digit and the digit's sign bit. */
  function Index(d: i8): nat {
    (if d < 0 then -(d as int) else d) / 2
  }

  function SignBit(d: i8): u8 {
    if d < 0 then 1 else 0
  }

  lemma SignedMultiple(a: Point, d: i8, p: Point)
    requires Recode.Odd(d)
    ensures Signed(a, SignBit(d), Times(CURVE, 2 * Index(d) + 1, p)) == Plus(a, Multiple(CURVE, d, p))
  {
    hide Plus, Minus, Times, CURVE, Index, OnCurve;
    OddIndex(d);
    CurveOps(Times(CURVE, 2 * Index(d) + 1, p), p);
  }

  lemma OddIndex(d: i8)
    requires Recode.Odd(d)
    ensures 2 * Index(d) + 1 == if d < 0 then -(d as int) else d
  {
  }

  lemma JointDigit(m: int, p: Point, n: int, b: Point, d: i8)
    requires CurveFacts() && OnCurve(p) && OnCurve(b) && Recode.Odd(d)
    ensures Signed(Joint(m, p, n, b), SignBit(d), Times(CURVE, 2 * Index(d) + 1, p)) == Joint(m + d, p, n, b)
    ensures Signed(Joint(m, p, n, b), SignBit(d), Times(CURVE, 2 * Index(d) + 1, b)) == Joint(m, p, n + d, b)
  {
    hide CurveFacts, Abelian, Plus, OnCurve, Signed, CURVE, Combination, Times, Multiple;
    CurveIsAbelian();
    CurveOps(p, b);
    CurveOps(b, p);
    CurveOps(Joint(m, p, n, b), Multiple(CURVE, d, p));
    CurveOps(Joint(m, p, n, b), Multiple(CURVE, d, b));
    SignedMultiple(Joint(m, p, n, b), d, p);
    SignedMultiple(Joint(m, p, n, b), d, b);
    AddToCombination(CURVE, m, p, n, b, d);
  }

  lemma DigitIndex(r: seq<i8>, k: nat, w: nat)
    requires |r| == 256 && k < 256 && 2 <= w <= 7 && Recode.WindowDigit(r, k, w)
    ensures Recode.Odd(r[k])
    ensures w == 5 ==> Index(r[k]) < 8
    ensures w == 7 ==> Index(r[k]) < 32
  {
    assert Power(2, 4) == 16 && Power(2, 6) == 64 by { Recode.ShiftStep(4, 4); Recode.ShiftStep(6, 6); }
  }

  lemma EvalStep(s: seq<int>, i: nat)
    requires i < |s|
    ensures Eval(s[i..], 2) == s[i] + 2 * Eval(s[i + 1..], 2)
  {
    assert s[i..][1..] == s[i + 1..];
  }

  /** One position: double, then add the digits of both scalars. */
  method Position(r: Ge, d1: i8, d2: i8, pre1: seq<PNiels>, table2: seq<Niels>, ghost m: int, ghost p: Point,
      ghost n: int, ghost b: Point)
    requires CurveFacts() && OnCurve(p) && OnCurve(b)
    requires OddMultiples(pre1, p) && OddNielsMultiples(table2, b)
    requires d1 != 0 ==> Recode.Odd(d1) && Index(d1) < |pre1|
    requires d2 != 0 ==> Recode.Odd(d2) && Index(d2) < |table2|
    requires Partial(r, Joint(m, p, n, b))
    modifies r
    ensures Partial(r, Joint(2 * m + d1, p, 2 * n + d2, b))
  {
    hide CurveFacts, Plus, OnCurve, Full, Partial, Pending, CachedPoint, NielsPoint, Joint, Signed, Times;
    JointDouble(m, p, n, b);
    var t := DoubleOf(r, Joint(m, p, n, b));
    t := TakeCached(r, t, d1, pre1, 2 * m, p, 2 * n, b);
    t := TakeNiels(r, t, d2, table2, 2 * m + d1, p, 2 * n, b);
    ToPartial(r, t, Joint(2 * m + d1, p, 2 * n + d2, b));
  }

  /** Adds the multiple of p that a nonzero digit selects. */
  method TakeCached(r: Ge, t: P1P1, d: i8, table: seq<PNiels>, ghost m: int, ghost p: Point, ghost n: int,
      ghost b: Point) returns (u: P1P1)
    requires CurveFacts() && OnCurve(p) && OnCurve(b) && OddMultiples(table, p)
    requires d != 0 ==> Recode.Odd(d) && Index(d) < |table|
    requires Pending(t, Joint(m, p, n, b))
    modifies r
    ensures Pending(u, Joint(m + d, p, n, b))
  {
    hide CurveFacts, Plus, OnCurve, Full, Pending, CachedPoint, Joint, Signed, Times;
    u := t;
    if d != 0 {
      ToFullPoint(r, t, Joint(m, p, n, b));
      assert OddEntry(table[Index(d)], Index(d), p);
      u := AddPNiels(r, table[Index(d)], SignBit(d), Joint(m, p, n, b), Times(CURVE, 2 * Index(d) + 1, p));
      JointDigit(m, p, n, b, d);
    }
  }

  method TakeNiels(r: Ge, t: P1P1, d: i8, table: seq<Niels>, ghost m: int, ghost p: Point, ghost n: int, ghost b: Point)
      returns (u: P1P1)
    requires CurveFacts() && OnCurve(p) && OnCurve(b) && OddNielsMultiples(table, b)
    requires d != 0 ==> Recode.Odd(d) && Index(d) < |table|
    requires Pending(t, Joint(m, p, n, b))
    modifies r
    ensures Pending(u, Joint(m, p, n + d, b))
  {
    hide CurveFacts, Plus, OnCurve, Full, Pending, NielsPoint, Joint, Signed, Times;
    u := t;
    if d != 0 {
      ToFullPoint(r, t, Joint(m, p, n, b));
      u := AddNiels(r, table[Index(d)], SignBit(d), Joint(m, p, n, b), Times(CURVE, 2 * Index(d) + 1, b));
      JointDigit(m, p, n, b, d);
    }
  }

  /** r = [s1]p + [s2]b for scalars below 2^255, given p and a table of odd multiples of b. */
  method DoubleScalarMult(r: Ge, p1: Ge, s1: Modm64.Limbs, s2: Modm64.Limbs, table2: seq<Niels>, ghost p: Point,
      ghost b: Point)
    requires CurveFacts() && OnCurve(b) && Full(p1, p)
    requires |table2| == 32 && OddNielsMultiples(table2, b)
    requires Modm64.Below256(s1) && Modm64.Below256(s2)
    requires Modm64.Value(s1) < 0x8000000000000000000000000000000000000000000000000000000000000000
    requires Modm64.Value(s2) < 0x8000000000000000000000000000000000000000000000000000000000000000
    modifies r
    ensures Partial(r, Joint(Modm64.Value(s1), p, Modm64.Value(s2), b))
  {
    hide CurveFacts, Plus, OnCurve, Full, Partial, OddMultiples, OddNielsMultiples, Joint, Modm64.Value,
      Modm64.Below256, Eval, Above,
      Recode.Windowed, Recode.WindowDigit, Recode.Odd, CURVE, Times, Index, NEUTRAL;
    var slide1 := new i8[256];
    var slide2 := new i8[256];
    Recode.SlidingWindow(slide1, s1, 5);
    Recode.SlidingWindow(slide2, s2, 7);
    FullIsPartial(p1, p);
    var pre1 := BuildTable(p1, p);
    StartNeutral(r, p, b);
    AboveEnds(slide1[..]);
    AboveEnds(slide2[..]);
    var i := LeadingZeros(slide1, slide2);
    DigitLoop(r, slide1, slide2, pre1, table2, i, p, b);
  }

  method StartNeutral(r: Ge, ghost p: Point, ghost b: Point)
    requires CurveFacts() && OnCurve(p) && OnCurve(b)
    modifies r
    ensures Partial(r, Joint(0, p, 0, b))
  {
    hide CurveFacts, OnCurve, Full, Partial, Joint, Plus, NEUTRAL;
    SetNeutral(r);
    JointDouble(0, p, 0, b);
    FullIsPartial(r, NEUTRAL);
  }

  /** The value of the digits from position i up. */
  function Above(s: seq<i8>, i: nat): int
    requires i <= |s|
  {
    Eval(s[i..], 2)
  }

  lemma AboveEnds(s: seq<i8>)
    ensures Above(s, 0) == Eval(s, 2) && Above(s, |s|) == 0
  {
    assert s[0..] == s && s[|s|..] == [];
    EvalEmpty();
  }

  lemma AboveStep(s: seq<i8>, i: nat)
    requires i < |s|
    ensures Above(s, i) == s[i] + 2 * Above(s, i + 1)
  {
    EvalStep(s, i);
  }

  /** Skips the positions at the top where both digits are zero. */
  method LeadingZeros(slide1: array<i8>, slide2: array<i8>) returns (i: int)
    requires slide1.Length == slide2.Length == 256
    ensures -1 <= i <= 255 && Above(slide1[..], i + 1) == 0 && Above(slide2[..], i + 1) == 0
  {
    hide Above;
    i := 255;
    AboveEnds(slide1[..]);
    AboveEnds(slide2[..]);
    while i >= 0 && slide1[i] == 0 && slide2[i] == 0
      invariant -1 <= i <= 255 && Above(slide1[..], i + 1) == 0 && Above(slide2[..], i + 1) == 0
    {
      AboveStep(slide1[..], i);
      AboveStep(slide2[..], i);
      i := i - 1;
    }
  }

  /** Doubles and adds from position top down. */
  method DigitLoop(r: Ge, slide1: array<i8>, slide2: array<i8>, pre1: array<PNiels>, table2: seq<Niels>, top: int,
      ghost p: Point, ghost b: Point)
    requires CurveFacts() && OnCurve(p) && OnCurve(b) && slide1.Length == slide2.Length == 256 && -1 <= top <= 255
    requires Recode.Windowed(slide1[..], 256, 5) && Recode.Windowed(slide2[..], 256, 7)
    requires pre1.Length == 8 && OddMultiples(pre1[..], p) && |table2| == 32 && OddNielsMultiples(table2, b)
    requires Partial(r, Joint(Above(slide1[..], top + 1), p, Above(slide2[..], top + 1), b))
    modifies r
    ensures Partial(r, Joint(Above(slide1[..], 0), p, Above(slide2[..], 0), b))
  {
    hide CurveFacts, OnCurve, Partial, OddMultiples, OddNielsMultiples, Joint, Above, Recode.Windowed, Recode.Odd,
      Index;
    var i := top;
    while i >= 0
      invariant -1 <= i <= 255
      invariant Partial(r, Joint(Above(slide1[..], i + 1), p, Above(slide2[..], i + 1), b))
    {
      AboveStep(slide1[..], i);
      AboveStep(slide2[..], i);
      Entry(slide1[..], i, 5);
      Entry(slide2[..], i, 7);
      Position(r, slide1[i], slide2[i], pre1[..], table2, Above(slide1[..], i + 1), p, Above(slide2[..], i + 1), b);
      i := i - 1;
    }
  }

  lemma EvalEmpty()
    ensures Eval([], 2) == 0
  {
  }

  lemma Entry(r: seq<i8>, k: nat, w: nat)
    requires |r| == 256 && k < 256 && 2 <= w <= 7 && Recode.Windowed(r, 256, w)
    ensures r[k] != 0 ==> Recode.Odd(r[k])
    ensures r[k] != 0 && w == 5 ==> Index(r[k]) < 8
    ensures r[k] != 0 && w == 7 ==> Index(r[k]) < 32
  {
    if r[k] != 0 {
      DigitIndex(r, k, w);
    }
  }

  /** The neutral element (0, 1, 1, 0). */
  method SetNeutral(r: Ge)
    requires CurveFacts()
    modifies r
    ensures Full(r, NEUTRAL)
  {
    hide Field64.Elem, Mul, OnCurve, CurveFacts, Plus;
    PlusNeutral(NEUTRAL);
    SmallElem(0);
    SmallElem(1);
    MulOne(0);
    MulOne(1);
    r.x, r.y, r.z, r.t := Small(0), Small(1), Small(1), Small(0);
  }
}
