/** The last stage of multi-scalar multiplication: one point times the scalar that is left. */
module FinalStage {
  import opened Words
  import opened Modm64
  import opened ModmBatch
  import opened AbelianGroup
  import opened Edwards
  import opened Points
  import ScalarMult

  /** The number of bits of m. */
  function BitLen(m: nat): nat {
    if m == 0 then 0 else 1 + BitLen(m / 2)
  }

  lemma {:induction false} BitLenBounds(m: nat, k: nat)
    requires Pow2(k) <= m < Pow2(k + 1)
    ensures BitLen(m) == k + 1
  {
    if k == 0 {
      assert m == 1 && BitLen(1) == 1 + BitLen(0);
    } else {
      BitLenBounds(m / 2, k - 1);
    }
  }

  /** The low four limbs of the scalar: the scan for the leading bit starts in limb 3. */
  function Scanned(n: nat): nat {
    n % 0x100000000000000000000000000000000000000000000000000000000
  }

  /** The multiplier of the stage.  From 2 on the leading bit is counted twice, because the
      result starts at the point and the scan then begins with that bit again. */
  function LastMultiplier(n: nat): nat {
    if n <= 1 then n else Scanned(n) + Pow2(BitLen(Scanned(n)))
  }

  /** The multiplier in numbers: below 2 the scalar, and otherwise the low 224 bits m of it with
      2^(k + 1) on top, where k is the place of the leading bit of m. */
  lemma MultiplierValue(n: nat, k: nat)
    ensures n <= 1 ==> LastMultiplier(n) == n
    ensures n > 1 && Pow2(k) <= n % 0x100000000000000000000000000000000000000000000000000000000 < Pow2(k + 1) ==>
      LastMultiplier(n) == n % 0x100000000000000000000000000000000000000000000000000000000 + Pow2(k + 1)
  {
    hide BitLen, Pow2;
    if n > 1 && Pow2(k) <= Scanned(n) < Pow2(k + 1) {
      BitLenBounds(Scanned(n), k);
    }
  }

  /** What the stage computes. */
  ghost function FinalValue<T>(g: Group<T>, n: nat, p: T): T {
    Times(g, LastMultiplier(n), p)
  }

  /** r = the final multiple of a point with coordinates in an array, unless the scan for the
      leading limb finds none; the source would go on before the start of the scalar. */
  method Final(r: Ge, point: GeLimbs, scalar: Limbs, ghost p: Point) returns (inRange: bool)
    requires CurveFacts() && ScalarMult.Stands(point, p) && Proper(scalar)
    modifies r
    ensures Value(scalar) >= 0 && (inRange <==> Value(scalar) <= 1 || Scanned(Value(scalar)) != 0)
    ensures inRange ==> ScalarMult.Full(r, FinalValue(CURVE, Value(scalar), p))
  {
    hide Value, CurveTimes, Low, BitLen, Scanned, FinalValue, Proper, ScalarMult.Stands, ScalarMult.Full, CurveFacts,
      CURVE, OnCurve, Pow2, Weight, LastMultiplier, Limb, NEUTRAL, Plus, Ge.Limbs;
    Nonnegative(scalar);
    StandsOnCurve(point, p);
    FinalCases(Value(scalar), p);
    r.Load(point);
    ScalarMult.StandsIsFull(r, p);
    var one := IsOne256Batch(scalar);
    if one {
      return true;
    }
    var zero := IsZero256Batch(scalar);
    if zero {
      ScalarMult.SetNeutral(r);
      return true;
    }
    LowFour(scalar);
    var limb;
    inRange, limb := LeadingLimb(scalar);
    if inRange {
      DoubleAndAddBits(r, point, scalar, limb, p);
    }
  }

  lemma FinalCases(n: nat, p: Point)
    requires CurveFacts() && OnCurve(p)
    ensures FinalValue(CURVE, 0, p) == NEUTRAL && FinalValue(CURVE, 1, p) == p
    ensures n > 1 ==> FinalValue(CURVE, n, p) == CurveTimes(Scanned(n) + Pow2(BitLen(Scanned(n))), p)
  {
    hide Times, CurveTimes, BitLen, Scanned, CurveFacts, CURVE, OnCurve, Pow2, FinalValue, Abelian, Plus, Minus;
    NamedTimes(Scanned(n) + Pow2(BitLen(Scanned(n))), p);
    CurveIsAbelian();
    ScalarMult.CurveOps(p, p);
    SmallFinals(CURVE, n, p);
  }

  lemma SmallFinals<T(!new)>(g: Group<T>, n: nat, p: T)
    requires Abelian(g) && g.elem(p)
    ensures FinalValue(g, 0, p) == g.zero && FinalValue(g, 1, p) == p
    ensures n > 1 ==> FinalValue(g, n, p) == Times(g, Scanned(n) + Pow2(BitLen(Scanned(n))), p)
  {
    hide Times, BitLen, Scanned, Pow2, Abelian;
    NoMultiple(g, p);
    OnePoint(g, p);
  }

  lemma StandsOnCurve(v: GeLimbs, a: Point)
    requires ScalarMult.Stands(v, a)
    ensures OnCurve(a)
  {
  }

  /** [x]p on the curve. */
  ghost function CurveTimes(x: nat, p: Point): Point {
    Times(CURVE, x, p)
  }

  lemma NamedTimes(x: nat, p: Point)
    ensures CurveTimes(x, p) == Times(CURVE, x, p)
  {
    hide Times, CURVE;
  }

  /** Reads the bits of the low four limbs from the leading one down, doubling and adding. */
  method DoubleAndAddBits(r: Ge, point: GeLimbs, scalar: Limbs, first: nat, ghost p: Point)
    requires CurveFacts() && ScalarMult.Stands(point, p) && ScalarMult.Full(r, p) && Proper(scalar)
      && Leading(scalar, first)
    modifies r
    ensures ScalarMult.Full(r, CurveTimes(Low(scalar, 4) + Pow2(BitLen(Low(scalar, 4))), p))
  {
    hide CurveTimes, Pending, Limb, Low, BitLen, ScalarMult.Stands, ScalarMult.Full, CurveFacts, OnCurve, Plus, Weight,
      Bit, Pow2, Proper;
    var q := new Ge();
    q.Load(point);
    ScalarMult.StandsIsFull(q, p);
    var flag, k := LeadingBit(scalar, first);
    var limb := first;
    ghost var x: nat, all := 1, Pending(scalar, limb, flag, 1);
    StandsOnCurve(point, p);
    CurveStep(0, p);
    while true
      invariant limb <= 3 && flag == Pow2(k) && k <= 55 && flag > 0
      invariant ScalarMult.Full(r, CurveTimes(x, p)) && ScalarMult.Full(q, p)
      invariant Pending(scalar, limb, flag, x) == all
      decreases limb, flag
    {
      DoubleAndAddOne(r, q, Bit(scalar, limb, flag) == 1, x, p);
      OneBitDown(scalar, limb, flag, k, x);
      x := 2 * x + Bit(scalar, limb, flag);
      flag := flag / 2;
      if flag == 0 {
        if limb == 0 {
          break;
        }
        limb := limb - 1;
        flag := 0x80000000000000;
        k := 55;
      } else {
        k := k - 1;
      }
    }
  }

  /** The place after a bit: the next one of the limb, or the top one of the limb below. */
  lemma OneBitDown(a: Limbs, limb: nat, flag: nat, k: nat, x: nat)
    requires Proper(a) && limb <= 3 && flag == Pow2(k) > 0
    ensures Pow2(55) == 0x80000000000000
    ensures var y := 2 * x + Bit(a, limb, flag);
      if flag / 2 > 0 then k > 0 && flag / 2 == Pow2(k - 1)
        && Pending(a, limb, flag / 2, y) == Pending(a, limb, flag, x)
      else Pending(a, limb, flag, x) == if limb == 0 then y else Pending(a, limb - 1, 0x80000000000000, y)
  {
    hide Pending, Limb, Weight, Bit, Pow2;
    TopFlag();
    FlagHalves(k);
    if flag == 1 {
      LastBit(a, limb, x);
    } else {
      NextBit(a, limb, flag, x);
    }
  }

  /** One bit: doubles r = [x]p, and adds q = p for a one. */
  method DoubleAndAddOne(r: Ge, q: Ge, bit: bool, ghost x: nat, ghost p: Point)
    requires CurveFacts() && OnCurve(p) && r != q && ScalarMult.Full(r, CurveTimes(x, p)) && ScalarMult.Full(q, p)
    modifies r
    ensures ScalarMult.Full(r, CurveTimes(2 * x + if bit then 1 else 0, p))
  {
    hide CurveTimes, ScalarMult.Full, ScalarMult.Partial, CurveFacts, OnCurve, Plus;
    CurveStep(x, p);
    ScalarMult.FullIsPartial(r, CurveTimes(x, p));
    ScalarMult.DoubleFull(r, r, CurveTimes(x, p));
    if bit {
      ScalarMult.AddFull(r, r, q, CurveTimes(2 * x, p), p);
    }
  }

  /** Doubling and adding, as multiples on the curve. */
  lemma CurveStep(x: nat, p: Point)
    requires CurveFacts() && OnCurve(p)
    ensures Plus(CurveTimes(x, p), CurveTimes(x, p)) == CurveTimes(2 * x, p)
    ensures Plus(CurveTimes(2 * x, p), p) == CurveTimes(2 * x + 1, p)
    ensures CurveTimes(1, p) == p
  {
    hide Times, CurveTimes, CurveFacts, CURVE, OnCurve, Plus, Abelian;
    CurveIsAbelian();
    NamedTimes(x, p);
    NamedTimes(2 * x, p);
    NamedTimes(2 * x + 1, p);
    NamedTimes(1, p);
    ScalarMult.CurveOps(p, p);
    ScalarMult.CurveOps(Times(CURVE, x, p), Times(CURVE, x, p));
    ScalarMult.CurveOps(Times(CURVE, 2 * x, p), p);
    DoubleAndAdd(CURVE, x, p);
    OnePoint(CURVE, p);
  }

  lemma Nonnegative(a: Limbs)
    requires Proper(a)
    ensures Value(a) >= 0
  {
  }

  lemma TopFlag()
    ensures Pow2(55) == 0x80000000000000
  {
    assert Pow2(5) == 32 by { assert Pow2(2) == 4; }
    hide Pow2;
    Pow2Add(5, 5);
    assert Pow2(10) == 1024;
    Pow2Add(10, 10);
    assert Pow2(20) == 0x100000;
    Pow2Add(20, 20);
    assert Pow2(40) == 0x10000000000;
    Pow2Add(10, 5);
    Pow2Add(40, 15);
  }

  lemma LowFour(a: Limbs)
    requires Proper(a)
    ensures 0 <= Low(a, 4) == Scanned(Value(a))
  {
    LowIsValue(a);
    LowBound(a, 4);
    LowBound(a, 5);
    DivModUnique(Value(a), Weight(4), a.l4, Low(a, 4));
  }

  /** The highest nonzero one of the low four limbs. */
  ghost predicate Leading(a: Limbs, limb: nat)
    requires Proper(a)
  {
    limb <= 3 && Limb(a, limb) != 0 && Low(a, limb + 1) == Low(a, 4) > 0
  }

  /** The limb where the scan ends, if it finds one. */
  method LeadingLimb(scalar: Limbs) returns (found: bool, limb: nat)
    requires Proper(scalar)
    ensures found <==> Low(scalar, 4) != 0
    ensures found ==> Leading(scalar, limb)
  {
    hide Low, Weight;
    limb := 3;
    while Limb(scalar, limb) == 0
      invariant limb <= 3 && Low(scalar, 4) == Low(scalar, limb + 1)
      decreases limb
    {
      LowStep(scalar, limb);
      NothingLow(scalar, limb);
      if limb == 0 {
        return false, 0;
      }
      limb := limb - 1;
    }
    found := true;
    NonzeroLimb(scalar, limb);
  }

  lemma NonzeroLimb(a: Limbs, limb: nat)
    requires Proper(a) && limb <= 3 && Limb(a, limb) != 0
    ensures Low(a, limb + 1) > 0
  {
    hide Low, Weight;
    LowStep(a, limb);
    LowBound(a, limb);
    MulMono(1, Limb(a, limb), Weight(limb));
  }

  /** The bit where the scan ends. */
  method LeadingBit(scalar: Limbs, limb: nat) returns (flag: u64, ghost k: nat)
    requires Proper(scalar) && Leading(scalar, limb)
    ensures k <= 55 && flag == Pow2(k)
    ensures Pending(scalar, limb, flag, 1) == Low(scalar, 4) + Pow2(BitLen(Low(scalar, 4)))
  {
    hide Low, Pending;
    ghost var l := Limb(scalar, limb);
    flag := 0x80000000000000;
    k := 55;
    TopFlag();
    while Limb(scalar, limb) / flag % 2 == 0
      invariant k <= 55 && flag == Pow2(k) && 0 < l < 2 * Pow2(k) && l == Limb(scalar, limb)
      decreases k
    {
      TopOf(l, flag);
      flag := flag / 2;
      k := k - 1;
    }
    TopOf(l, flag);
    AtLeadingBit(scalar, limb, k);
  }

  lemma NothingLow(a: Limbs, n: nat)
    requires n <= 5
    ensures n == 0 ==> Low(a, n) == 0
  {
  }

  lemma TopOf(l: nat, flag: nat)
    requires 0 < flag && l < 2 * flag
    ensures l / flag % 2 == 0 <==> l < flag
  {
    if l < flag {
      DivModUnique(l, flag, 0, l);
    } else {
      DivModUnique(l, flag, 1, l - flag);
    }
  }

  lemma {:induction false} WeightIsPow2(i: nat)
    requires i <= 4
    ensures Weight(i) == Pow2(56 * i)
  {
    if i > 0 {
      WeightIsPow2(i - 1);
      TopFlag();
      assert Pow2(56) == 0x100000000000000;
      Pow2Add(56, 56 * (i - 1));
    }
  }

  lemma AtLeadingBit(a: Limbs, limb: nat, k: nat)
    requires Proper(a) && limb <= 3 && Low(a, limb + 1) == Low(a, 4)
    requires Pow2(k) <= Limb(a, limb) < 2 * Pow2(k)
    ensures Low(a, 4) >= 0 && Pending(a, limb, Pow2(k), 1) == Low(a, 4) + Pow2(BitLen(Low(a, 4)))
  {
    hide Low, Weight, Limb, BitLen, Pow2;
    LowStep(a, limb);
    LowBound(a, limb);
    WeightIsPow2(limb);
    LeadingWeight(Pow2(k), Weight(limb), Limb(a, limb), Low(a, limb));
    Pow2Add(k, 56 * limb);
    Pow2Next(k + 56 * limb);
    BitLenBounds(Low(a, 4), k + 56 * limb);
  }

  lemma Pow2Next(k: nat)
    ensures Pow2(k + 1) == 2 * Pow2(k)
  {
  }

  lemma LeadingWeight(f: nat, w: nat, l: nat, low: nat)
    requires f <= l < 2 * f && low < w
    ensures f * w <= low + l * w < 2 * (f * w) && 1 * (2 * f * w) == 2 * (f * w) && l % (2 * f) == l
  {
    MulMono(f, l, w);
    Below(l, 2 * f, w);
    Regroup(f, w);
    DivModUnique(l, 2 * f, 0, l);
  }

  lemma Regroup(f: int, w: int)
    ensures 2 * f * w == 2 * (f * w) == 1 * (2 * f * w)
  {
  }

  /** The bit of a limb that a flag selects. */
  function Bit(a: Limbs, limb: nat, flag: nat): (b: nat)
    requires limb <= 4 && flag > 0
    ensures b <= 1
  {
    Limb(a, limb) / flag % 2
  }

  lemma FlagHalves(k: nat)
    ensures Pow2(k) > 0 && (Pow2(k) == 1 <==> k == 0)
    ensures k > 0 ==> Pow2(k) % 2 == 0 && Pow2(k) / 2 == Pow2(k - 1)
  {
  }

  /** The value already read in front of the bits from flag downwards. */
  function Pending(a: Limbs, limb: nat, flag: nat, x: nat): int
    requires limb <= 4 && flag > 0
  {
    x * (2 * flag * Weight(limb)) + Limb(a, limb) % (2 * flag) * Weight(limb) + Low(a, limb)
  }

  lemma NextBit(a: Limbs, limb: nat, flag: nat, x: nat)
    requires limb <= 4 && flag > 1 && flag % 2 == 0
    ensures Pending(a, limb, flag / 2, 2 * x + Bit(a, limb, flag)) == Pending(a, limb, flag, x)
  {
    hide Low, Weight, Limb;
    var w, l, b := Weight(limb), Limb(a, limb), Limb(a, limb) / flag % 2;
    SplitBit(l, flag);
    assert (2 * x + b) * (flag * w) == x * (2 * flag * w) + b * flag * w;
    assert (b * flag + l % flag) * w == b * flag * w + l % flag * w;
  }

  lemma SplitBit(l: nat, flag: nat)
    requires flag > 0
    ensures l % (2 * flag) == l / flag % 2 * flag + l % flag
  {
    var q := l / flag;
    assert l == (2 * flag) * (q / 2) + (q % 2 * flag + l % flag) by {
      assert flag * q == flag * (2 * (q / 2) + q % 2) == (2 * flag) * (q / 2) + flag * (q % 2);
    }
    assert q % 2 * flag <= flag;
    DivModUnique(l, 2 * flag, q / 2, q % 2 * flag + l % flag);
  }

  /** The lowest bit of a limb is followed by the top bit of the limb below. */
  lemma LastBit(a: Limbs, limb: nat, x: nat)
    requires Proper(a) && limb <= 3
    ensures var y := 2 * x + Bit(a, limb, 1);
      if limb == 0 then Pending(a, limb, 1, x) == y
      else Pending(a, limb, 1, x) == Pending(a, limb - 1, 0x80000000000000, y)
  {
    hide Low;
    var w, l := Weight(limb), Limb(a, limb) as int;
    var y := 2 * x + l % 2;
    hide Weight, Limb;
    assert x * (2 * w) + l % 2 * w == y * w;
    NothingLow(a, limb);
    if limb == 0 {
      FirstWeight();
    } else {
      LowStep(a, limb - 1);
      WeightStep(limb - 1, 0);
      ProperLimb(a, limb - 1);
    }
  }

  lemma FirstWeight()
    ensures Weight(0) == 1
  {
  }

  lemma OnePoint<T(!new)>(g: Group<T>, p: T)
    requires Abelian(g) && g.elem(p)
    ensures Times(g, 1, p) == p
  {
    SmallMultiples(g, p);
  }

  lemma DoubleAndAdd<T(!new)>(g: Group<T>, x: nat, p: T)
    requires Abelian(g) && g.elem(p)
    ensures g.add(Times(g, x, p), Times(g, x, p)) == Times(g, 2 * x, p)
    ensures g.add(Times(g, 2 * x, p), p) == Times(g, 2 * x + 1, p)
  {
    TimesAdd(g, x, x, p);
    TimesElem(g, 2 * x, p);
    Sum(g, Times(g, 2 * x, p), p);
  }

  // ----- when the stage is right -----

  /** An even multiple of an element of odd order is neutral only if the element is. */
  lemma {:induction false} OddOrder<T(!new)>(g: Group<T>, order: nat, k: nat, p: T)
    requires Abelian(g) && g.elem(p) && order % 2 == 1 && Times(g, order, p) == g.zero
    requires Times(g, Pow2(k), p) == g.zero
    ensures p == g.zero
  {
    hide Times;
    OnePoint(g, p);
    if k > 0 {
      var h, q := order / 2, Times(g, Pow2(k - 1), p);
      TimesElem(g, Pow2(k - 1), p);
      TimesTimes(g, 2, Pow2(k - 1), p);
      TimesTimes(g, h, 2, q);
      TimesOfZero(g, h);
      // [order]q is neutral, and so is [2h]q
      TimesTimes(g, order, Pow2(k - 1), p);
      TimesTimes(g, Pow2(k - 1), order, p);
      TimesOfZero(g, Pow2(k - 1));
      assert order * Pow2(k - 1) == Pow2(k - 1) * order;
      TimesAdd(g, 2 * h, 1, q);
      OnePoint(g, q);
      Inverse(g, q);
      OddOrder(g, order, k - 1, p);
    }
  }

  /** The stage returns [n]p exactly if the point is annihilated by the difference of its
      multiplier and n. */
  lemma FinalIsMultiple<T(!new)>(g: Group<T>, n: nat, p: T)
    requires Abelian(g) && g.elem(p)
    ensures FinalValue(g, n, p) == Times(g, n, p) <==> Multiple(g, LastMultiplier(n) - n, p) == g.zero
  {
    hide Times, Multiple, LastMultiplier, Abelian;
    var a, b := FinalValue(g, n, p), Times(g, n, p);
    TimesElem(g, LastMultiplier(n), p);
    TimesElem(g, n, p);
    TimesSub(g, LastMultiplier(n), n, p);
    Inverse(g, b);
    if g.add(a, g.neg(b)) == g.zero {
      Inverse(g, a);
      Cancel(g, a, g.neg(b), g.zero);
      AbelianGroup.NegNeg(g, b);
      Inverse(g, b);
    }
  }

  /** In a group of odd exponent, for scalars of at most 224 bits: exactly if the scalar is at
      most 1 or the point is neutral. */
  lemma FinalInOddGroup<T(!new)>(g: Group<T>, order: nat, n: nat, p: T)
    requires Abelian(g) && g.elem(p) && order % 2 == 1 && Times(g, order, p) == g.zero
    requires Scanned(n) == n
    ensures FinalValue(g, n, p) == Times(g, n, p) <==> n <= 1 || p == g.zero
  {
    hide Times, BitLen, Scanned, Abelian;
    FinalIsMultiple(g, n, p);
    if n <= 1 {
      SmallMultiples(g, p);
    } else {
      if p == g.zero {
        TimesOfZero(g, Pow2(BitLen(n)));
      }
      if Times(g, Pow2(BitLen(n)), p) == g.zero {
        OddOrder(g, order, BitLen(n), p);
      }
    }
  }

  ghost predicate Prime(n: nat) {
    n > 1 && forall d: nat :: 1 < d < n ==> n % d != 0
  }

  /** In a group of prime exponent only the neutral element has a smaller order. */
  lemma {:induction false} PrimeOrder<T(!new)>(g: Group<T>, order: nat, a: nat, p: T)
    requires Abelian(g) && g.elem(p) && Prime(order) && Times(g, order, p) == g.zero && 0 < a < order
    ensures Times(g, a, p) == g.zero <==> p == g.zero
    decreases a
  {
    hide Times, Abelian;
    OnePoint(g, p);
    TimesOfZero(g, a);
    if a > 1 && Times(g, a, p) == g.zero {
      var q, r := order / a, order % a;
      TimesTimes(g, q, a, p);
      TimesOfZero(g, q);
      TimesElem(g, r, p);
      TimesAdd(g, q * a, r, p);
      Inverse(g, Times(g, r, p));
      PrimeOrder(g, order, r, p);
    }
  }

  /** The multiplier is at most 225 bits long, and zero only for zero. */
  lemma LastMultiplierBound(n: nat)
    ensures LastMultiplier(n) < 0x200000000000000000000000000000000000000000000000000000000
    ensures LastMultiplier(n) == 0 <==> n == 0
  {
    hide BitLen, Pow2;
    WeightIsPow2(4);
    BitLenAtMost(Scanned(n), 224);
  }

  lemma {:induction false} BitLenAtMost(m: nat, k: nat)
    requires m < Pow2(k)
    ensures Pow2(BitLen(m)) <= Pow2(k)
    ensures 2 * m >= Pow2(BitLen(m)) || m == 0
  {
    if k > 0 && m > 0 {
      BitLenAtMost(m / 2, k - 1);
    }
  }

  /** The multiplier is n itself only below 2 and from 3 * 2^223 up to below 2^225. */
  lemma MultiplierIsScalar(n: nat)
    ensures LastMultiplier(n) == n
      <==>
        || n <= 1
        || 0x180000000000000000000000000000000000000000000000000000000 <= n
          < 0x200000000000000000000000000000000000000000000000000000000
  {
    hide BitLen, Pow2;
    var m := Scanned(n);
    Pow2Of224();
    BitLenAtMost(m, 224);
    if m >= 0x80000000000000000000000000000000000000000000000000000000 {
      BitLenBounds(m, 223);
    } else {
      BitLenAtMost(m, 223);
    }
  }

  lemma Pow2Of224()
    ensures Pow2(223) == 0x80000000000000000000000000000000000000000000000000000000
    ensures Pow2(224) == 0x100000000000000000000000000000000000000000000000000000000
  {
    WeightIsPow2(4);
    assert Pow2(224) == 2 * Pow2(223);
  }

  /** In a group of prime exponent above the scalar: exactly if the multiplier is the scalar or
      the point is neutral. */
  lemma FinalInPrimeGroup<T(!new)>(g: Group<T>, order: nat, n: nat, p: T)
    requires Abelian(g) && g.elem(p) && Prime(order) && Times(g, order, p) == g.zero
    requires n < order && LastMultiplier(n) < order
    ensures FinalValue(g, n, p) == Times(g, n, p) <==> LastMultiplier(n) == n || p == g.zero
    ensures FinalValue(g, n, p) == g.zero <==> Times(g, n, p) == g.zero
  {
    hide Times, LastMultiplier, Abelian, Prime;
    FinalIsMultiple(g, n, p);
    NoMultiple(g, p);
    LastMultiplierBound(n);
    var k := LastMultiplier(n);
    if n > 0 {
      PrimeOrder(g, order, n, p);
      PrimeOrder(g, order, k, p);
    }
    if k != n {
      DifferenceOrder(g, order, k, n, p);
    }
  }

  lemma DifferenceOrder<T(!new)>(g: Group<T>, order: nat, k: nat, n: nat, p: T)
    requires Abelian(g) && g.elem(p) && Prime(order) && Times(g, order, p) == g.zero && k < order && n < order && k != n
    ensures Multiple(g, k - n, p) == g.zero <==> p == g.zero
  {
    hide Times, Abelian, Prime;
    var d := if k > n then k - n else n - k;
    PrimeOrder(g, order, d, p);
    TimesElem(g, d, p);
    NegZero(g);
    AbelianGroup.NegNeg(g, Times(g, d, p));
  }

  lemma NoMultiple<T>(g: Group<T>, p: T)
    ensures Times(g, 0, p) == g.zero
  {
  }
}
