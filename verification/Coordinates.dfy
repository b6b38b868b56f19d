/** Projective coordinates for the curve and the formulas of the implementation,
    as computations on field elements. */
module Coordinates {
  import opened Fp
  import opened Edwards

  /** 2d. */
  const D2: F := 0x2406d9dc56dffce7198e80f2eef3d13000e0149a8283b156ebd69b9426b2f159

  /** Extended coordinates: (X/Z, Y/Z) with T = XY/Z. */
  datatype Ext = Ext(x: F, y: F, z: F, t: F)

  /** The completed point (X/Z, Y/T), the result of an addition before it is multiplied out. */
  datatype Completed = Completed(x: F, y: F, z: F, t: F)

  /** The cached form of a point for repeated additions. */
  datatype Cached = Cached(ysubx: F, xaddy: F, z: F, t2d: F)

  ghost predicate PartlyFor(e: Ext, p: Point) {
    e.z != 0 && e.x == Mul(p.x, e.z) && e.y == Mul(p.y, e.z)
  }

  ghost predicate For(e: Ext, p: Point) {
    PartlyFor(e, p) && e.t == Mul(XY(p), e.z)
  }

  ghost predicate CompletedFor(c: Completed, p: Point) {
    c.z != 0 && c.t != 0 && c.x == Mul(p.x, c.z) && c.y == Mul(p.y, c.t)
  }

  ghost predicate CachedFor(c: Cached, p: Point) {
    c.z != 0 && c.ysubx == Mul(Sub(p.y, p.x), c.z) && c.xaddy == Mul(Add(p.y, p.x), c.z)
      && c.t2d == Mul(Mul(D2, XY(p)), c.z)
  }

  // ----- the formulas, operation by operation -----

  ghost function ToFull(c: Completed): Ext {
    Ext(Mul(c.x, c.t), Mul(c.y, c.z), Mul(c.z, c.t), Mul(c.x, c.y))
  }

  ghost function ToCached(e: Ext): Cached {
    Cached(Sub(e.y, e.x), Add(e.y, e.x), e.z, Mul(e.t, D2))
  }

  ghost function AddCached(e: Ext, q: Cached): Completed {
    var a, b := Mul(Sub(e.y, e.x), q.ysubx), Mul(Add(e.y, e.x), q.xaddy);
    var c, d := Mul(e.t, q.t2d), Add(Mul(e.z, q.z), Mul(e.z, q.z));
    Completed(Sub(b, a), Add(b, a), Add(d, c), Sub(d, c))
  }

  /** Subtraction of a cached point: both pairs swap their roles. */
  ghost function SubCached(e: Ext, q: Cached): Completed {
    var a, b := Mul(Sub(e.y, e.x), q.xaddy), Mul(Add(e.y, e.x), q.ysubx);
    var c, d := Mul(e.t, q.t2d), Add(Mul(e.z, q.z), Mul(e.z, q.z));
    Completed(Sub(b, a), Add(b, a), Sub(d, c), Add(d, c))
  }

  ghost function AddExt(e: Ext, q: Ext): Completed {
    var a, b := Mul(Sub(e.y, e.x), Sub(q.y, q.x)), Mul(Add(e.y, e.x), Add(q.y, q.x));
    var c, d := Mul(Mul(e.t, q.t), D2), Add(Mul(e.z, q.z), Mul(e.z, q.z));
    Completed(Sub(b, a), Add(b, a), Add(d, c), Sub(d, c))
  }

  ghost function DoubleExt(e: Ext): Completed {
    var a, b, c := Mul(e.x, e.x), Mul(e.y, e.y), Mul(e.z, e.z);
    var s := Add(e.x, e.y);
    var y, z := Add(b, a), Sub(b, a);
    Completed(Sub(Mul(s, s), y), y, z, Sub(Add(c, c), z))
  }

  // ----- what the formulas compute -----

  lemma {:induction false} SwapInner(a: F, b: F, c: F, d: F)
    ensures Mul(Mul(a, b), Mul(c, d)) == Mul(Mul(a, c), Mul(b, d))
  {
    hide Mul, Residue;
    MulAssociates(a, b, Mul(c, d));
    MulAssociates(b, c, d);
    MulCommutes(b, c);
    MulAssociates(c, b, d);
    MulAssociates(a, c, Mul(b, d));
  }

  lemma {:induction false} ToFullFor(c: Completed, p: Point)
    requires Fermat() && CompletedFor(c, p)
    ensures For(ToFull(c), p)
  {
    hide Mul, Residue, Fermat;
    NonZeroProduct(c.z, c.t);
    MulAssociates(p.x, c.z, c.t);
    MulAssociates(p.y, c.t, c.z);
    MulCommutes(c.t, c.z);
    SwapInner(p.x, c.z, p.y, c.t);
  }

  lemma {:induction false} TwoD()
    ensures D2 == Add(D, D)
  {
  }

  lemma {:induction false} ToCachedFor(e: Ext, p: Point)
    requires For(e, p)
    ensures CachedFor(ToCached(e), p)
  {
    hide Mul, Residue, Add, Sub;
    Distribute(p.y, p.x, e.z);
    MulCommutes(e.t, D2);
    MulAssociates(D2, XY(p), e.z);
  }

  lemma {:induction false} Distribute(a: F, b: F, c: F)
    ensures Mul(Add(a, b), c) == Add(Mul(a, c), Mul(b, c))
    ensures Mul(Sub(a, b), c) == Sub(Mul(a, c), Mul(b, c))
  {
    hide Residue, Mul;
    MulIsProduct(a, c);
    MulIsProduct(b, c);
    ResidueOfSmall(c);
    ResidueMul((a as int) + b, c);
    ResidueMul((a as int) - b, c);
    ResidueAdd((a as int) * c, (b as int) * c);
    ResidueSub((a as int) * c, (b as int) * c);
    assert ((a as int) + b) * c == (a as int) * c + (b as int) * c;
    assert ((a as int) - b) * c == (a as int) * c - (b as int) * c;
  }

  /** (y1 + x1)(y2 + x2) -+ (y1 - x1)(y2 - x2) is twice the numerator of the sum. */
  lemma {:induction false} CrossTerms(p: Point, q: Point)
    ensures var a, b := Mul(Sub(p.y, p.x), Sub(q.y, q.x)), Mul(Add(p.y, p.x), Add(q.y, q.x));
      Sub(b, a) == Mul(2, NumX(p, q)) && Add(b, a) == Mul(2, NumY(p, q))
  {
    var x1: int, y1: int, x2: int, y2: int := p.x, p.y, q.x, q.y;
    NumsAsIntegers(p, q);
    hide Residue, NumX, NumY, Mul;
    CrossIntegers(x1, y1, x2, y2);
    ResidueMul(y1 - x1, y2 - x2);
    ResidueMul(y1 + x1, y2 + x2);
    TwiceResidue((y1 - x1) * (y2 - x2), (y1 + x1) * (y2 + x2), x1 * y2 + y1 * x2, y1 * y2 + x1 * x2);
  }

  lemma {:induction false} TwiceResidue(u: int, v: int, n1: int, n2: int)
    requires v - u == 2 * n1 && v + u == 2 * n2
    ensures Sub(Residue(v), Residue(u)) == Mul(2, Residue(n1)) && Add(Residue(v), Residue(u)) == Mul(2, Residue(n2))
  {
    hide Residue, Mul, Add, Sub;
    ResidueSub(v, u);
    ResidueAdd(v, u);
    ResidueTwice(n1);
    ResidueTwice(n2);
  }

  lemma {:induction false} ResidueTwice(n: int)
    ensures Residue(2 * n) == Mul(2, Residue(n))
  {
    hide Residue, Mul;
    ResidueMul(2, n);
    ResidueOfSmall(2);
  }

  lemma {:induction false} CrossIntegers(x1: int, y1: int, x2: int, y2: int)
    ensures (y1 + x1) * (y2 + x2) - (y1 - x1) * (y2 - x2) == 2 * (x1 * y2 + y1 * x2)
    ensures (y1 + x1) * (y2 + x2) + (y1 - x1) * (y2 - x2) == 2 * (y1 * y2 + x1 * x2)
  {
  }

  /** Addition with a cached operand computes the sum of the points. */
  lemma {:induction false} AddCachedFor(e: Ext, c: Cached, p: Point, q: Point)
    requires Fermat() && NonSquareD() && OnCurve(p) && OnCurve(q) && For(e, p) && CachedFor(c, q)
    ensures CompletedFor(AddCached(e, c), Plus(p, q))
  {
    hide Mul, Residue, Add, Sub, Fermat, NonSquareD, Plus, NumX, NumY, Kappa, OnCurve;
    var s := Mul(2, Mul(e.z, c.z));
    var r := Plus(p, q);
    var zz := Mul(e.z, c.z);
    // a and b
    Distribute(p.y, p.x, e.z);
    SwapInner(Sub(p.y, p.x), e.z, Sub(q.y, q.x), c.z);
    SwapInner(Add(p.y, p.x), e.z, Add(q.y, q.x), c.z);
    var a, b := Mul(Sub(p.y, p.x), Sub(q.y, q.x)), Mul(Add(p.y, p.x), Add(q.y, q.x));
    Distribute(b, a, zz);
    CrossTerms(p, q);
    Scale(2, NumX(p, q), zz);
    Scale(2, NumY(p, q), zz);
    // c and d
    SwapInner(XY(p), e.z, Mul(D2, XY(q)), c.z);
    KappaTwice(p, q);
    Scale(2, Kappa(p, q), zz);
    Double(zz);
    MulCommutes(s, Kappa(p, q));
    OnePlus(s, Kappa(p, q));
    // the quotients
    PlusEquations(p, q);
    Completeness(p, q);
    NonZeroProduct(e.z, c.z);
    TwoNonZero();
    NonZeroProduct(2, zz);
    NonZeroProduct(s, Add(1, Kappa(p, q)));
    NonZeroProduct(s, Sub(1, Kappa(p, q)));
    PullOut(r.x, Add(1, Kappa(p, q)), s);
    PullOut(r.y, Sub(1, Kappa(p, q)), s);
    MulCommutes(s, NumX(p, q));
    MulCommutes(s, NumY(p, q));
  }

  lemma {:induction false} TwoNonZero()
    ensures 2 as F != 0
  {
  }

  /** (k * n) * z == n * (k * z). */
  lemma {:induction false} Scale(k: F, n: F, z: F)
    ensures Mul(Mul(k, n), z) == Mul(n, Mul(k, z)) == Mul(Mul(k, z), n)
  {
    hide Mul, Residue;
    MulCommutes(k, n);
    MulAssociates(n, k, z);
    MulCommutes(n, Mul(k, z));
  }

  lemma {:induction false} Double(z: F)
    ensures Add(z, z) == Mul(2, z)
  {
  }

  lemma {:induction false} KappaTwice(p: Point, q: Point)
    ensures Mul(XY(p), Mul(D2, XY(q))) == Mul(2, Kappa(p, q))
  {
    TwoD();
    Double(D);
    hide Mul, Residue, Add;
    var u, v := XY(p), XY(q);
    MulAssociates(u, D2, v);
    MulCommutes(u, D2);
    MulAssociates(D2, u, v);
    MulAssociates(2, D, Mul(u, v));
  }

  lemma {:induction false} OnePlus(s: F, k: F)
    ensures Mul(s, Add(1, k)) == Add(s, Mul(s, k)) && Mul(s, Sub(1, k)) == Sub(s, Mul(s, k))
  {
    Distribute(1, k, s);
    MulOne(s);
    hide Residue, Mul, Add, Sub;
    MulCommutes(s, k);
    MulCommutes(s, Add(1, k));
    MulCommutes(s, Sub(1, k));
  }

  lemma {:induction false} PullOut(r: F, d: F, s: F)
    ensures Mul(r, Mul(s, d)) == Mul(s, Mul(r, d))
  {
    hide Residue, Mul;
    MulAssociates(r, s, d);
    MulCommutes(r, s);
    MulAssociates(s, r, d);
  }

  /** Addition of two extended points: the uncached form of the same computation. */
  lemma {:induction false} AddExtFor(e: Ext, f: Ext, p: Point, q: Point)
    requires Fermat() && NonSquareD() && OnCurve(p) && OnCurve(q) && For(e, p) && For(f, q)
    ensures CompletedFor(AddExt(e, f), Plus(p, q))
  {
    hide Mul, Residue, Add, Sub, Fermat, NonSquareD, Plus, OnCurve;
    ToCachedFor(f, q);
    AddCachedFor(e, ToCached(f), p, q);
    MulAssociates(e.t, f.t, D2);
  }

  ghost function NegCached(c: Cached): Cached {
    Cached(c.xaddy, c.ysubx, c.z, Neg(c.t2d))
  }

  lemma {:induction false} NegCachedFor(c: Cached, q: Point)
    requires CachedFor(c, q)
    ensures CachedFor(NegCached(c), Minus(q))
  {
    NegLeft(q.x, q.y);
    MulCommutes(D2, Neg(XY(q)));
    MulCommutes(D2, XY(q));
    NegLeft(XY(q), D2);
    NegLeft(Mul(D2, XY(q)), c.z);
    AddNeg(q.y, q.x);
    hide Mul, Residue, Add, Sub, Neg;
  }

  /** Subtracting a cached point is adding its negative, coordinate by coordinate. */
  lemma {:induction false} SubCachedIsAddNeg(e: Ext, c: Cached)
    ensures SubCached(e, c) == AddCached(e, NegCached(c))
  {
    MulCommutes(e.t, Neg(c.t2d));
    MulCommutes(e.t, c.t2d);
    NegLeft(c.t2d, e.t);
    var d := Add(Mul(e.z, c.z), Mul(e.z, c.z));
    AddNeg(d, Mul(e.t, c.t2d));
    hide Mul, Residue, Add, Sub, Neg;
  }

  lemma {:induction false} SubCachedFor(e: Ext, c: Cached, p: Point, q: Point)
    requires Fermat() && NonSquareD() && OnCurve(p) && OnCurve(q) && For(e, p) && CachedFor(c, q)
    ensures CompletedFor(SubCached(e, c), Plus(p, Minus(q)))
  {
    hide Mul, Residue, Add, Sub, Neg, Fermat, NonSquareD, Plus, OnCurve, Minus;
    NegCachedFor(c, q);
    MinusOnCurve(q);
    SubCachedIsAddNeg(e, c);
    AddCachedFor(e, NegCached(c), p, Minus(q));
  }

  /** Doubling never reads t. */
  lemma {:induction false} DoubleFor(e: Ext, p: Point)
    requires Fermat() && NonSquareD() && OnCurve(p) && PartlyFor(e, p)
    ensures CompletedFor(DoubleExt(e), Plus(p, p))
  {
    hide Mul, Residue, Add, Sub, Fermat, NonSquareD, Plus, NumX, NumY, Kappa;
    var z2 := Mul(e.z, e.z);
    var r, k := Plus(p, p), Kappa(p, p);
    SwapInner(p.x, e.z, p.x, e.z);
    SwapInner(p.y, e.z, p.y, e.z);
    Distribute(Mul(p.y, p.y), Mul(p.x, p.x), z2);
    Distribute(p.x, p.y, e.z);
    SwapInner(Add(p.x, p.y), e.z, Add(p.x, p.y), e.z);
    SquareSum(p);
    Distribute(Mul(Add(p.x, p.y), Add(p.x, p.y)), NumY(p, p), z2);
    AddCommutes(1, k);
    // the curve equation gives the first denominator
    assert Sub(Mul(p.y, p.y), Mul(p.x, p.x)) == Add(1, k) by { KappaSame(p); }
    // the second one is 2 - (1 + k)
    TwoMinus(k);
    Double(z2);
    Distribute(2, Add(1, k), z2);
    PlusEquations(p, p);
    Completeness(p, p);
    NonZeroProduct(e.z, e.z);
    NonZeroProduct(Add(1, k), z2);
    NonZeroProduct(Sub(1, k), z2);
    MulAssociates(r.x, Add(1, k), z2);
    MulAssociates(r.y, Sub(1, k), z2);
    NumYSame(p);
  }

  lemma {:induction false} KappaSame(p: Point)
    requires OnCurve(p)
    ensures Sub(Mul(p.y, p.y), Mul(p.x, p.x)) == Add(1, Kappa(p, p))
  {
  }

  lemma {:induction false} NumYSame(p: Point)
    ensures NumY(p, p) == Add(Mul(p.y, p.y), Mul(p.x, p.x))
  {
  }

  lemma {:induction false} TwoMinus(k: F)
    ensures Sub(2, Add(1, k)) == Sub(1, k)
  {
    hide Residue;
    ResidueOfSmall(2);
    ResidueSub(2, 1 + (k as int));
  }

  lemma {:induction false} SquareSum(p: Point)
    ensures Sub(Mul(Add(p.x, p.y), Add(p.x, p.y)), NumY(p, p)) == NumX(p, p)
  {
    NumsAsIntegers(p, p);
    hide Residue, NumX, NumY, Mul;
    var x: int, y: int := p.x, p.y;
    ResidueMul(x + y, x + y);
    assert Mul(Add(p.x, p.y), Add(p.x, p.y)) == Residue((x + y) * (x + y));
    hide Add, Sub;
    ResidueSub((x + y) * (x + y), y * y + x * x);
    assert (x + y) * (x + y) - (y * y + x * x) == x * y + y * x;
  }
}
