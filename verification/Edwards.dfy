/** The twisted Edwards curve -x^2 + y^2 = 1 + d x^2 y^2 over the integers modulo p. */
module Edwards {
  import opened Fp
  import opened AbelianGroup

  const D: F := 0x52036cee2b6ffe738cc740797779e89800700a4d4141d8ab75eb4dca135978a3

  const SQRT_MINUS1: F := 0x2b8324804fc1df0b2b4d00993dfbd7a72f431806ad2fe478c4ee1b274a0ea0b0

  /** d = -121665/121666, and the constant sqrt(-1) squares to -1. */
  lemma {:induction false} Constants()
    ensures Add(Mul(D, 121666), 121665) == 0
    ensures Mul(SQRT_MINUS1, SQRT_MINUS1) == P - 1
  {
    hide Residue, Mul;
    MulIsProduct(D, 121666);
    ResidueIsMod((D as int) * 121666);
    ResidueIsMod((Mul(D, 121666) as int) + 121665);
    MulIsProduct(SQRT_MINUS1, SQRT_MINUS1);
    ResidueIsMod((SQRT_MINUS1 as int) * SQRT_MINUS1);
  }

  datatype Point = Point(x: F, y: F)

  /** x * y, the product that every formula below is made of. */
  ghost function XY(p: Point): F {
    Mul(p.x, p.y)
  }

  ghost predicate OnCurve(p: Point) {
    Sub(Mul(p.y, p.y), Mul(p.x, p.x)) == Add(1, Mul(D, Mul(XY(p), XY(p))))
  }

  /** d * x1 x2 y1 y2. */
  ghost function Kappa(p: Point, q: Point): F {
    Mul(D, Mul(XY(p), XY(q)))
  }

  ghost function NumX(p: Point, q: Point): F {
    Add(Mul(p.x, q.y), Mul(p.y, q.x))
  }

  ghost function NumY(p: Point, q: Point): F {
    Add(Mul(p.y, q.y), Mul(p.x, q.x))
  }

  ghost function Inv(a: F): F {
    Pow(a, P - 2)
  }

  /** The addition law (section 5.1.4 of RFC 8032, in affine form). */
  ghost function Plus(p: Point, q: Point): Point {
    Point(Mul(NumX(p, q), Inv(Add(1, Kappa(p, q)))), Mul(NumY(p, q), Inv(Sub(1, Kappa(p, q)))))
  }

  ghost function Minus(p: Point): Point {
    Point(Neg(p.x), p.y)
  }

  const NEUTRAL := Point(0, 1)

  /** The curve as a group in the sense of AbelianGroup. */
  ghost const CURVE: Group<Point> := Group(OnCurve, NEUTRAL, Plus, Minus)

  // ----- facts about p and d that are assumed where they are used -----

  /** Fermat's little theorem for p, which is what primality is used for. */
  ghost predicate Fermat() {
    forall a: F :: FermatAt(a)
  }

  ghost predicate FermatAt(a: F) {
    a != 0 ==> Mul(a, Inv(a)) == 1
  }

  /** d is not a square: no nonzero b has d b^2 a square. */
  ghost predicate NonSquareD() {
    forall a: F, b: F :: NoRatio(a, b)
  }

  ghost predicate NoRatio(a: F, b: F) {
    Mul(a, a) == Mul(D, Mul(b, b)) ==> b == 0
  }

  /** The addition law is associative on the curve. */
  ghost predicate PlusAssociates() {
    Associative(CURVE)
  }

  ghost predicate CurveFacts() {
    Fermat() && NonSquareD() && PlusAssociates()
  }

  // ----- integers standing for field elements -----

  lemma {:induction false} SameMul(a: int, b: int, c: int, d: int)
    requires Residue(a) == Residue(b) && Residue(c) == Residue(d)
    ensures Residue(a * c) == Residue(b * d)
  {
    ResidueMul(a, c);
    ResidueMul(b, d);
  }

  lemma {:induction false} SameAdd(a: int, b: int, c: int, d: int)
    requires Residue(a) == Residue(b) && Residue(c) == Residue(d)
    ensures Residue(a + c) == Residue(b + d)
  {
    ResidueAdd(a, c);
    ResidueAdd(b, d);
  }

  /** The curve equation on integers. */
  ghost predicate OnCurveInt(x: int, y: int) {
    Residue(y * y - x * x) == Residue(1 + D * ((x * y) * (x * y)))
  }

  lemma {:induction false} OnCurveAsIntegers(p: Point)
    ensures OnCurve(p) <==> OnCurveInt(p.x, p.y)
  {
    hide Residue, Mul, Add, Sub;
    var x: int, y: int := p.x, p.y;
    var w := x * y;
    ResidueOfSmall(p.x); ResidueOfSmall(p.y); ResidueOfSmall(D); ResidueOfSmall(1);
    var yy, xx, ww := y * y, x * x, w * w;
    ResidueMul(y, y);
    ResidueMul(x, x);
    ResidueSub(yy, xx);
    ResidueMul(x, y);
    ResidueMul(w, w);
    ResidueMul(D, ww);
    ResidueAdd(1, D * ww);
  }

  /** The identities behind closure, over the integers. */
  lemma {:induction false} SumOfSquares(x1: int, y1: int, x2: int, y2: int)
    ensures var n1, n2 := x1 * y2 + y1 * x2, y1 * y2 + x1 * x2;
      n2 * n2 - n1 * n1 == (y1 * y1 - x1 * x1) * (y2 * y2 - x2 * x2)
  {
  }

  lemma {:induction false} SumOfSquares2(x1: int, y1: int, x2: int, y2: int)
    ensures var n1, n2 := x1 * y2 + y1 * x2, y1 * y2 + x1 * x2;
      n2 * n2 + n1 * n1 == (x1 * x1 + y1 * y1) * (x2 * x2 + y2 * y2) + 4 * ((x1 * y1) * (x2 * y2))
  {
  }

  lemma {:induction false} ProductOfNums(x1: int, y1: int, x2: int, y2: int)
    ensures var n1, n2 := x1 * y2 + y1 * x2, y1 * y2 + x1 * x2;
      n1 * n2 == (x1 * y1) * (x2 * x2 + y2 * y2) + (x2 * y2) * (x1 * x1 + y1 * y1)
  {
  }

  lemma {:induction false} SquareOfSum(x: int, y: int)
    ensures (x * x + y * y) * (x * x + y * y) == (y * y - x * x) * (y * y - x * x) + 4 * ((x * y) * (x * y))
  {
  }

  lemma {:induction false} SplitDifference(n1: int, n2: int, k: int)
    ensures (n2 * (1 + k)) * (n2 * (1 + k)) - (n1 * (1 - k)) * (n1 * (1 - k))
         == (1 + k * k) * (n2 * n2 - n1 * n1) + 2 * k * (n2 * n2 + n1 * n1)
  {
  }

  lemma {:induction false} KappaSquared(d: int, w1: int, w2: int)
    ensures var a, b, k := d * (w1 * w1), d * (w2 * w2), d * (w1 * w2);
      k * k == a * b && k * (w1 * w2) == a * (w2 * w2) == b * (w1 * w1)
  {
    var a, b, k := d * (w1 * w1), d * (w2 * w2), d * (w1 * w2);
    assert k * (w1 * w2) == a * (w2 * w2);
    assert k * k == d * (k * (w1 * w2)) == d * (a * (w2 * w2)) == a * b;
  }

  /** Both sides of the curve equation of a sum, once the summands satisfy it. */
  lemma {:induction false} SidesAgree(a: int, b: int, k: int, e: int, s: int)
    requires k * k == a * b
    ensures (1 + k * k) * ((1 + a) * (1 + b)) + 2 * k * s + 8 * e
         == ((1 + k) * (1 - k)) * ((1 + k) * (1 - k))
            + (a * ((1 + b) * (1 + b)) + 4 * e) + (b * ((1 + a) * (1 + a)) + 4 * e) + 2 * k * s
  {
    var u := a * b;
    assert (1 + a) * (1 + b) == 1 + a + b + u;
    assert (1 + u) * (1 + a + b + u) == 1 + a + b + 2 * u + u * a + u * b + u * u;
    assert ((1 + k) * (1 - k)) == 1 - u;
    assert (1 - u) * (1 - u) == 1 - 2 * u + u * u;
    assert a * ((1 + b) * (1 + b)) == a + 2 * u + u * b by {
      assert (1 + b) * (1 + b) == 1 + 2 * b + b * b;
      assert a * (b * b) == u * b;
    }
    assert b * ((1 + a) * (1 + a)) == b + 2 * u + u * a by {
      assert (1 + a) * (1 + a) == 1 + 2 * a + a * a;
      assert b * (a * a) == u * a;
    }
  }

  /** Squares of sums and differences of coordinates, reduced by the curve equation. */
  lemma {:induction false} ReducedSquare(x: int, y: int)
    ensures var w, s, c := x * y, x * x + y * y, 1 + D * ((x * y) * (x * y));
      OnCurveInt(x, y) ==> Residue(s * s) == Residue(c * c + 4 * (w * w))
  {
    SquareOfSum(x, y);
    hide Residue;
    var q, c := y * y - x * x, 1 + D * ((x * y) * (x * y));
    if OnCurveInt(x, y) {
      SameMul(q, c, q, c);
      SameAdd(q * q, c * c, 4 * ((x * y) * (x * y)), 4 * ((x * y) * (x * y)));
    }
  }

  /** If n1, n2 and k belong to two points of the curve, then
      (n1 / (1 + k), n2 / (1 - k)) satisfies the curve equation with the denominators cleared. */
  lemma {:induction false} ClosureInt(p: Point, q: Point)
    requires OnCurve(p) && OnCurve(q)
    ensures var x1: int, y1: int, x2: int, y2: int := p.x, p.y, q.x, q.y;
      var n1, n2, k := x1 * y2 + y1 * x2, y1 * y2 + x1 * x2, D * ((x1 * y1) * (x2 * y2));
      Residue((n2 * (1 + k)) * (n2 * (1 + k)) - (n1 * (1 - k)) * (n1 * (1 - k)))
      == Residue(((1 + k) * (1 - k)) * ((1 + k) * (1 - k)) + D * ((n1 * n2) * (n1 * n2)))
  {
    hide Residue, Spread, Straight, OnCurve;
    OnCurveAsIntegers(p);
    OnCurveAsIntegers(q);
    var x1: int, y1: int, x2: int, y2: int := p.x, p.y, q.x, q.y;
    var w1, w2, d: int := x1 * y1, x2 * y2, D;
    var n1, n2, k := x1 * y2 + y1 * x2, y1 * y2 + x1 * x2, d * (w1 * w2);
    var s1, s2 := x1 * x1 + y1 * y1, x2 * x2 + y2 * y2;
    var q1, q2 := y1 * y1 - x1 * x1, y2 * y2 - x2 * x2;
    var a, b := d * (w1 * w1), d * (w2 * w2);
    SumOfSquares(x1, y1, x2, y2);
    SumOfSquares2(x1, y1, x2, y2);
    ProductOfNums(x1, y1, x2, y2);
    ReducedSquare(x1, y1);
    ReducedSquare(x2, y2);
    ClosureLeft(n1, n2, k, q1, q2, 1 + a, 1 + b, s1 * s2 + 4 * (w1 * w2));
    ClosureRight(d, w1, w2, s1, s2, 1 + a, 1 + b, n1 * n2);
    BothSides(d, w1, w2, s1 * s2, a, b, k);
    var m := ((1 + k) * (1 - k)) * ((1 + k) * (1 - k));
    SameAdd(m, m, d * ((n1 * n2) * (n1 * n2)), Spread(d, w1, w2, 1 + a, 1 + b, s1 * s2));
  }

  /** (1 + k^2) c1 c2 + 2 k m, the left side once reduced by the curve equations. */
  ghost function Straight(c1: int, c2: int, k: int, m: int): int {
    (1 + k * k) * (c1 * c2) + 2 * k * m
  }

  /** d (n1 n2)^2, reduced by the curve equations. */
  ghost function Spread(d: int, w1: int, w2: int, c1: int, c2: int, s: int): int {
    d * ((w1 * w1) * (c2 * c2 + 4 * (w2 * w2)) + (w2 * w2) * (c1 * c1 + 4 * (w1 * w1)) + 2 * (w1 * w2) * s)
  }

  lemma {:induction false} BothSides(d: int, w1: int, w2: int, s: int, a: int, b: int, k: int)
    requires a == d * (w1 * w1) && b == d * (w2 * w2) && k == d * (w1 * w2)
    ensures Straight(1 + a, 1 + b, k, s + 4 * (w1 * w2))
      == ((1 + k) * (1 - k)) * ((1 + k) * (1 - k)) + Spread(d, w1, w2, 1 + a, 1 + b, s)
  {
    KappaSquared(d, w1, w2);
    var e := a * (w2 * w2);
    SidesAgree(a, b, k, e, s);
    SpreadRight(d, w1, w2, 1 + a, 1 + b, s, a, b, k, e);
    DoubleSpread(k, s, w1 * w2, e);
  }

  lemma {:induction false} DoubleSpread(k: int, s: int, w: int, e: int)
    requires k * w == e
    ensures 2 * k * (s + 4 * w) == 2 * k * s + 8 * e
  {
    assert k * (s + 4 * w) == k * s + 4 * (k * w);
  }

  lemma {:induction false} ClosureLeft(n1: int, n2: int, k: int, q1: int, q2: int, c1: int, c2: int, m: int)
    requires n2 * n2 - n1 * n1 == q1 * q2 && n2 * n2 + n1 * n1 == m
    requires Residue(q1) == Residue(c1) && Residue(q2) == Residue(c2)
    ensures Residue((n2 * (1 + k)) * (n2 * (1 + k)) - (n1 * (1 - k)) * (n1 * (1 - k)))
      == Residue(Straight(c1, c2, k, m))
  {
    hide Residue;
    SplitDifference(n1, n2, k);
    SameMul(q1, c1, q2, c2);
    SameMul(1 + k * k, 1 + k * k, q1 * q2, c1 * c2);
    SameAdd((1 + k * k) * (q1 * q2), (1 + k * k) * (c1 * c2), 2 * k * m, 2 * k * m);
  }

  lemma {:induction false} ClosureRight(d: int, w1: int, w2: int, s1: int, s2: int, c1: int, c2: int, n: int)
    requires n == w1 * s2 + w2 * s1
    requires Residue(s1 * s1) == Residue(c1 * c1 + 4 * (w1 * w1))
      && Residue(s2 * s2) == Residue(c2 * c2 + 4 * (w2 * w2))
    ensures Residue(d * (n * n)) == Residue(Spread(d, w1, w2, c1, c2, s1 * s2))
  {
    hide Residue;
    assert n * n == (w1 * w1) * (s2 * s2) + (w2 * w2) * (s1 * s1) + 2 * (w1 * w2) * (s1 * s2);
    var t1, t2 := c1 * c1 + 4 * (w1 * w1), c2 * c2 + 4 * (w2 * w2);
    SameMul(w1 * w1, w1 * w1, s2 * s2, t2);
    SameMul(w2 * w2, w2 * w2, s1 * s1, t1);
    SameAdd((w1 * w1) * (s2 * s2), (w1 * w1) * t2, (w2 * w2) * (s1 * s1), (w2 * w2) * t1);
    SameAdd((w1 * w1) * (s2 * s2) + (w2 * w2) * (s1 * s1), (w1 * w1) * t2 + (w2 * w2) * t1, 2 * (w1 * w2) * (s1 * s2),
      2 * (w1 * w2) * (s1 * s2));
    SameMul(d, d, n * n, (w1 * w1) * t2 + (w2 * w2) * t1 + 2 * (w1 * w2) * (s1 * s2));
  }

  lemma {:induction false} SpreadRight(d: int, w1: int, w2: int, c1: int, c2: int, s: int, a: int, b: int, k: int,
      e: int)
    requires a == d * (w1 * w1) && b == d * (w2 * w2) && k == d * (w1 * w2)
    requires e == a * (w2 * w2) == b * (w1 * w1)
    ensures Spread(d, w1, w2, c1, c2, s)
      == (a * (c2 * c2) + 4 * e) + (b * (c1 * c1) + 4 * e) + 2 * k * s
  {
    assert d * ((w1 * w1) * (c2 * c2 + 4 * (w2 * w2))) == a * (c2 * c2 + 4 * (w2 * w2)) == a * (c2 * c2) + 4 * e;
    assert d * ((w2 * w2) * (c1 * c1 + 4 * (w1 * w1))) == b * (c1 * c1 + 4 * (w1 * w1)) == b * (c1 * c1) + 4 * e;
    assert d * (2 * (w1 * w2) * s) == 2 * k * s;
  }

  // ----- consequences of the assumed facts -----

  lemma {:induction false} NoZeroDivisors(a: F, b: F)
    requires Fermat() && a != 0 && Mul(a, b) == 0
    ensures b == 0
  {
    hide Residue, Pow;
    assert FermatAt(a);
    MulAssociates(Inv(a), a, b);
    MulCommutes(Inv(a), a);
    MulOne(b);
    assert Mul(Inv(a), 0) == 0 by { ZeroProduct(Inv(a)); }
    hide Mul;
  }

  lemma {:induction false} ZeroProduct(a: F)
    ensures Mul(a, 0) == 0 && Mul(0, a) == 0
  {
    hide Mul, Residue;
    MulIsProduct(a, 0);
    MulIsProduct(0, a);
    ResidueOfSmall(0);
  }

  lemma {:induction false} CancelFactor(a: F, b: F, c: F)
    requires Fermat() && a != 0 && Mul(a, b) == Mul(a, c)
    ensures b == c
  {
    hide Residue, Mul, Pow;
    assert FermatAt(a);
    MulAssociates(Inv(a), a, b);
    MulAssociates(Inv(a), a, c);
    MulCommutes(Inv(a), a);
    MulOne(b);
    MulOne(c);
  }

  lemma {:induction false} NonZeroProduct(a: F, b: F)
    requires Fermat() && a != 0 && b != 0
    ensures Mul(a, b) != 0
  {
    if Mul(a, b) == 0 {
      NoZeroDivisors(a, b);
    }
  }

  /** The square (j x1 + e y1)^2 is d w1^2 (j x2 + y2)^2 but for a multiple of e^2 - 1, where
      e = d x1 x2 y1 y2 and j^2 = -1. */
  lemma {:induction false} HiddenSquare(p: Point, q: Point, j: F)
    requires OnCurve(p) && OnCurve(q) && Mul(j, j) == Neg(1)
    ensures var x1: int, y1: int, x2: int, y2: int := p.x, p.y, q.x, q.y;
      var e, b := D * ((x1 * y1) * (x2 * y2)), (x1 * y1) * (j * x2 + y2);
      Residue((j * x1 + e * y1) * (j * x1 + e * y1)) == Residue(D * (b * b) + (e * e - 1) * (y1 * y1 - 1))
  {
    hide Residue, Mul, Neg, OnCurve;
    OnCurveAsIntegers(p);
    OnCurveAsIntegers(q);
    RootAsInteger(j);
    var x1: int, y1: int, x2: int, y2: int := p.x, p.y, q.x, q.y;
    var d: int, w1, w2 := D, x1 * y1, x2 * y2;
    var e := d * (w1 * w2);
    var q1, q2, t := y1 * y1 - x1 * x1, y2 * y2 - x2 * x2, 2 * (j * (e * w1));
    var m, c2, rest := d * (w1 * w1), 1 + d * (w2 * w2), (e * e - 1) * (y1 * y1 - 1);
    // the left side is 1 + m - y1^2 + e^2 y1^2 + t
    SquareOfCombination(j, x1, e, y1, w1);
    SameMul(j * j, -1, x1 * x1, x1 * x1);
    SameAdd(q1, 1 + m, -(y1 * y1), -(y1 * y1));
    assert q1 - y1 * y1 == -1 * (x1 * x1);
    SameAdd((j * j) * (x1 * x1), 1 + m - y1 * y1, (e * e) * (y1 * y1) + t, (e * e) * (y1 * y1) + t);
    // the right side is m + e^2 + t + (e^2 - 1)(y1^2 - 1)
    var b := w1 * (j * x2 + y2);
    HiddenRight(d, w1, w2, x2, y2, j, e, m, b, t);
    SameMul(j * j, -1, x2 * x2, x2 * x2);
    SameAdd((j * j) * (x2 * x2), -1 * (x2 * x2), y2 * y2, y2 * y2);
    assert -1 * (x2 * x2) + y2 * y2 == q2;
    SameMul(m, m, (j * j) * (x2 * x2) + y2 * y2, c2);
    SameAdd(m * ((j * j) * (x2 * x2) + y2 * y2), m * c2, t + rest, t + rest);
    KappaSquared(d, w1, w2);
    OneMore(m, d * (w2 * w2), e * e);
    SidesMeet(m, e * e, y1 * y1, t);
  }

  lemma {:induction false} SidesMeet(m: int, ee: int, yy: int, t: int)
    ensures m + ee + (t + (ee - 1) * (yy - 1)) == 1 + m - yy + (ee * yy + t)
  {
  }

  lemma {:induction false} OneMore(m: int, b: int, c: int)
    requires m * b == c
    ensures m * (1 + b) == m + c
  {
  }

  lemma {:induction false} SquareOfCombination(j: int, x: int, e: int, y: int, w: int)
    requires w == x * y
    ensures (j * x + e * y) * (j * x + e * y) == ((j * j) * (x * x) + (e * e) * (y * y)) + 2 * (j * (e * w))
  {
    var a, b := j * x, e * y;
    assert a * a == (j * j) * (x * x);
    assert b * b == (e * e) * (y * y);
    assert a * b == j * (e * w);
  }

  lemma {:induction false} SquareOfLine(j: int, x: int, y: int)
    ensures (j * x + y) * (j * x + y) == ((j * j) * (x * x) + y * y) + 2 * (j * (x * y))
  {
    var a := j * x;
    assert a * a == (j * j) * (x * x);
    assert a * y == j * (x * y);
  }

  lemma {:induction false} RegroupSquare(d: int, w: int, u: int)
    ensures d * ((w * u) * (w * u)) == (d * (w * w)) * (u * u)
  {
    assert (w * u) * (w * u) == (w * w) * (u * u);
  }

  lemma {:induction false} RegroupCross(d: int, w1: int, w2: int, j: int)
    ensures (d * (w1 * w1)) * (2 * (j * w2)) == 2 * (j * ((d * (w1 * w2)) * w1))
  {
    assert (d * (w1 * w1)) * w2 == (d * (w1 * w2)) * w1;
    var s := (d * (w1 * w1)) * w2;
    assert (d * (w1 * w1)) * (j * w2) == j * s;
  }

  lemma {:induction false} HiddenRight(d: int, w1: int, w2: int, x2: int, y2: int, j: int, e: int, m: int, b: int,
      t: int)
    requires w2 == x2 * y2 && e == d * (w1 * w2) && m == d * (w1 * w1) && b == w1 * (j * x2 + y2)
      && t == 2 * (j * (e * w1))
    ensures d * (b * b) == m * ((j * j) * (x2 * x2) + y2 * y2) + t
  {
    var u := j * x2 + y2;
    SquareOfLine(j, x2, y2);
    RegroupSquare(d, w1, u);
    RegroupCross(d, w1, w2, j);
  }

  /** With kappa = +-1 the square above forces x1 y1 (j x2 + y2) to vanish. */
  lemma {:induction false} Vanishes(p: Point, q: Point, j: F)
    requires NonSquareD() && OnCurve(p) && OnCurve(q) && Mul(j, j) == Neg(1)
    ensures Mul(Kappa(p, q), Kappa(p, q)) == 1 ==> Mul(XY(p), Add(Mul(j, q.x), q.y)) == 0
  {
    hide Residue, Mul, OnCurve, NonSquareD, Kappa, Add, Neg;
    var x1: int, y1: int, x2: int, y2: int := p.x, p.y, q.x, q.y;
    KappaSquareAsInteger(p, q);
    LineProduct(p, q, j);
    HiddenSquare(p, q, j);
    if Mul(Kappa(p, q), Kappa(p, q)) == 1 {
      var e := D * ((x1 * y1) * (x2 * y2));
      NoSquare(j * x1 + e * y1, (x1 * y1) * (j * x2 + y2), e, y1 * y1 - 1);
    }
  }

  lemma {:induction false} RootAsInteger(j: F)
    requires Mul(j, j) == Neg(1)
    ensures Residue((j as int) * j) == Residue(-1)
  {
    hide Residue, Mul;
    MulIsProduct(j, j);
  }

  lemma {:induction false} KappaSquareAsInteger(p: Point, q: Point)
    ensures var e := D * (((p.x as int) * p.y) * ((q.x as int) * q.y)); Mul(Kappa(p, q), Kappa(p, q)) == Residue(e * e)
  {
    hide Residue, Mul, Kappa;
    KappaAsInteger(p, q);
    var e := D * (((p.x as int) * p.y) * ((q.x as int) * q.y));
    ResidueMul(e, e);
  }

  lemma {:induction false} LineProduct(p: Point, q: Point, j: F)
    ensures Mul(XY(p), Add(Mul(j, q.x), q.y)) == Residue(((p.x as int) * p.y) * ((j as int) * q.x + q.y))
  {
    hide Residue, Mul, Add;
    ResidueOfSmall(j);
    LineAsInteger(j, j, q);
    MulIsProduct(p.x, p.y);
    var w, l := (p.x as int) * p.y, (j as int) * q.x + q.y;
    ResidueMul(w, l);
  }

  /** a^2 = d b^2 + (e^2 - 1) r with e^2 = 1 leaves b no choice but zero. */
  lemma {:induction false} NoSquare(a: int, b: int, e: int, r: int)
    requires NonSquareD() && Residue(e * e) == 1 && Residue(a * a) == Residue(D * (b * b) + (e * e - 1) * r)
    ensures Residue(b) == 0
  {
    hide Residue, Mul, NonSquareD;
    ResidueOfSmall(D);
    ResidueOfSmall(1);
    SameAdd(e * e, 1, -1, -1);
    SameMul(e * e - 1, 0, r, r);
    SameAdd(D * (b * b), D * (b * b), (e * e - 1) * r, 0 * r);
    ResidueMul(a, a);
    ResidueMul(b, b);
    ResidueMul(D, b * b);
    SquareIsZero(Residue(a), Residue(b));
  }

  lemma {:induction false} SquareIsZero(a: F, b: F)
    requires NonSquareD() && Mul(a, a) == Mul(D, Mul(b, b))
    ensures b == 0
  {
    hide Mul;
    assert NoRatio(a, b);
  }

  lemma {:induction false} LineAsInteger(j: F, k: int, q: Point)
    requires j == Residue(k)
    ensures Add(Mul(j, q.x), q.y) == Residue(k * q.x + q.y)
  {
    hide Residue, Mul;
    ResidueOfSmall(q.x); ResidueOfSmall(q.y);
    ResidueMul(k, q.x);
    ResidueAdd(k * q.x, q.y);
  }

  /** No sum or difference of 1 with d x1 x2 y1 y2 vanishes on the curve. */
  lemma {:induction false} Completeness(p: Point, q: Point)
    requires Fermat() && NonSquareD() && OnCurve(p) && OnCurve(q)
    ensures Add(1, Kappa(p, q)) != 0 && Sub(1, Kappa(p, q)) != 0
  {
    hide Residue, Mul, Add, Sub, OnCurve, Fermat, NonSquareD, Neg;
    if Add(1, Kappa(p, q)) == 0 || Sub(1, Kappa(p, q)) == 0 {
      var k := Kappa(p, q);
      UnitSquare(k);
      KappaAsInteger(p, q);
      var x1: int, y1: int, x2: int, y2: int := p.x, p.y, q.x, q.y;
      var e := D * ((x1 * y1) * (x2 * y2));
      ResidueOfSmall(k);
      ResidueOfSmall(1);
      ResidueMul(k, k);
      SameMul(e, k, e, k);
      var i: int := SQRT_MINUS1;
      RootOfMinus1();
      Vanishes(p, q, SQRT_MINUS1);
      Vanishes(p, q, Residue(-i));
      ResidueOfSmall(SQRT_MINUS1);
      LineAsInteger(SQRT_MINUS1, i, q);
      LineAsInteger(Residue(-i), -i, q);
      ResidueOfSmall(p.x); ResidueOfSmall(p.y);
      ResidueMul(x1, y1);
      NotBothZero(x1 * y1, x2, y2, i, e);
      assert false;
    }
  }

  lemma {:induction false} RootOfMinus1()
    ensures Mul(SQRT_MINUS1, SQRT_MINUS1) == Neg(1)
    ensures Mul(Residue(-(SQRT_MINUS1 as int)), Residue(-(SQRT_MINUS1 as int))) == Neg(1)
  {
    hide Residue, Mul;
    var i: int := SQRT_MINUS1;
    Constants();
    ResidueIsMod(-1);
    MulIsProduct(SQRT_MINUS1, SQRT_MINUS1);
    ResidueMul(-i, -i);
    assert (-i) * (-i) == i * i;
  }

  lemma {:induction false} UnitSquare(k: F)
    requires Add(1, k) == 0 || Sub(1, k) == 0
    ensures Residue((k as int) * k) == Residue(1)
  {
    hide Residue;
    ResidueIsMod(1 + (k as int));
    ResidueIsMod(1 - (k as int));
    assert k == 1 || k == P - 1;
    if k != 1 {
      ResidueUnique((k as int) * k, 1, P - 2);
    }
  }

  lemma {:induction false} KappaAsInteger(p: Point, q: Point)
    ensures Kappa(p, q) == Residue(D * (((p.x as int) * p.y) * ((q.x as int) * q.y)))
  {
    ResidueOfSmall(p.x); ResidueOfSmall(p.y); ResidueOfSmall(q.x); ResidueOfSmall(q.y); ResidueOfSmall(D);
    hide Residue, Mul;
    var w1, w2 := (p.x as int) * p.y, (q.x as int) * q.y;
    ResidueMul(p.x, p.y);
    ResidueMul(q.x, q.y);
    ResidueMul(w1, w2);
    ResidueMul(D, w1 * w2);
  }

  lemma {:induction false} NotBothZero(w1: int, x2: int, y2: int, i: int, e: int)
    requires Fermat() && e == D * (w1 * (x2 * y2)) && Residue(e * e) == Residue(1)
    ensures Mul(Residue(w1), Residue(i * x2 + y2)) != 0 || Mul(Residue(w1), Residue(-i * x2 + y2)) != 0
  {
    hide Residue, Mul, Fermat;
    if Mul(Residue(w1), Residue(i * x2 + y2)) == 0 && Mul(Residue(w1), Residue(-i * x2 + y2)) == 0 {
      if Residue(w1) == 0 {
        ZeroCase(w1, x2 * y2, e);
        assert false;
      }
      NoZeroDivisors(Residue(w1), Residue(i * x2 + y2));
      NoZeroDivisors(Residue(w1), Residue(-i * x2 + y2));
      ResidueOfSmall(0);
      ResidueOfSmall(2);
      SameAdd(i * x2 + y2, 0, -i * x2 + y2, 0);
      assert (i * x2 + y2) + (-i * x2 + y2) == 2 * y2;
      ResidueMul(2, y2);
      NoZeroDivisors(2, Residue(y2));
      ZeroCase(y2, w1 * x2, e);
      assert false;
    }
  }

  lemma {:induction false} ZeroCase(w: int, v: int, e: int)
    requires e == D * (w * v) && Residue(e * e) == Residue(1)
    ensures Residue(w) != 0
  {
    if Residue(w) == 0 {
      assert Residue(0) == 0 && Residue(1) == 1;
      hide Residue;
      SameMul(w, 0, v, v);
      SameMul(w * v, 0 * v, D, D);
      SameMul(e, 0, e, 0);
      assert false;
    }
  }

  // ----- the addition law -----

  /** What determines a sum: its coordinates times the denominators. */
  lemma {:induction false} PlusEquations(p: Point, q: Point)
    requires Fermat() && NonSquareD() && OnCurve(p) && OnCurve(q)
    ensures Mul(Plus(p, q).x, Add(1, Kappa(p, q))) == NumX(p, q)
    ensures Mul(Plus(p, q).y, Sub(1, Kappa(p, q))) == NumY(p, q)
  {
    Completeness(p, q);
    hide Residue, Mul, Add, Sub, Kappa, NumX, NumY, Inv;
    Quotient(NumX(p, q), Add(1, Kappa(p, q)));
    Quotient(NumY(p, q), Sub(1, Kappa(p, q)));
  }

  lemma {:induction false} Quotient(n: F, d: F)
    requires Fermat() && d != 0
    ensures Mul(Mul(n, Inv(d)), d) == n
  {
    hide Residue, Mul, Pow;
    assert FermatAt(d);
    MulAssociates(n, Inv(d), d);
    MulCommutes(Inv(d), d);
    MulOne(n);
  }

  lemma {:induction false} NumsAsIntegers(p: Point, q: Point)
    ensures NumX(p, q) == Residue((p.x as int) * q.y + (p.y as int) * q.x)
    ensures NumY(p, q) == Residue((p.y as int) * q.y + (p.x as int) * q.x)
    ensures Add(1, Kappa(p, q)) == Residue(1 + D * (((p.x as int) * p.y) * ((q.x as int) * q.y)))
    ensures Sub(1, Kappa(p, q)) == Residue(1 - D * (((p.x as int) * p.y) * ((q.x as int) * q.y)))
  {
    KappaAsInteger(p, q);
    ResidueOfSmall(p.x); ResidueOfSmall(p.y); ResidueOfSmall(q.x); ResidueOfSmall(q.y); ResidueOfSmall(1);
    hide Residue, Mul, Add, Sub;
    ResidueMul(p.x, q.y); ResidueMul(p.y, q.x); ResidueMul(p.y, q.y); ResidueMul(p.x, q.x);
    ResidueAdd((p.x as int) * q.y, (p.y as int) * q.x);
    ResidueAdd((p.y as int) * q.y, (p.x as int) * q.x);
    ResidueAdd(1, D * (((p.x as int) * p.y) * ((q.x as int) * q.y)));
    ResidueSub(1, D * (((p.x as int) * p.y) * ((q.x as int) * q.y)));
  }

  /** The sum of two points of the curve is on the curve. */
  lemma {:induction false} PlusOnCurve(p: Point, q: Point)
    requires Fermat() && NonSquareD() && OnCurve(p) && OnCurve(q)
    ensures OnCurve(Plus(p, q))
  {
    hide Residue, Mul, Add, Sub, Kappa, NumX, NumY, Plus, OnCurve, OnCurveInt, Fermat, NonSquareD, Cleared;
    PlusEquations(p, q);
    NumsAsIntegers(p, q);
    Completeness(p, q);
    ClosureInt(p, q);
    var r := Plus(p, q);
    OnCurveAsIntegers(r);
    var n1, n2 := (p.x as int) * q.y + (p.y as int) * q.x, (p.y as int) * q.y + (p.x as int) * q.x;
    var k := D * (((p.x as int) * p.y) * ((q.x as int) * q.y));
    ClearedAsIntegers(n1, n2, 1 + k, 1 - k);
    ClearDenominators(r.x, r.y, NumX(p, q), NumY(p, q), Add(1, Kappa(p, q)), Sub(1, Kappa(p, q)));
  }

  /** (x, y) = (n1/d1, n2/d2) satisfies the curve equation if the cleared equation holds. */
  lemma {:induction false} ClearDenominators(x: F, y: F, n1: F, n2: F, d1: F, d2: F)
    requires Fermat() && d1 != 0 && d2 != 0 && Mul(x, d1) == n1 && Mul(y, d2) == n2 && Cleared(n1, n2, d1, d2)
    ensures OnCurveInt(x, y)
  {
    ResidueOfSmall(x); ResidueOfSmall(y); ResidueOfSmall(n1); ResidueOfSmall(n2); ResidueOfSmall(d1);
      ResidueOfSmall(d2);
    hide Residue, Mul, Cleared, Fermat;
    ClearedAsIntegers(n1, n2, d1, d2);
    var e: int := (d1 as int) * d2;
    ResidueMul(x, d1);
    ResidueMul(y, d2);
    var a: int, b: int := x, y;
    // n1 = x d1, n2 = y d2
    SameMul(a * d1, n1, d2, d2);
    SameMul(b * d2, n2, d1, d1);
    SameMul(a * d1, n1, b * d2, n2);
    assert (a * d1) * d2 == a * e && (b * d2) * d1 == b * e && (a * d1) * (b * d2) == (a * b) * e by {
      Regroup(a, b, d1, d2);
    }
    SameMul(n2 * d1, b * e, n2 * d1, b * e);
    SameMul(n1 * d2, a * e, n1 * d2, a * e);
    SameMul(n1 * n2, (a * b) * e, n1 * n2, (a * b) * e);
    SameMul(D, D, (n1 * n2) * (n1 * n2), ((a * b) * e) * ((a * b) * e));
    SameMul(-1, -1, (n1 * d2) * (n1 * d2), (a * e) * (a * e));
    SameAdd((n2 * d1) * (n2 * d1), (b * e) * (b * e), -1 * ((n1 * d2) * (n1 * d2)), -1 * ((a * e) * (a * e)));
    SameAdd(e * e, e * e, D * ((n1 * n2) * (n1 * n2)), D * (((a * b) * e) * ((a * b) * e)));
    var l, r := b * b - a * a, 1 + D * ((a * b) * (a * b));
    CommonFactor(a, b, e);
    ResidueMul(e * e, l);
    ResidueMul(e * e, r);
    ResidueMul(e, e);
    ResidueMul(d1, d2);
    NonZeroProduct(Residue(d1), Residue(d2));
    NonZeroProduct(Residue(e), Residue(e));
    CancelFactor(Residue(e * e), Residue(l), Residue(r));
  }

  /** The curve equation for (n1/d1, n2/d2), multiplied out. */
  ghost predicate Cleared(n1: F, n2: F, d1: F, d2: F) {
    Sub(Mul(Mul(n2, d1), Mul(n2, d1)), Mul(Mul(n1, d2), Mul(n1, d2)))
    == Add(Mul(Mul(d1, d2), Mul(d1, d2)), Mul(D, Mul(Mul(n1, n2), Mul(n1, n2))))
  }

  lemma {:induction false} ClearedAsIntegers(n1: int, n2: int, d1: int, d2: int)
    ensures Cleared(Residue(n1), Residue(n2), Residue(d1), Residue(d2)) <==>
      Residue((n2 * d1) * (n2 * d1) - (n1 * d2) * (n1 * d2))
        == Residue((d1 * d2) * (d1 * d2) + D * ((n1 * n2) * (n1 * n2)))
  {
    ResidueOfSmall(D);
    hide Residue, Mul, Add, Sub;
    var a, b, c, d := n2 * d1, n1 * d2, d1 * d2, n1 * n2;
    ResidueMul(n2, d1); ResidueMul(n1, d2); ResidueMul(d1, d2); ResidueMul(n1, n2);
    SquareAsInteger(a); SquareAsInteger(b); SquareAsInteger(c); SquareAsInteger(d);
    DifferenceAsInteger(a * a, b * b, c * c, d * d);
  }

  lemma {:induction false} SquareAsInteger(a: int)
    ensures Mul(Residue(a), Residue(a)) == Residue(a * a)
  {
    hide Residue, Mul;
    ResidueMul(a, a);
  }

  lemma {:induction false} DifferenceAsInteger(a: int, b: int, c: int, d: int)
    ensures Sub(Residue(a), Residue(b)) == Residue(a - b)
    ensures Add(Residue(c), Mul(D, Residue(d))) == Residue(c + D * d)
  {
    ResidueOfSmall(D);
    hide Residue, Mul;
    ResidueSub(a, b);
    ResidueMul(D, d);
    ResidueAdd(c, D * d);
  }

  lemma {:induction false} Regroup(a: int, b: int, d1: int, d2: int)
    ensures (a * d1) * d2 == a * (d1 * d2) && (b * d2) * d1 == b * (d1 * d2)
      && (a * d1) * (b * d2) == (a * b) * (d1 * d2)
  {
  }

  lemma {:induction false} CommonFactor(a: int, b: int, e: int)
    ensures (b * e) * (b * e) + -1 * ((a * e) * (a * e)) == (e * e) * (b * b - a * a)
    ensures e * e + D * (((a * b) * e) * ((a * b) * e)) == (e * e) * (1 + D * ((a * b) * (a * b)))
  {
    var w, f := a * b, e * e;
    assert (w * e) * (w * e) == f * (w * w);
    assert (b * e) * (b * e) == f * (b * b);
    assert (a * e) * (a * e) == f * (a * a);
    assert f * (1 + D * (w * w)) == f + D * (f * (w * w));
  }

  lemma {:induction false} PlusCommutes(p: Point, q: Point)
    ensures Plus(p, q) == Plus(q, p)
  {
    hide Residue, Mul, Add, Inv;
    MulCommutes(p.x, q.y); MulCommutes(p.y, q.x); MulCommutes(p.y, q.y); MulCommutes(p.x, q.x);
    MulCommutes(XY(p), XY(q));
    AddCommutes(Mul(p.x, q.y), Mul(p.y, q.x));
  }

  lemma {:induction false} AddCommutes(a: F, b: F)
    ensures Add(a, b) == Add(b, a)
  {
  }

  lemma {:induction false} PowOfOne(n: nat)
    ensures Pow(1, n) == 1
  {
    hide Mul;
    if n > 0 {
      PowOfOne(n - 1);
      MulOne(1);
    }
  }

  lemma {:induction false} PlusNeutral(p: Point)
    ensures OnCurve(NEUTRAL) && Plus(p, NEUTRAL) == p
  {
    hide Pow, Mul;
    PowOfOne(P - 2);
    ZeroProduct(p.y); ZeroProduct(p.x); ZeroProduct(XY(p)); ZeroProduct(D);
    MulOne(p.x); MulOne(p.y);
    assert XY(NEUTRAL) == 0 by { ZeroProduct(1); }
    assert Mul(1, 1) == 1 by { MulOne(1); }
    assert Mul(0, 0) == 0 by { ZeroProduct(0); }
  }

  lemma {:induction false} MinusOnCurve(p: Point)
    requires OnCurve(p)
    ensures OnCurve(Minus(p)) && Kappa(p, Minus(p)) == Neg(Mul(D, Mul(XY(p), XY(p))))
    ensures NumX(p, Minus(p)) == 0 && NumY(p, Minus(p)) == Sub(Mul(p.y, p.y), Mul(p.x, p.x))
  {
    var x, y, n, w := p.x, p.y, Neg(p.x), XY(p);
    NegLeft(x, y);
    NegLeft(x, x);
    MulCommutes(n, y);
    MulCommutes(n, x);
    MulCommutes(x, y);
    NegLeft(w, w);
    NegLeft(x, n);
    MulCommutes(w, Neg(w));
    NegNeg(Mul(x, x));
    NegNeg(Mul(w, w));
    NegLeft(w, Neg(w));
    NegLeft(Mul(w, w), D);
    MulCommutes(D, Neg(Mul(w, w)));
    MulCommutes(D, Mul(w, w));
    AddNeg(Mul(x, y), Mul(x, y));
    AddNeg(Mul(y, y), Mul(x, x));
    hide Mul, Neg, Residue;
  }

  lemma {:induction false} NegLeft(a: F, b: F)
    ensures Mul(Neg(a), b) == Neg(Mul(a, b))
  {
    hide Mul, Residue;
    MulIsProduct(a, b);
    ResidueMul(-(a as int), b);
    ResidueOfSmall(b);
    assert -(a as int) * b == -((a as int) * b);
    ResidueNeg((a as int) * b);
  }

  lemma {:induction false} NegNeg(a: F)
    ensures Neg(Neg(a)) == a
  {
    hide Residue;
    ResidueOfSmall(a);
    ResidueNeg(-(a as int));
  }

  lemma {:induction false} AddNeg(a: F, b: F)
    ensures Add(a, Neg(b)) == Sub(a, b) && Sub(a, Neg(b)) == Add(a, b) && Sub(a, a) == 0
  {
    ResidueAdd(a, -(b as int));
    ResidueSub(a, -(b as int));
    ResidueOfSmall(a);
    assert -(-(b as int)) == b;
    ResidueNeg(b);
    ResidueOfSmall(b);
    assert (a as int) - -(b as int) == (a as int) + b;
    assert Sub(a, a) == 0;
    hide Residue;
  }

  lemma {:induction false} PlusMinus(p: Point)
    requires Fermat() && NonSquareD() && OnCurve(p)
    ensures Plus(p, Minus(p)) == NEUTRAL
  {
    MinusOnCurve(p);
    Completeness(p, Minus(p));
    var v := Mul(D, Mul(XY(p), XY(p)));
    AddNeg(1, v);
    hide Mul, Residue, Pow;
    assert Sub(1, Kappa(p, Minus(p))) == Add(1, v) == NumY(p, Minus(p));
    assert FermatAt(Add(1, v));
    ZeroProduct(Inv(Add(1, Kappa(p, Minus(p)))));
  }

  /** The points of the curve form an abelian group. */
  lemma {:induction false} CurveIsAbelian()
    requires CurveFacts()
    ensures Abelian(CURVE)
  {
    hide Plus, OnCurve, Minus, Associative, Fermat, NonSquareD;
    forall a: Point ensures InverseLaw(CURVE, a) {
      if OnCurve(a) {
        MinusOnCurve(a);
        PlusNeutral(a);
        PlusMinus(a);
      }
    }
    forall a: Point, b: Point ensures SumLaw(CURVE, a, b) {
      if OnCurve(a) && OnCurve(b) {
        PlusOnCurve(a, b);
        PlusCommutes(a, b);
      }
    }
    PlusNeutral(NEUTRAL);
  }
}
