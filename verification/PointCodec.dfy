/** The 32-byte encoding of points: packing, and decompression of the negated point. */
module PointCodec {
  import opened Words
  import opened Bytes
  import opened Fp
  import opened Edwards
  import opened Coordinates
  import opened Points
  import Field64
  import FieldCodec
  import AdditionChains

  /** y in 255 bits with the low bit of x on top (section 5.1.2 of RFC 8032). */
  ghost function Encode(p: Point): seq<u8> {
    LeBytes(p.y + 0x8000000000000000000000000000000000000000000000000000000000000000 * (p.x % 2), 32)
  }

  // ----- packing -----

  /** b ^ (bit << 7). */
  function FlipTop(b: u8, bit: u8): u8
    requires bit <= 1
  {
    if bit == 0 then b else if b < 128 then b + 128 else b - 128
  }

  lemma {:induction false} TopBit(y: F, bit: int)
    requires 0 <= bit <= 1
    ensures var s := LeBytes(y, 32);
      s[31] < 128 && s[31 := FlipTop(s[31], bit)]
        == LeBytes(y + 0x8000000000000000000000000000000000000000000000000000000000000000 * bit, 32)
  {
    hide LeBytes, LeValue;
    var s := LeBytes(y, 32);
    assert LeValue(s) == y by { Pow256At32(); LeValueOfLeBytes(y, 32); }
    var lo := s[..31];
    Last(lo, s, s[31]);
    SmallTop(LeValue(lo), s[31], y);
    var t := s[31 := FlipTop(s[31], bit)];
    Last(lo, t, t[31]);
    LeBytesOfLeValue(t);
  }

  lemma {:induction false} SmallTop(lo: nat, top: int, y: F)
    requires y == lo + 0x100000000000000000000000000000000000000000000000000000000000000 * top
    ensures top < 128
  {
  }

  lemma {:induction false} Last(lo: seq<u8>, s: seq<u8>, b: u8)
    requires |lo| == 31 && s == lo + [b]
    ensures LeValue(s) == LeValue(lo) + 0x100000000000000000000000000000000000000000000000000000000000000 * b
  {
    Pow256At31();
    LeValueConcat(lo, [b]);
    OneByte(b);
  }

  lemma {:induction false} OneByte(b: u8)
    ensures LeValue([b]) == b
  {
    assert [b][1..] == [];
  }

  lemma {:induction false} FirstByte(v: nat)
    ensures LeBytes(v, 32)[0] == v % 256
  {
  }

  method Pack(p: Ge, ghost pt: Point) returns (r: seq<u8>)
    requires TightXYZ(p) && Fermat() && PartlyFor(Coord(p), pt)
    ensures r == Encode(pt)
  {
    hide Fp.Mul, Fp.Residue, Fp.Pow, Field64.Elem, LeBytes;
    var zi := AdditionChains.Recip(p.z);
    var tx := Field64.Mul(p.x, zi);
    var ty := Field64.Mul(p.y, zi);
    r := FieldCodec.Contract(ty);
    var parity := FieldCodec.Contract(tx);
    Quotients(Coord(p), pt);
    FirstByte(pt.x);
    TopBit(pt.y, pt.x % 2);
    r := r[31 := FlipTop(r[31], parity[0] % 2)];
  }

  lemma {:induction false} Quotients(e: Ext, p: Point)
    requires Fermat() && PartlyFor(e, p)
    ensures Mul(e.x, Inv(e.z)) == p.x && Mul(e.y, Inv(e.z)) == p.y
  {
    hide Mul, Residue, Pow;
    assert FermatAt(e.z);
    MulAssociates(p.x, e.z, Inv(e.z));
    MulAssociates(p.y, e.z, Inv(e.z));
    MulOne(p.x);
    MulOne(p.y);
  }

  // ----- decompression -----

  /** Numerator and denominator of x^2. */
  ghost function Num(y: F): F {
    Sub(Mul(y, y), 1)
  }

  ghost function Den(y: F): F {
    Add(Mul(Mul(y, y), D), 1)
  }

  /** The candidate root num * den^3 * (num * den^7)^((p-5)/8), in the order it is computed. */
  ghost function Candidate(y: F): F {
    var d3 := Mul(Mul(Den(y), Den(y)), Den(y));
    var u := Mul(Mul(Mul(d3, d3), Den(y)), Num(y));
    Mul(Mul(Pow(u, P_MINUS_5_OVER_8), d3), Num(y))
  }

  lemma {:induction false} CurveAsFraction(p: Point)
    ensures OnCurve(p) <==> Mul(Mul(p.x, p.x), Den(p.y)) == Num(p.y)
  {
    hide Residue, Mul, Add, Sub, OnCurve;
    var x: int, y: int := p.x, p.y;
    OnCurveAsIntegers(p);
    ResidueOfSmall(p.x); ResidueOfSmall(p.y); ResidueOfSmall(D); ResidueOfSmall(1);
    var xx, yy := x * x, y * y;
    ResidueMul(x, x);
    ResidueMul(y, y);
    ResidueMul(yy, D);
    ResidueAdd(yy * D, 1);
    ResidueSub(yy, 1);
    ResidueMul(xx, yy * D + 1);
    assert Mul(Mul(p.x, p.x), Den(p.y)) == Residue(xx * (yy * D + 1));
    assert Num(p.y) == Residue(yy - 1);
    var w := D * ((x * y) * (x * y));
    assert xx * (yy * D + 1) == w + xx by { CrossSquare(x, y, D); }
    // moving x^2 - 1 across
    if Residue(yy - xx) == Residue(1 + w) {
      SameAdd(yy - xx, 1 + w, xx - 1, xx - 1);
    }
    if Residue(w + xx) == Residue(yy - 1) {
      SameAdd(w + xx, yy - 1, 1 - xx, 1 - xx);
    }
  }

  lemma {:induction false} CrossSquare(x: int, y: int, d: int)
    ensures (x * x) * ((y * y) * d + 1) == d * ((x * y) * (x * y)) + x * x
  {
    assert (x * x) * (y * y) == (x * y) * (x * y);
    var w := (x * y) * (x * y);
    assert (x * x) * ((y * y) * d) == w * d;
  }

  datatype Option<T> = None | Some(value: T)

  /** The y coordinate that 32 bytes encode: 255 bits, reduced modulo p. */
  ghost function YOf(s: seq<u8>): F
    requires |s| == 32
  {
    Residue(LeValue(s) % 0x8000000000000000000000000000000000000000000000000000000000000000)
  }

  /** The sign bit of an encoding. */
  function SignOf(s: seq<u8>): u8
    requires |s| == 32
  {
    s[31] / 128
  }

  /** A root of Num(y)/Den(y), if the candidate or its product with sqrt(-1) is one. */
  ghost function RootOf(y: F): Option<F> {
    var x := Candidate(y);
    var t := Mul(Mul(x, x), Den(y));
    if Sub(t, Num(y)) == 0 then Some(x)
    else if Add(t, Num(y)) == 0 then Some(Mul(x, SQRT_MINUS1))
    else None
  }

  /** The negation of the point that 32 bytes encode. */
  ghost function DecodeNegative(s: seq<u8>): Option<Point>
    requires |s| == 32
  {
    var y := YOf(s);
    match RootOf(y)
    case None => None
    case Some(x) => Some(Point(if x % 2 == SignOf(s) then Neg(x) else x, y))
  }

  const ECD: Field64.Fe := Field64.Fe(0x00034dca135978a3, 0x0001a8283b156ebd, 0x0005e7a26001c029, 0x000739c663a03cbb,
    0x00052036cee2b6ff)
  const EC_SQRT_NEG1: Field64.Fe := Field64.Fe(0x00061b274a0ea0b0, 0x0000d5a5fc8f189d, 0x0007ef5e9cbd0c60,
    0x00078595a6804c9e, 0x0002b8324804fc1d)

  lemma {:induction false} FieldConstants()
    ensures Field64.Tight(ECD) && Field64.Elem(ECD) == D
    ensures Field64.Tight(EC_SQRT_NEG1) && Field64.Elem(EC_SQRT_NEG1) == SQRT_MINUS1
  {
  }

  /** Whether an element is zero, by comparing its bytes with 32 zero bytes. */
  method IsZero(a: Field64.Fe) returns (zero: bool)
    requires Field64.Loose(a)
    ensures zero == (Field64.Elem(a) == 0)
  {
    hide Fp.Residue, Field64.Elem;
    var check := FieldCodec.Contract(a);
    LeBytesOfZero(32);
    Pow256At32();
    LeValueOfLeBytes(Field64.Elem(a), 32);
    LeValueOfLeBytes(0, 32);
    var zeros := seq(32, _ => 0);
    assert check[..32] == check && zeros[..32] == zeros;
    zero := Verify(check, zeros, 32);
  }

  method CandidateRoot(num: Field64.Fe, den: Field64.Fe, ghost y: F) returns (x: Field64.Fe)
    requires Field64.Tight(num) && Field64.Basic(den)
    requires Field64.Elem(num) == Num(y) && Field64.Elem(den) == Den(y)
    ensures Field64.Tight(x) && Field64.Elem(x) == Candidate(y)
  {
    hide Mul, Residue, Pow, Field64.Elem, Num, Den;
    var t := Field64.Square(den);
    var d3 := Field64.Mul(t, den);
    x := Field64.Square(d3);
    x := Field64.Mul(x, den);
    x := Field64.Mul(x, num);
    x := AdditionChains.PowTwo252m3(x);
    x := Field64.Mul(x, d3);
    x := Field64.Mul(x, num);
  }

  /** The square root of num/den, with a second try by sqrt(-1). */
  method SquareRoot(num: Field64.Fe, den: Field64.Fe, ghost y: F) returns (x: Field64.Fe, ok: bool)
    requires Field64.Tight(num) && Field64.Basic(den)
    requires Field64.Elem(num) == Num(y) && Field64.Elem(den) == Den(y)
    ensures ok == RootOf(y).Some?
    ensures ok ==> Field64.Tight(x) && Field64.Elem(x) == RootOf(y).value
  {
    FieldConstants();
    hide Mul, Add, Sub, Residue, Pow, Field64.Elem, Num, Den, Candidate;
    x := CandidateRoot(num, den, y);
    var t := Field64.Square(x);
    t := Field64.Mul(t, den);
    var root := Field64.SubReduce(t, num);
    var zero := IsZero(root);
    if !zero {
      t := Field64.AddReduce(t, num);
      zero := IsZero(t);
      if !zero {
        return x, false;
      }
      x := Field64.Mul(x, EC_SQRT_NEG1);
    }
    ok := true;
  }

  /** Decompresses to the negated point; fails exactly when there is no root. */
  method UnpackNegative(r: Ge, p: seq<u8>) returns (ok: bool)
    requires |p| == 32
    modifies r
    ensures ok == DecodeNegative(p).Some?
    ensures ok ==> TightGe(r) && Point(Field64.Elem(r.x), Field64.Elem(r.y)) == DecodeNegative(p).value
    ensures ok ==> Field64.Elem(r.z) == 1 && Field64.Elem(r.t) == Mul(Field64.Elem(r.x), Field64.Elem(r.y))
  {
    hide Mul, Neg, Residue, Field64.Elem, LeValue, LeBytes, Num, Den, RootOf;
    var y, num, den := ReadY(p);
    SmallElem(1);
    r.y := y;
    r.z := Small(1);
    var x;
    x, ok := SquareRoot(num, den, YOf(p));
    if ok {
      x := FixSign(x, p[31] / 128);
      r.x := x;
      r.t := Field64.Mul(r.x, r.y);
    }
  }

  /** Negates x if its low bit is the given one. */
  method FixSign(x: Field64.Fe, parity: u8) returns (out: Field64.Fe)
    requires Field64.Tight(x)
    ensures Field64.Tight(out)
    ensures Field64.Elem(out) == if Field64.Elem(x) % 2 == parity then Neg(Field64.Elem(x)) else Field64.Elem(x)
  {
    hide Neg, Residue, LeBytes;
    var check := FieldCodec.Contract(x);
    FirstByte(Field64.Elem(x));
    out := x;
    if check[0] % 2 == parity {
      out := Field64.Neg(x);
    }
  }

  /** y, y^2 - 1 and d y^2 + 1 of an encoding. */
  method ReadY(p: seq<u8>) returns (y: Field64.Fe, num: Field64.Fe, den: Field64.Fe)
    requires |p| == 32
    ensures Field64.Tight(y) && Field64.Tight(num) && Field64.Basic(den)
    ensures Field64.Elem(y) == YOf(p) && Field64.Elem(num) == Num(YOf(p)) && Field64.Elem(den) == Den(YOf(p))
  {
    FieldConstants();
    SmallElem(1);
    hide Mul, Add, Sub, Residue, Field64.Elem, LeValue;
    y := FieldCodec.Expand(p);
    ExpandedElem(y, p);
    num := Field64.Square(y);
    den := Field64.Mul(num, ECD);
    num := Field64.SubReduce(num, Small(1));
    den := Field64.Add(den, Small(1));
  }

  lemma {:induction false} ExpandedElem(f: Field64.Fe, p: seq<u8>)
    requires |p| == 32 && Field64.Value(f) == LeValue(p) % FieldCodec.TWO_TO_255
    ensures Field64.Elem(f) == YOf(p)
  {
  }

  // ----- what decompression means -----

  lemma {:induction false} RootIsOnCurve(y: F, x: F)
    requires RootOf(y) == Some(x)
    ensures OnCurve(Point(x, y))
  {
    CurveAsFraction(Point(x, y));
    var c := Candidate(y);
    var t := Mul(Mul(c, c), Den(y));
    Constants();
    hide Candidate, Num, Den, OnCurve, Mul;
    ZeroDifference(t, Num(y));
    if Sub(t, Num(y)) != 0 {
      SwapInner(c, SQRT_MINUS1, c, SQRT_MINUS1);
      MulAssociates(Mul(c, c), P - 1, Den(y));
      MulCommutes(P - 1, Den(y));
      MulAssociates(Mul(c, c), Den(y), P - 1);
      TimesMinusOne(t);
    }
  }

  lemma {:induction false} ZeroDifference(a: F, b: F)
    ensures Sub(a, b) == 0 <==> a == b
    ensures Add(a, b) == 0 <==> a == Neg(b)
    ensures Add(a, b) == 0 <==> Neg(a) == b
  {
    hide Residue;
    SmallValues(a, b);
  }

  /** Sums, differences and negations without remainders. */
  lemma {:induction false} SmallValues(a: F, b: F)
    ensures Add(a, b) == if a + b < P then a + b else a + b - P
    ensures Sub(a, b) == if a >= b then a - b else a - b + P
    ensures Neg(a) == (if a == 0 then 0 else P - a) && Neg(b) == if b == 0 then 0 else P - b
  {
    ResidueIsMod((a as int) + b);
    ResidueIsMod((a as int) - b);
    ResidueIsMod(-(a as int));
    ResidueIsMod(-(b as int));
    hide Residue;
  }

  lemma {:induction false} TimesMinusOne(a: F)
    ensures Mul(a, P - 1) == Neg(a)
  {
    hide Residue, Mul;
    MulIsProduct(a, P - 1);
    ResidueUnique((a as int) * (P - 1), -(a as int), a);
  }

  lemma {:induction false} NegParity(x: F)
    ensures Neg(x) % 2 == if x == 0 then 0 else 1 - x % 2
    ensures Neg(x) == 0 <==> x == 0
  {
    hide Residue;
    SmallValues(x, x);
  }

  /** Whatever decompression returns is a point of the curve with the encoded y, whose
      sign bit differs from the encoded one unless x is zero. */
  lemma {:induction false} DecodeIsSound(s: seq<u8>, p: Point)
    requires |s| == 32 && DecodeNegative(s) == Some(p)
    ensures OnCurve(p) && p.y == YOf(s)
    ensures p.x == 0 || p.x % 2 != SignOf(s)
  {
    hide Mul, Residue, OnCurve, YOf, SignOf, RootOf;
    var x := RootOf(YOf(s)).value;
    RootIsOnCurve(YOf(s), x);
    MinusOnCurve(Point(x, YOf(s)));
    NegParity(x);
  }

  // ----- decompression finds every point -----

  lemma {:induction false} PowSquare(w: F, m: nat)
    ensures Pow(Mul(w, w), m) == Pow(w, 2 * m)
  {
    PowAdd(w, 1, 1);
    PowOne(w);
    PowPow(w, 2, m);
  }

  /** The square of the candidate times den, as a power. */
  lemma {:induction false} CandidateSquared(y: F)
    ensures var d3 := Mul(Mul(Den(y), Den(y)), Den(y));
      var u := Mul(Mul(Mul(d3, d3), Den(y)), Num(y));
      Mul(Mul(Candidate(y), Candidate(y)), Den(y)) == Mul(Pow(u, 2 * P_MINUS_5_OVER_8 + 1), Num(y))
  {
    hide Mul, Residue, Pow, Num, Den;
    var n, d := Num(y), Den(y);
    var d3 := Mul(Mul(d, d), d);
    var d7 := Mul(Mul(d3, d3), d);
    var u := Mul(d7, n);
    var v := Pow(u, P_MINUS_5_OVER_8);
    var vd := Mul(v, d3);
    SwapInner(vd, n, vd, n);
    SwapInner(v, d3, v, d3);
    var vv, nn := Mul(v, v), Mul(n, n);
    // ((vv * d3d3) * nn) * d == (vv * (d3d3 * d)) * nn == (vv * u) * n
    MulAssociates(Mul(vv, Mul(d3, d3)), nn, d);
    MulCommutes(nn, d);
    MulAssociates(Mul(vv, Mul(d3, d3)), d, nn);
    MulAssociates(vv, Mul(d3, d3), d);
    MulAssociates(Mul(vv, d7), n, n);
    MulAssociates(vv, d7, n);
    PowAdd(u, P_MINUS_5_OVER_8, P_MINUS_5_OVER_8);
    PowAdd(u, 2 * P_MINUS_5_OVER_8, 1);
    PowOne(u);
  }

  lemma {:induction false} HalfPower(w: F)
    requires Fermat() && w != 0
    ensures Pow(w, 2 * (2 * P_MINUS_5_OVER_8 + 1)) == 1 || Pow(w, 2 * (2 * P_MINUS_5_OVER_8 + 1)) == P - 1
  {
    hide Pow, Mul, Residue;
    var m := 2 * (2 * P_MINUS_5_OVER_8 + 1);
    assert FermatAt(w);
    assert m + m == 1 + (P - 2);
    PowAdd(w, m, m);
    PowAdd(w, 1, P - 2);
    PowOne(w);
    RootOfOne(Pow(w, m));
  }

  lemma {:induction false} RootOfOne(s: F)
    requires Fermat() && Mul(s, s) == 1
    ensures s == 1 || s == P - 1
  {
    hide Mul, Residue, Fermat;
    DifferenceOfSquares(s, 1);
    MulOne(1);
    ZeroDifference(s, 1);
    ZeroDifference(1, 1);
    SmallValues(1, 1);
    if Sub(s, 1) != 0 {
      NoZeroDivisors(Sub(s, 1), Add(s, 1));
    }
  }

  lemma {:induction false} DifferenceOfSquares(a: F, b: F)
    ensures Mul(Sub(a, b), Add(a, b)) == Sub(Mul(a, a), Mul(b, b))
  {
    hide Residue, Mul;
    MulIsProduct(a, a);
    MulIsProduct(b, b);
    ResidueMul((a as int) - b, (a as int) + b);
    ResidueSub((a as int) * a, (b as int) * b);
    Squares(a, b);
  }

  lemma {:induction false} Squares(a: int, b: int)
    ensures (a - b) * (a + b) == a * a - b * b
  {
  }

  /** If some point of the curve has this y, the candidate leads to a root. */
  lemma {:induction false} RootExists(y: F, x0: F)
    requires Fermat() && OnCurve(Point(x0, y))
    ensures RootOf(y).Some?
  {
    CurveAsFraction(Point(x0, y));
    CandidateSquared(y);
    hide Mul, Residue, Pow, Num, Den, Fermat, OnCurve, Candidate, Add, Sub;
    var n, d := Num(y), Den(y);
    var d3 := Mul(Mul(d, d), d);
    var u := Mul(Mul(Mul(d3, d3), d), n);
    var w := Mul(x0, Mul(d3, d));
    var t := Mul(Mul(Candidate(y), Candidate(y)), d);
    var s := Pow(u, 2 * P_MINUS_5_OVER_8 + 1);
    assert Mul(w, w) == u by {
      SwapInner(x0, Mul(d3, d), x0, Mul(d3, d));
      SwapInner(d3, d, d3, d);
      PullApart(Mul(x0, x0), Mul(d3, d3), d);
    }
    PowSquare(w, 2 * P_MINUS_5_OVER_8 + 1);
    ZeroDifference(t, n);
    if w == 0 {
      if n != 0 {
        NumeratorZero(x0, d, d3);
        assert false;
      }
      ZeroProduct(s);
    } else {
      HalfPower(w);
      MulOne(n);
      TimesMinusOne(n);
      MulCommutes(n, P - 1);
    }
  }

  /** a * (b * (d * d)) == (b * d) * (a * d). */
  lemma {:induction false} PullApart(a: F, b: F, d: F)
    ensures Mul(a, Mul(b, Mul(d, d))) == Mul(Mul(b, d), Mul(a, d))
  {
    hide Mul, Residue;
    MulAssociates(b, d, Mul(a, d));
    MulCommutes(a, d);
    MulAssociates(d, d, a);
    MulAssociates(b, Mul(d, d), a);
    MulCommutes(Mul(b, Mul(d, d)), a);
  }

  lemma {:induction false} NumeratorZero(x0: F, d: F, d3: F)
    requires Fermat() && Mul(x0, Mul(d3, d)) == 0 && d3 == Mul(Mul(d, d), d)
    ensures Mul(Mul(x0, x0), d) == 0
  {
    if x0 == 0 || d == 0 {
      ZeroProduct(x0);
      ZeroProduct(d);
      ZeroProduct(Mul(x0, x0));
    } else {
      hide Mul, Residue, Fermat;
      NonZeroProduct(d, d);
      NonZeroProduct(Mul(d, d), d);
      NonZeroProduct(d3, d);
      NonZeroProduct(x0, Mul(d3, d));
      assert false;
    }
  }

  lemma {:induction false} DenNonZero(y: F)
    requires NonSquareD()
    ensures Den(y) != 0
  {
    hide Mul, Residue;
    if Den(y) == 0 {
      Constants();
      ZeroDifference(Mul(Mul(y, y), D), 1);
      MulCommutes(Mul(y, y), D);
      SmallValues(1, 1);
      assert NoRatio(SQRT_MINUS1, y);
      assert y == 0;
      ZeroProduct(0);
      ZeroProduct(D);
      assert false;
    }
  }

  lemma {:induction false} RootsDifferBySign(y: F, x: F, x0: F)
    requires Fermat() && NonSquareD() && OnCurve(Point(x0, y)) && OnCurve(Point(x, y))
    ensures x == x0 || x == Neg(x0)
  {
    CurveAsFraction(Point(x0, y));
    CurveAsFraction(Point(x, y));
    DenNonZero(y);
    hide Mul, Residue, Num, Den, Fermat, OnCurve, Neg, NonSquareD, Add, Sub;
    MulCommutes(Mul(x, x), Den(y));
    MulCommutes(Mul(x0, x0), Den(y));
    CancelFactor(Den(y), Mul(x, x), Mul(x0, x0));
    DifferenceOfSquares(x, x0);
    ZeroDifference(Mul(x, x), Mul(x0, x0));
    ZeroDifference(x, x0);
    if Sub(x, x0) != 0 {
      NoZeroDivisors(Sub(x, x0), Add(x, x0));
    }
  }

  /** Decompression succeeds exactly on the y coordinates of curve points. */
  lemma {:induction false} DecodeIsComplete(s: seq<u8>)
    requires |s| == 32 && Fermat()
    ensures DecodeNegative(s).Some? <==> exists x: F :: OnCurve(Point(x, YOf(s)))
  {
    if x: F :| OnCurve(Point(x, YOf(s))) {
      RootExists(YOf(s), x);
    }
    if RootOf(YOf(s)).Some? {
      RootIsOnCurve(YOf(s), RootOf(YOf(s)).value);
    }
  }

  lemma {:induction false} EncodedParts(p: Point)
    ensures |Encode(p)| == 32 && YOf(Encode(p)) == p.y && SignOf(Encode(p)) == p.x % 2
  {
    var bit := p.x % 2;
    TopBit(p.y, bit);
    Pow256At32();
    var v: int := p.y + 0x8000000000000000000000000000000000000000000000000000000000000000 * bit;
    LeValueOfLeBytes(v, 32);
    hide LeValue, LeBytes;
    DivModUnique(v, 0x8000000000000000000000000000000000000000000000000000000000000000, bit, p.y);
    ResidueOfSmall(p.y);
  }

  /** Decompressing the encoding of a point gives its negation. */
  lemma {:induction false} DecodeOfEncode(p: Point)
    requires Fermat() && NonSquareD() && OnCurve(p)
    ensures |Encode(p)| == 32 && DecodeNegative(Encode(p)) == Some(Minus(p))
  {
    hide Mul, Residue, Neg, Encode, YOf, SignOf, RootOf, OnCurve, Fermat, NonSquareD;
    EncodedParts(p);
    RootExists(p.y, p.x);
    var x := RootOf(p.y).value;
    RootIsOnCurve(p.y, x);
    RootsDifferBySign(p.y, x, p.x);
    NegParity(p.x);
    NegParity(x);
    NegNeg(p.x);
  }

  /** A string that decodes is the encoding of its point exactly if it holds y below p and does
      not give x = 0 the sign bit 1, the two cases that section 5.1.3 of RFC 8032 rejects. */
  lemma {:induction false} CanonicalEncoding(s: seq<u8>, p: Point)
    requires |s| == 32 && DecodeNegative(s) == Some(p)
    ensures s == Encode(Minus(p)) <==>
      && LeValue(s) % 0x8000000000000000000000000000000000000000000000000000000000000000 < P
      && (p.x == 0 ==> SignOf(s) == 0)
  {
    hide Mul, Residue, Neg, OnCurve, Encode, DecodeNegative, LeValue, LeBytes, SignOf, YOf;
    var y := LeValue(s) % 0x8000000000000000000000000000000000000000000000000000000000000000;
    DecodeIsSound(s, p);
    SignParity(s, p);
    SameEncoding(s, Minus(p));
    YIsResidue(s, y);
    OwnResidue(y);
  }

  lemma {:induction false} SignParity(s: seq<u8>, p: Point)
    requires |s| == 32 && (p.x == 0 || p.x % 2 != SignOf(s))
    ensures SignOf(s) == Minus(p).x % 2 <==> (p.x == 0 ==> SignOf(s) == 0)
  {
    hide Residue, Neg;
    NegParity(p.x);
  }

  /** A string encodes a point exactly if its low 255 bits and its sign bit do. */
  lemma {:induction false} SameEncoding(s: seq<u8>, p: Point)
    requires |s| == 32
    ensures s == Encode(p) <==>
      LeValue(s) % 0x8000000000000000000000000000000000000000000000000000000000000000 == p.y && SignOf(s) == p.x % 2
  {
    hide Encode, LeValue, LeBytes, SignOf;
    SignBitOnTop(s);
    EncodedValue(p);
    LeBytesOfLeValue(s);
    LeBytesOfLeValue(Encode(p));
    SameParts(LeValue(s) % 0x8000000000000000000000000000000000000000000000000000000000000000, SignOf(s), p.y, p.x % 2);
  }

  lemma {:induction false} SameParts(y: nat, b: int, z: nat, c: int)
    requires y < 0x8000000000000000000000000000000000000000000000000000000000000000
    requires z < 0x8000000000000000000000000000000000000000000000000000000000000000
    ensures y + 0x8000000000000000000000000000000000000000000000000000000000000000 * b
        == z + 0x8000000000000000000000000000000000000000000000000000000000000000 * c
      <==> y == z && b == c
  {
  }

  lemma {:induction false} YIsResidue(s: seq<u8>, y: nat)
    requires |s| == 32 && y == LeValue(s) % 0x8000000000000000000000000000000000000000000000000000000000000000
    ensures YOf(s) == Residue(y)
  {
    hide LeValue, Residue;
  }

  lemma {:induction false} OwnResidue(y: nat)
    ensures y == Residue(y) <==> y < P
  {
    hide Residue;
    if y < P {
      ResidueOfSmall(y);
    }
  }

  /** What is read from a string: its low 255 bits modulo p, and its top bit. */
  lemma {:induction false} DecodedParts(s: seq<u8>)
    requires |s| == 32
    ensures (YOf(s) as int) == LeValue(s) % 0x8000000000000000000000000000000000000000000000000000000000000000
      % 0x7fffffffffffffffffffffffffffffffffffffffffffffffffffffffffffffed
    ensures SignOf(s) == LeValue(s) / 0x8000000000000000000000000000000000000000000000000000000000000000
  {
    hide LeValue, SignOf, Residue;
    var v := LeValue(s);
    SignBitOnTop(s);
    DivModUnique(v, 0x8000000000000000000000000000000000000000000000000000000000000000, SignOf(s),
      v % 0x8000000000000000000000000000000000000000000000000000000000000000);
    ResidueIsMod(v % 0x8000000000000000000000000000000000000000000000000000000000000000);
  }

  lemma {:induction false} SignBitOnTop(s: seq<u8>)
    requires |s| == 32
    ensures LeValue(s) == LeValue(s) % 0x8000000000000000000000000000000000000000000000000000000000000000
      + 0x8000000000000000000000000000000000000000000000000000000000000000 * SignOf(s)
    ensures SignOf(s) <= 1
  {
    hide LeValue;
    var lo := s[..31];
    assert s == lo + [s[31]];
    Last(lo, s, s[31]);
    LowBytes(lo);
    TopByteSplit(LeValue(lo), s[31]);
  }

  lemma {:induction false} LowBytes(s: seq<u8>)
    requires |s| == 31
    ensures LeValue(s) < 0x100000000000000000000000000000000000000000000000000000000000000
  {
    hide LeValue;
    LeBytesOfLeValue(s);
    Pow256At31();
  }

  lemma {:induction false} TopByteSplit(lo: nat, b: u8)
    requires lo < 0x100000000000000000000000000000000000000000000000000000000000000
    ensures (lo + 0x100000000000000000000000000000000000000000000000000000000000000 * b)
        % 0x8000000000000000000000000000000000000000000000000000000000000000
      == lo + 0x100000000000000000000000000000000000000000000000000000000000000 * (b % 128)
  {
    DivModUnique(lo + 0x100000000000000000000000000000000000000000000000000000000000000 * b,
      0x8000000000000000000000000000000000000000000000000000000000000000, b / 128,
      lo + 0x100000000000000000000000000000000000000000000000000000000000000 * (b % 128));
  }

  lemma {:induction false} EncodedValue(p: Point)
    ensures |Encode(p)| == 32
    ensures LeValue(Encode(p)) == p.y + 0x8000000000000000000000000000000000000000000000000000000000000000 * (p.x % 2)
  {
    hide LeValue, LeBytes;
    Pow256At32();
    LeValueOfLeBytes(p.y + 0x8000000000000000000000000000000000000000000000000000000000000000 * (p.x % 2), 32);
  }
}
