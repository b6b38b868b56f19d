/** Curve25519 base-point multiplication on the Edwards curve. */
module Curved25519 {
  import opened Words
  import opened Bytes
  import opened AbelianGroup
  import opened Edwards
  import opened Points
  import opened Coordinates
  import opened Signature
  import opened Modm64
  import opened ModmCodec
  import Fp
  import Field64
  import FieldCodec
  import AdditionChains
  import BaseMult

  /** The Montgomery coordinate u = (1 + y) / (1 - y), with u = 0 where y = 1. */
  ghost function MontgomeryU(p: Point): Fp.F {
    Fp.Mul(Fp.Add(1, p.y), Inv(Fp.Sub(1, p.y)))
  }

  /** It is the only solution of u (1 - y) = 1 + y. */
  lemma {:induction false} MontgomeryULaw(p: Point)
    requires Fermat()
    ensures p.y == 1 ==> MontgomeryU(p) == 0
    ensures p.y != 1 ==> forall u: Fp.F :: u == MontgomeryU(p) <==> Fp.Mul(u, Fp.Sub(1, p.y)) == Fp.Add(1, p.y)
  {
    hide Fp.Residue, Fp.Pow, Fp.Mul, Fp.Add, Fp.Sub, Fermat, Inv;
    var k, d := Fp.Add(1, p.y), Fp.Sub(1, p.y);
    PointCodec.ZeroDifference(1, p.y);
    ZeroInverse();
    ZeroProduct(k);
    if p.y != 1 {
      FractionTimes(k, d);
      forall u: Fp.F | Fp.Mul(u, d) == k
        ensures u == MontgomeryU(p)
      {
        Fp.MulCommutes(u, d);
        Fp.MulCommutes(MontgomeryU(p), d);
        CancelFactor(d, u, MontgomeryU(p));
      }
    }
  }

  /** Clamping keeps bits 3 to 253 of a scalar, clears bits 0 to 2 and 255, and sets bit 254: a
      multiple of 8 between 2^254 and 2^255. */
  lemma {:induction false} ClampedValue(e: seq<u8>)
    requires |e| == 32
    ensures var v := LeValue(Clamp(e));
      && v == 0x4000000000000000000000000000000000000000000000000000000000000000
        + LeValue(e) % 0x4000000000000000000000000000000000000000000000000000000000000000 - LeValue(e) % 8
      && v % 8 == 0
      && 0x4000000000000000000000000000000000000000000000000000000000000000 <= v
         < 0x8000000000000000000000000000000000000000000000000000000000000000
  {
    hide Clamp, LeValue, LeBytes, Pow256;
    var c := Clamp(e);
    ClampedBytes(e);
    FirstAndLast(c);
    FirstAndLast(e);
    Pow256At31();
    LeBytesOfLeValue(e[1..31]);
    Pow256At30();
    ClampSum(e[0], LeValue(e[1..31]), e[31]);
    ClampRange(c[0] / 8, LeValue(c[1..31]), c[31]);
  }

  lemma {:induction false} ClampedBytes(e: seq<u8>)
    requires |e| == 32
    ensures Clamp(e)[0] == 8 * (e[0] / 8) && Clamp(e)[31] == 64 + e[31] % 64 && Clamp(e)[1..31] == e[1..31]
  {
    hide And, Or;
    ClampBits(e[0], e[31]);
  }

  /** In a longer string the bytes from 32 on stay what they are. */
  lemma {:induction false} ClampedHalf(e: seq<u8>)
    requires |e| >= 32
    ensures Clamp(e)[..32] == Clamp(e[..32]) && Clamp(e)[32..] == e[32..]
  {
    hide And, Or;
  }

  lemma {:induction false} ClampSum(first: u8, middle: nat, last: u8)
    requires middle < 0x1000000000000000000000000000000000000000000000000000000000000
    ensures var v := first + 256 * middle + 0x100000000000000000000000000000000000000000000000000000000000000 * last;
      8 * (first / 8) + 256 * middle
        + 0x100000000000000000000000000000000000000000000000000000000000000 * (64 + last % 64)
      == 0x4000000000000000000000000000000000000000000000000000000000000000
        + v % 0x4000000000000000000000000000000000000000000000000000000000000000 - v % 8
  {
    var v := first + 256 * middle + 0x100000000000000000000000000000000000000000000000000000000000000 * last;
    DivModUnique(v, 8,
      first / 8 + 32 * middle + 0x20000000000000000000000000000000000000000000000000000000000000 * last, first % 8);
    DivModUnique(v, 0x4000000000000000000000000000000000000000000000000000000000000000, last / 64,
      first + 256 * middle + 0x100000000000000000000000000000000000000000000000000000000000000 * (last % 64));
  }

  lemma {:induction false} ClampRange(first: nat, middle: nat, last: u8)
    requires first < 32 && 64 <= last < 128
      && middle < 0x1000000000000000000000000000000000000000000000000000000000000
    ensures var v := 8 * first + 256 * middle
      + 0x100000000000000000000000000000000000000000000000000000000000000 * last;
      v % 8 == 0
      && 0x4000000000000000000000000000000000000000000000000000000000000000 <= v
         < 0x8000000000000000000000000000000000000000000000000000000000000000
  {
    DivModUnique(8 * first + 256 * middle + 0x100000000000000000000000000000000000000000000000000000000000000 * last, 8,
      first + 32 * middle + 0x20000000000000000000000000000000000000000000000000000000000000 * last, 0);
  }

  lemma {:induction false} Pow256At30()
    ensures Pow256(30) == 0x1000000000000000000000000000000000000000000000000000000000000
  {
    Pow256At31();
    assert Pow256(31) == 256 * Pow256(30);
  }

  lemma {:induction false} FirstAndLast(c: seq<u8>)
    requires |c| == 32
    ensures LeValue(c) == c[0] + 256 * LeValue(c[1..31]) + Pow256(31) * c[31]
  {
    hide Pow256;
    var mid := c[1..31];
    assert c == [c[0]] + mid + [c[31]];
    LeValueConcat([c[0]] + mid, [c[31]]);
    LeValueConcat([c[0]], mid);
    PointCodec.OneByte(c[0]);
    PointCodec.OneByte(c[31]);
    assert Pow256(1) == 256 by { Pow256Of1(); }
  }

  lemma {:induction false} Pow256Of1()
    ensures Pow256(1) == 256
  {
    assert Pow256(0) == 1;
  }

  /** What the three masks do. */
  lemma {:induction false} ClampBits(a: u8, b: u8)
    ensures And(a, 248, 8) == 8 * (a / 8)
    ensures And(b, 127, 8) == b % 128 && Or(And(b, 127, 8), 64, 8) == 64 + b % 64
  {
    hide And, Or;
    PowersHere();
    HighBits(a);
    AndOnes(b, 7);
    OrHighBit(b % 128, 6);
    DivModUnique(b % 128, 64, b / 64 - 2 * (b / 128), b % 64);
  }

  lemma {:induction false} PowersHere()
    ensures Pow2(5) == 32 && Pow2(6) == 64 && Pow2(7) == 128
  {
  }

  /** Masking with 248 clears the low three bits. */
  lemma {:induction false} HighBits(a: u8)
    ensures And(a, 248, 8) == 8 * (a / 8)
  {
    hide And;
    PowersHere();
    DivDiv(a, 2, 2);
    DivDiv(a, 4, 2);
    AndShift(a, 124, 7);
    AndShift(a / 2, 62, 6);
    AndShift(a / 2 / 2, 31, 5);
    AndMasks(a / 8, 5);
  }

  /** And with 2^n - 1 on n + 1 bits. */
  lemma {:induction false} AndOnes(a: nat, n: nat)
    ensures And(a, Pow2(n) - 1, n + 1) == a % Pow2(n)
  {
    if n == 0 {
      assert And(a, 0, 1) == 0 + 2 * And(a / 2, 0, 0);
    } else {
      AndOnes(a / 2, n - 1);
      assert (Pow2(n) - 1) / 2 == Pow2(n - 1) - 1;
      LowBit(a, Pow2(n - 1));
    }
  }

  lemma {:induction false} LowBit(a: nat, p: nat)
    requires p > 0
    ensures a % (2 * p) == a % 2 + 2 * (a / 2 % p)
  {
    var q := a / 2;
    assert a == 2 * (p * (q / p) + q % p) + a % 2;
    DivModUnique(a, 2 * p, q / p, a % 2 + 2 * (q % p));
  }

  /** Or with 2^n on n + 2 bits. */
  lemma {:induction false} OrHighBit(a: nat, n: nat)
    requires a < 2 * Pow2(n)
    ensures Or(a, Pow2(n), n + 2) == Pow2(n) + a % Pow2(n)
  {
    if n == 0 {
      assert Or(a, 1, 2) == 1 + 2 * Or(a / 2, 0, 1) && Or(a / 2, 0, 1) == 0 + 2 * Or(a / 2 / 2, 0, 0);
    } else {
      OrHighBit(a / 2, n - 1);
      assert Pow2(n) / 2 == Pow2(n - 1) && Pow2(n) % 2 == 0;
      LowBit(a, Pow2(n - 1));
    }
  }

  // ----- u from the extended coordinates -----

  lemma {:induction false} PowOfZero(n: nat)
    requires n > 0
    ensures Fp.Pow(0, n) == 0
  {
    ZeroProduct(Fp.Pow(0, n - 1));
  }

  lemma {:induction false} ScaleSum(y: Fp.F, z: Fp.F)
    ensures Fp.Add(Fp.Mul(y, z), z) == Fp.Mul(Fp.Add(1, y), z)
    ensures Fp.Sub(z, Fp.Mul(y, z)) == Fp.Mul(Fp.Sub(1, y), z)
  {
    hide Fp.Residue, Fp.Mul;
    var yz: int := (y as int) * z;
    Fp.MulIsProduct(y, z);
    Fp.ResidueOfSmall(z);
    Fp.ResidueAdd(yz, z);
    Fp.ResidueSub(z, yz);
    Fp.ResidueMul(1 + (y as int), z);
    Fp.ResidueMul(1 - (y as int), z);
    assert (1 + (y as int)) * z == yz + z && (1 - (y as int)) * z == z - yz;
  }

  /** (a z) / (b z) == a / b for z not zero. */
  lemma {:induction false} CancelFraction(a: Fp.F, b: Fp.F, z: Fp.F)
    requires Fermat() && z != 0
    ensures Fp.Mul(Fp.Mul(a, z), Inv(Fp.Mul(b, z))) == Fp.Mul(a, Inv(b))
  {
    hide Fp.Residue, Fp.Pow;
    ZeroInverse();
    if b == 0 {
      ZeroProduct(z);
      ZeroProduct(a);
      ZeroProduct(Fp.Mul(a, z));
    } else {
      NonZeroProduct(b, z);
      var bz := Fp.Mul(b, z);
      FractionTimes(Fp.Mul(a, z), bz);
      FractionTimes(a, b);
      // both sides times b z are a z
      var q := Fp.Mul(a, Inv(b));
      Fp.MulAssociates(q, b, z);
      Fp.MulCommutes(bz, q);
      Fp.MulCommutes(bz, Fp.Mul(Fp.Mul(a, z), Inv(bz)));
      CancelFactor(bz, Fp.Mul(Fp.Mul(a, z), Inv(bz)), q);
    }
  }

  lemma {:induction false} ZeroInverse()
    ensures Inv(0) == 0
  {
    PowOfZero(Fp.P - 2);
  }

  lemma {:induction false} FractionTimes(a: Fp.F, b: Fp.F)
    requires Fermat() && b != 0
    ensures Fp.Mul(Fp.Mul(a, Inv(b)), b) == a
  {
    hide Fp.Residue, Fp.Pow;
    assert FermatAt(b);
    Fp.MulAssociates(a, Inv(b), b);
    Fp.MulCommutes(b, Inv(b));
    Fp.MulOne(a);
    hide Fp.Mul;
  }

  lemma {:induction false} UFromCoordinates(e: Ext, p: Point)
    requires Fermat() && PartlyFor(e, p)
    ensures Fp.Mul(Fp.Add(e.y, e.z), Inv(Fp.Sub(e.z, e.y))) == MontgomeryU(p)
  {
    hide Fp.Residue, Fp.Pow, Fp.Mul, Fp.Add, Fp.Sub, Fermat, Inv;
    ScaleSum(p.y, e.z);
    CancelFraction(Fp.Add(1, p.y), Fp.Sub(1, p.y), e.z);
  }

  /** The Curve25519 public key of e: the u-coordinate of the clamped multiple of the base point. */
  method ScalarMultBasepoint(e: seq<u8>, table: seq<seq<u8>>, ghost b: Point) returns (pk: seq<u8>)
    requires |e| == 32 && CurveFacts() && OnCurve(b) && BaseMult.BaseTable(table, b)
    ensures pk == LeBytes(MontgomeryU(Multiple(CURVE, LeValue(Clamp(e)), b)), 32)
  {
    hide OnCurve, BaseMult.BaseTable, Multiple, CURVE, LeValue, LeBytes, And, Or, Value, Fermat, NonSquareD,
      PlusAssociates, Fp.Mul, Fp.Residue, Fp.Pow, Field64.Elem;
    ClampBits(e[0], e[31]);
    var ec := e;
    ec := ec[0 := And(ec[0], 248, 8)];
    ec := ec[31 := And(ec[31], 127, 8)];
    ec := ec[31 := Or(ec[31], 64, 8)];
    assert ec == Clamp(e);
    ClampedValue(e);
    var s := new u64[5];
    ExpandRaw256(s, ec);
    var p := new Ge();
    BaseMult.ScalarMultBase(p, table, Read(s), b);
    // u = (y + z) / (z - y)
    var yplusz := Field64.Add(p.y, p.z);
    var zminusy := Field64.Sub(p.z, p.y);
    zminusy := AdditionChains.Recip(zminusy);
    yplusz := Field64.Mul(yplusz, zminusy);
    UFromCoordinates(Coord(p), Multiple(CURVE, LeValue(ec), b));
    pk := FieldCodec.Contract(yplusz);
  }
}
