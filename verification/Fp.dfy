/** The field of integers modulo p = 2^255 - 19, as the specification of the limb code.
    Residues and products are defined by recursion, so that proofs use them as symbols with
    the laws below; here and in the modules on the curve no lemma relies on automatic induction. */
module Fp {
  import opened Words

  const P: int := 0x7fffffffffffffffffffffffffffffffffffffffffffffffffffffffffffffed

  /** (p - 5) / 8 = 2^252 - 3. */
  const P_MINUS_5_OVER_8: nat := 0xffffffffffffffffffffffffffffffffffffffffffffffffffffffffffffffd

  type F = x: int | 0 <= x < 0x7fffffffffffffffffffffffffffffffffffffffffffffffffffffffffffffed

  /** The residue of an integer: p is added or taken off until the range is reached. */
  ghost function Residue(x: int): F
    decreases if x < 0 then 0x7fffffffffffffffffffffffffffffffffffffffffffffffffffffffffffffed - x else x
  {
    if x < 0 then Residue(x + 0x7fffffffffffffffffffffffffffffffffffffffffffffffffffffffffffffed)
    else if x < 0x7fffffffffffffffffffffffffffffffffffffffffffffffffffffffffffffed then x
    else Residue(x - 0x7fffffffffffffffffffffffffffffffffffffffffffffffffffffffffffffed)
  }

  lemma {:induction false} ResidueIsMod(x: int)
    ensures Residue(x) == x % 0x7fffffffffffffffffffffffffffffffffffffffffffffffffffffffffffffed
    decreases if x < 0 then 0x7fffffffffffffffffffffffffffffffffffffffffffffffffffffffffffffed - x else x
  {
    if x < 0 {
      ResidueIsMod(x + P);
      DivModUnique(x, P, (x + P) / P - 1, (x + P) % P);
    } else if x < P {
    } else {
      ResidueIsMod(x - P);
      DivModUnique(x, P, (x - P) / P + 1, (x - P) % P);
    }
  }

  ghost function Add(a: F, b: F): F {
    Residue((a as int) + b)
  }

  ghost function Sub(a: F, b: F): F {
    Residue((a as int) - b)
  }

  ghost function Neg(a: F): F {
    Residue(-(a as int))
  }

  /** The product, as repeated addition. */
  ghost function Mul(a: F, b: F): F
    decreases a
  {
    if a == 0 then 0 else Add(Mul(a - 1, b), b)
  }

  lemma {:induction false} MulIsProduct(a: F, b: F)
    ensures Mul(a, b) == Residue((a as int) * b)
    decreases a
  {
    if a > 0 {
      MulIsProduct(a - 1, b);
      ResidueAdd((a - 1) * b, b);
      ResidueOfSmall(b);
      OneMoreTime(a, b);
    }
  }

  lemma {:induction false} OneMoreTime(a: int, b: int)
    ensures (a - 1) * b + b == a * b
  {
  }

  lemma {:induction false} ResidueUnique(x: int, y: int, k: int)
    requires x == y + 0x7fffffffffffffffffffffffffffffffffffffffffffffffffffffffffffffed * k
    ensures Residue(x) == Residue(y)
  {
    hide Residue;
    ResidueIsMod(x);
    ResidueIsMod(y);
    var q, r := y / P, y % P;
    DivModUnique(x, P, q + k, r);
  }

  /** How often p has to be taken off x. */
  ghost function Wraps(x: int): (k: int)
    ensures x == Residue(x) + 0x7fffffffffffffffffffffffffffffffffffffffffffffffffffffffffffffed * k
  {
    ResidueIsMod(x);
    x / 0x7fffffffffffffffffffffffffffffffffffffffffffffffffffffffffffffed
  }

  lemma {:induction false} ResidueOfSmall(x: F)
    ensures Residue(x) == x
  {
  }

  lemma {:induction false} ResidueAdd(x: int, y: int)
    ensures Residue(x + y) == Add(Residue(x), Residue(y))
  {
    var j, k := Wraps(x), Wraps(y);
    ResidueUnique(x + y, Residue(x) + Residue(y), j + k);
  }

  lemma {:induction false} ResidueSub(x: int, y: int)
    ensures Residue(x - y) == Sub(Residue(x), Residue(y))
  {
    var j, k := Wraps(x), Wraps(y);
    ResidueUnique(x - y, Residue(x) - Residue(y), j - k);
  }

  lemma {:induction false} ResidueMul(x: int, y: int)
    ensures Residue(x * y) == Mul(Residue(x), Residue(y))
  {
    hide Residue;
    var a, b := Residue(x), Residue(y);
    var j, k := Wraps(x), Wraps(y);
    ProductSplit(x, y, a, b, j, k);
    ResidueUnique(x * y, (a as int) * b, j * b + x * k);
    MulIsProduct(a, b);
  }

  lemma {:induction false} ProductSplit(x: int, y: int, a: int, b: int, j: int, k: int)
    requires x == a + 0x7fffffffffffffffffffffffffffffffffffffffffffffffffffffffffffffed * j
    requires y == b + 0x7fffffffffffffffffffffffffffffffffffffffffffffffffffffffffffffed * k
    ensures x * y == a * b + 0x7fffffffffffffffffffffffffffffffffffffffffffffffffffffffffffffed * (j * b + x * k)
  {
    assert x * y == x * b + 0x7fffffffffffffffffffffffffffffffffffffffffffffffffffffffffffffed * (x * k);
    assert x * b == a * b + 0x7fffffffffffffffffffffffffffffffffffffffffffffffffffffffffffffed * (j * b);
  }

  lemma {:induction false} ResidueNeg(x: int)
    ensures Residue(-x) == Neg(Residue(x))
  {
    ResidueUnique(-x, -(Residue(x) as int), -Wraps(x));
  }

  // ----- integers that differ from a sum, difference, negation or product by a multiple of p -----

  lemma {:induction false} SumOfResidues(x: int, y: int, out: int, k: int)
    requires out == x + y + P * k
    ensures Residue(out) == Add(Residue(x), Residue(y))
  {
    hide Residue;
    ResidueAdd(x, y);
    ResidueUnique(out, x + y, k);
  }

  lemma {:induction false} DifferenceOfResidues(x: int, y: int, out: int, k: int)
    requires out == x - y + P * k
    ensures Residue(out) == Sub(Residue(x), Residue(y))
  {
    hide Residue;
    ResidueSub(x, y);
    ResidueUnique(out, x - y, k);
  }

  lemma {:induction false} NegationOfResidue(x: int, out: int, k: int)
    requires out == -x + P * k
    ensures Residue(out) == Neg(Residue(x))
  {
    hide Residue;
    ResidueNeg(x);
    ResidueUnique(out, -x, k);
  }

  lemma {:induction false} ProductOfResidues(x: int, y: int, out: int, k: int)
    requires y * x == out + P * k
    ensures Residue(out) == Mul(Residue(x), Residue(y))
  {
    hide Residue;
    ResidueMul(x, y);
    ResidueUnique(out, x * y, -k);
  }

  ghost function Pow(a: F, n: nat): F {
    if n == 0 then 1 else Mul(a, Pow(a, n - 1))
  }

  lemma {:induction false} MulCommutes(a: F, b: F)
    ensures Mul(a, b) == Mul(b, a)
  {
    hide Mul, Residue;
    MulIsProduct(a, b);
    MulIsProduct(b, a);
    Commuted(a, b);
  }

  lemma {:induction false} Commuted(a: int, b: int)
    ensures a * b == b * a
  {
  }

  lemma {:induction false} MulAssociates(a: F, b: F, c: F)
    ensures Mul(Mul(a, b), c) == Mul(a, Mul(b, c))
  {
    hide Residue, Mul;
    MulIsProduct(a, b);
    MulIsProduct(b, c);
    ResidueMul((a as int) * b, c);
    ResidueMul(a, (b as int) * c);
    ResidueOfSmall(a);
    ResidueOfSmall(c);
    assert ((a as int) * b) * c == a * ((b as int) * c);
  }

  lemma {:induction false} MulOne(a: F)
    ensures Mul(a, 1) == a && Mul(1, a) == a
  {
    hide Mul, Residue;
    MulIsProduct(a, 1);
    MulIsProduct(1, a);
    ResidueOfSmall(a);
  }

  lemma {:induction false} PowAdd(a: F, m: nat, n: nat)
    ensures Pow(a, m + n) == Mul(Pow(a, m), Pow(a, n))
  {
    if m == 0 {
      MulOne(Pow(a, n));
    } else {
      PowAdd(a, m - 1, n);
      MulAssociates(a, Pow(a, m - 1), Pow(a, n));
    }
  }

  lemma {:induction false} PowPow(a: F, m: nat, n: nat)
    ensures Pow(Pow(a, m), n) == Pow(a, m * n)
  {
    if n == 0 {
    } else {
      PowPow(a, m, n - 1);
      PowAdd(a, m, m * (n - 1));
      assert m + m * (n - 1) == m * n;
    }
  }

  lemma {:induction false} PowOne(a: F)
    ensures Pow(a, 1) == a
  {
    MulOne(a);
  }
}
