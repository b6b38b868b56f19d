/** The fixed powers of the field, by addition chains. */
module AdditionChains {
  import opened Words
  import opened Field64
  import Fp

  /** (x^m)^k * x^n, for k a power of two given by the number of squarings. */
  lemma {:induction false} ChainStep(x: Fp.F, m: nat, s: nat, k: nat, n: nat)
    requires Pow2(s) == k
    ensures Fp.Mul(Fp.Pow(Fp.Pow(x, m), Pow2(s)), Fp.Pow(x, n)) == Fp.Pow(x, m * k + n)
    ensures Fp.Pow(Fp.Pow(x, m), Pow2(s)) == Fp.Pow(x, m * k)
  {
    hide Fp.Pow, Fp.Mul, Fp.Residue, Pow2;
    assert m * k >= 0;
    Fp.PowPow(x, m, k);
    Fp.PowAdd(x, m * k, n);
  }

  lemma Powers()
    ensures Pow2(1) == 2 && Pow2(2) == 4 && Pow2(5) == 0x20 && Pow2(10) == 0x400 && Pow2(20) == 0x100000
    ensures Pow2(50) == 0x4000000000000 && Pow2(100) == 0x10000000000000000000000000
  {
    hide Pow2;
    SmallPowers();
    Pow2Add(10, 10);
    Pow2Add(20, 20);
    Pow2Add(40, 10);
    Pow2Add(50, 50);
  }

  lemma SmallPowers()
    ensures Pow2(1) == 2 && Pow2(2) == 4 && Pow2(5) == 0x20 && Pow2(10) == 0x400
  {
  }

  /** From x^(2^5 - 1) to x^(2^250 - 1). */
  method Pow250(input: Fe, ghost x: Fp.F) returns (b: Fe)
    requires Loose(input) && Elem(input) == Fp.Pow(x, 31)
    ensures Tight(b)
    ensures Elem(b) == Fp.Pow(x, 0x3ffffffffffffffffffffffffffffffffffffffffffffffffffffffffffffff)
  {
    hide Fp.Pow, Fp.Mul, Fp.Residue, Elem, Pow2;
    Powers();
    b := input;
    var t0 := SquareTimes(b, 5);
    b := Mul(t0, b);
    ChainStep(x, 31, 5, 0x20, 31);
    t0 := SquareTimes(b, 10);
    var c := Mul(t0, b);
    ChainStep(x, 0x3ff, 10, 0x400, 0x3ff);
    t0 := SquareTimes(c, 20);
    t0 := Mul(t0, c);
    ChainStep(x, 0xfffff, 20, 0x100000, 0xfffff);
    t0 := SquareTimes(t0, 10);
    b := Mul(t0, b);
    ChainStep(x, 0xffffffffff, 10, 0x400, 0x3ff);
    t0 := SquareTimes(b, 50);
    c := Mul(t0, b);
    ChainStep(x, 0x3ffffffffffff, 50, 0x4000000000000, 0x3ffffffffffff);
    t0 := SquareTimes(c, 100);
    t0 := Mul(t0, c);
    ChainStep(x, 0xfffffffffffffffffffffffff, 100, 0x10000000000000000000000000, 0xfffffffffffffffffffffffff);
    t0 := SquareTimes(t0, 50);
    b := Mul(t0, b);
    ChainStep(x, 0xffffffffffffffffffffffffffffffffffffffffffffffffff, 50, 0x4000000000000, 0x3ffffffffffff);
  }

  /** z^11 and z^31, the common start of both chains. */
  method ChainStart(z: Fe) returns (z11: Fe, z31: Fe)
    requires Loose(z)
    ensures Tight(z11) && Elem(z11) == Fp.Pow(Elem(z), 11)
    ensures Tight(z31) && Elem(z31) == Fp.Pow(Elem(z), 31)
  {
    hide Fp.Pow, Fp.Mul, Fp.Residue, Elem, Pow2;
    ghost var x := Elem(z);
    Powers();
    Fp.PowOne(x);
    var a := SquareTimes(z, 1);
    ChainStep(x, 1, 1, 2, 1);
    var t0 := SquareTimes(a, 2);
    var b := Mul(t0, z);
    ChainStep(x, 2, 2, 4, 1);
    a := Mul(b, a);
    Fp.PowAdd(x, 9, 2);
    t0 := SquareTimes(a, 1);
    b := Mul(t0, b);
    ChainStep(x, 11, 1, 2, 9);
    z11, z31 := a, b;
  }

  /** z^(p - 2). */
  method Recip(z: Fe) returns (out: Fe)
    requires Loose(z)
    ensures Tight(out) && Elem(out) == Fp.Pow(Elem(z), Fp.P - 2)
  {
    hide Fp.Pow, Fp.Mul, Fp.Residue, Elem, Pow2;
    var a, b := ChainStart(z);
    Powers();
    b := Pow250(b, Elem(z));
    b := SquareTimes(b, 5);
    out := Mul(b, a);
    ChainStep(Elem(z), 0x3ffffffffffffffffffffffffffffffffffffffffffffffffffffffffffffff, 5, 0x20, 11);
  }

  /** z^(2^252 - 3), where 2^252 - 3 = (p - 5) / 8. */
  method PowTwo252m3(z: Fe) returns (out: Fe)
    requires Loose(z)
    ensures Tight(out) && Elem(out) == Fp.Pow(Elem(z), Fp.P_MINUS_5_OVER_8)
  {
    hide Fp.Pow, Fp.Mul, Fp.Residue, Elem, Pow2;
    var c, b := ChainStart(z);
    Powers();
    Fp.PowOne(Elem(z));
    b := Pow250(b, Elem(z));
    b := SquareTimes(b, 2);
    out := Mul(b, z);
    ChainStep(Elem(z), 0x3ffffffffffffffffffffffffffffffffffffffffffffffffffffffffffffff, 2, 4, 1);
  }
}
