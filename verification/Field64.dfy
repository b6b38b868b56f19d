/** Arithmetic modulo p in five 51-bit limbs with delayed carries. */
module Field64 {
  import opened Words
  import Fp

  /** Five limbs, least significant first; each may exceed 51 bits. */
  datatype Fe = Fe(l0: u64, l1: u64, l2: u64, l3: u64, l4: u64)

  function Value(f: Fe): int {
    f.l0 + 0x8000000000000 * f.l1 + 0x40000000000000000000000000 * f.l2
    + 0x200000000000000000000000000000000000000 * f.l3
    + 0x1000000000000000000000000000000000000000000000000000 * f.l4
  }

  /** The field element that the limbs denote. */
  ghost function Elem(f: Fe): Fp.F {
    Fp.Residue(Value(f))
  }

  predicate Limit(f: Fe, bound: int) {
    f.l0 < bound && f.l1 < bound && f.l2 < bound && f.l3 < bound && f.l4 < bound
  }

  /** Output of a multiplication or of a reducing operation. */
  predicate Tight(f: Fe) {
    Limit(f, 0x8000000040000)
  }

  /** Output of one unreduced addition or subtraction of tight elements. */
  predicate Basic(f: Fe) {
    Limit(f, 0x18000000080000)
  }

  /** What the multiplier accepts. */
  predicate Loose(f: Fe) {
    Limit(f, 0x40000000000000)
  }

  method Add(a: Fe, b: Fe) returns (out: Fe)
    requires Tight(a) && Tight(b)
    ensures Basic(out) && Elem(out) == Fp.Add(Elem(a), Elem(b))
  {
    out := Fe(a.l0 + b.l0, a.l1 + b.l1, a.l2 + b.l2, a.l3 + b.l3, a.l4 + b.l4);
    Fp.SumOfResidues(Value(a), Value(b), Value(out), 0);
  }

  /** Addition where the operands may be results of Add or Sub. */
  method AddAfterBasic(a: Fe, b: Fe) returns (out: Fe)
    requires Basic(a) && Basic(b)
    ensures Loose(out) && Elem(out) == Fp.Add(Elem(a), Elem(b))
  {
    out := Fe(a.l0 + b.l0, a.l1 + b.l1, a.l2 + b.l2, a.l3 + b.l3, a.l4 + b.l4);
    Fp.SumOfResidues(Value(a), Value(b), Value(out), 0);
  }

  /** out = a - b, adding 2p limb by limb so that nothing wraps. */
  method Sub(a: Fe, b: Fe) returns (out: Fe)
    requires Tight(a) && Tight(b)
    ensures Basic(out) && Elem(out) == Fp.Sub(Elem(a), Elem(b))
  {
    out := Fe(a.l0 + 0x0fffffffffffda - b.l0, a.l1 + 0x0ffffffffffffe - b.l1, a.l2 + 0x0ffffffffffffe - b.l2,
              a.l3 + 0x0ffffffffffffe - b.l3, a.l4 + 0x0ffffffffffffe - b.l4);
    Fp.DifferenceOfResidues(Value(a), Value(b), Value(out), 2);
  }

  /** out = a - b, adding 4p limb by limb. */
  method SubAfterBasic(a: Fe, b: Fe) returns (out: Fe)
    requires Basic(a) && Basic(b)
    ensures Loose(out) && Elem(out) == Fp.Sub(Elem(a), Elem(b))
  {
    out := Fe(a.l0 + 0x1fffffffffffb4 - b.l0, a.l1 + 0x1ffffffffffffc - b.l1, a.l2 + 0x1ffffffffffffc - b.l2,
              a.l3 + 0x1ffffffffffffc - b.l3, a.l4 + 0x1ffffffffffffc - b.l4);
    Fp.DifferenceOfResidues(Value(a), Value(b), Value(out), 4);
  }

  /** One pass of carries over five accumulated limbs; the last carry comes back times 19. */
  method CarryPass(a0: u64, a1: u64, a2: u64, a3: u64, a4: u64) returns (out: Fe, ghost k: int)
    requires a0 < 0x80000000000000 && a1 < 0x80000000000000 && a2 < 0x80000000000000 && a3 < 0x80000000000000
      && a4 < 0x80000000000000
    ensures out.l0 < 0x8000000000000 + 19 * 32 && out.l1 < 0x8000000000000 && out.l2 < 0x8000000000000
      && out.l3 < 0x8000000000000 && out.l4 < 0x8000000000000
    ensures Value(out) == Value(Fe(a0, a1, a2, a3, a4)) - Fp.P * k
  {
    var c: u64 := a0 / 0x8000000000000;
    var o0: u64 := a0 % 0x8000000000000;
    var t: u64 := a1 + c;
    var o1: u64 := t % 0x8000000000000;
    c := t / 0x8000000000000;
    t := a2 + c;
    var o2: u64 := t % 0x8000000000000;
    c := t / 0x8000000000000;
    t := a3 + c;
    var o3: u64 := t % 0x8000000000000;
    c := t / 0x8000000000000;
    t := a4 + c;
    var o4: u64 := t % 0x8000000000000;
    c := t / 0x8000000000000;
    o0 := o0 + c * 19;
    out := Fe(o0, o1, o2, o3, o4);
    k := c;
  }

  method AddReduce(a: Fe, b: Fe) returns (out: Fe)
    requires Basic(a) && Basic(b)
    ensures Tight(out) && Elem(out) == Fp.Add(Elem(a), Elem(b))
  {
    ghost var k;
    out, k := CarryPass(a.l0 + b.l0, a.l1 + b.l1, a.l2 + b.l2, a.l3 + b.l3, a.l4 + b.l4);
    Fp.SumOfResidues(Value(a), Value(b), Value(out), -k);
  }

  method SubReduce(a: Fe, b: Fe) returns (out: Fe)
    requires Basic(a) && Basic(b)
    ensures Tight(out) && Elem(out) == Fp.Sub(Elem(a), Elem(b))
  {
    ghost var k;
    out, k := CarryPass(a.l0 + 0x1fffffffffffb4 - b.l0, a.l1 + 0x1ffffffffffffc - b.l1, a.l2 + 0x1ffffffffffffc - b.l2,
                        a.l3 + 0x1ffffffffffffc - b.l3, a.l4 + 0x1ffffffffffffc - b.l4);
    Fp.DifferenceOfResidues(Value(a), Value(b), Value(out), 4 - k);
  }

  /** out = -a. */
  method Neg(a: Fe) returns (out: Fe)
    requires Tight(a)
    ensures Tight(out) && Elem(out) == Fp.Neg(Elem(a))
  {
    ghost var k;
    out, k := CarryPass(0x0fffffffffffda - a.l0, 0x0ffffffffffffe - a.l1, 0x0ffffffffffffe - a.l2,
                        0x0ffffffffffffe - a.l3, 0x0ffffffffffffe - a.l4);
    Fp.NegationOfResidue(Value(a), Value(out), 2 - k);
  }

  // ----- multiplication -----

  lemma Product54(a: u64, b: u64)
    requires a < 0x40000000000000 && b < 0x40000000000000
    ensures Mul128(a, b) < 0x1000000000000000000000000000
  {
    ProductBound(a, b, 0x40000000000000, 0x40000000000000);
  }

  lemma Scaled(c: nat, a: u64, b: u64)
    requires c * a < 0x1_0000_0000_0000_0000
    ensures Mul128(c * a, b) == c * Mul128(a, b)
  {
  }

  /** The nine columns of the product of two elements. */
  function Columns(r: Fe, s: Fe): (int, int, int, int, int, int, int, int, int) {
    (Mul128(r.l0, s.l0),
     (Mul128(r.l0, s.l1) as int) + Mul128(r.l1, s.l0),
     (Mul128(r.l0, s.l2) as int) + Mul128(r.l2, s.l0) + Mul128(r.l1, s.l1),
     (Mul128(r.l0, s.l3) as int) + Mul128(r.l3, s.l0) + Mul128(r.l1, s.l2) + Mul128(r.l2, s.l1),
     (Mul128(r.l0, s.l4) as int) + Mul128(r.l4, s.l0) + Mul128(r.l3, s.l1) + Mul128(r.l1, s.l3) + Mul128(r.l2, s.l2),
     (Mul128(r.l4, s.l1) as int) + Mul128(r.l1, s.l4) + Mul128(r.l2, s.l3) + Mul128(r.l3, s.l2),
     (Mul128(r.l4, s.l2) as int) + Mul128(r.l2, s.l4) + Mul128(r.l3, s.l3),
     (Mul128(r.l4, s.l3) as int) + Mul128(r.l3, s.l4),
     Mul128(r.l4, s.l4))
  }

  lemma RowProduct(a: u64, y: Fe)
    ensures a * Value(y) == Mul128(a, y.l0) + 0x8000000000000 * Mul128(a, y.l1)
      + 0x40000000000000000000000000 * Mul128(a, y.l2)
      + 0x200000000000000000000000000000000000000 * Mul128(a, y.l3)
      + 0x1000000000000000000000000000000000000000000000000000 * Mul128(a, y.l4)
  {
  }

  /** Folding column k + 5 into column k with factor 19 changes the product by a multiple of p. */
  lemma FoldedColumns(x: Fe, y: Fe)
    ensures var k := Columns(x, y);
      Value(x) * Value(y)
      == (k.0 + 19 * k.5) + 0x8000000000000 * (k.1 + 19 * k.6) + 0x40000000000000000000000000 * (k.2 + 19 * k.7)
       + 0x200000000000000000000000000000000000000 * (k.3 + 19 * k.8)
       + 0x1000000000000000000000000000000000000000000000000000 * k.4
       + Fp.P * (k.5 + 0x8000000000000 * k.6 + 0x40000000000000000000000000 * k.7
         + 0x200000000000000000000000000000000000000 * k.8)
  {
    Distribute(x, Value(y));
    hide Mul128;
    RowProduct(x.l0, y);
    RowProduct(x.l1, y);
    RowProduct(x.l2, y);
    RowProduct(x.l3, y);
    RowProduct(x.l4, y);
  }

  lemma Distribute(x: Fe, v: int)
    ensures Value(x) * v == x.l0 * v + 0x8000000000000 * (x.l1 * v) + 0x40000000000000000000000000 * (x.l2 * v)
      + 0x200000000000000000000000000000000000000 * (x.l3 * v)
      + 0x1000000000000000000000000000000000000000000000000000 * (x.l4 * v)
  {
  }

  /** The two carry passes that end a multiplication: the first over 128-bit columns. */
  method CarryColumns(t0: u128, t1: u128, t2: u128, t3: u128, t4: u128) returns (out: Fe, ghost k: int)
    requires t0 < 0x4d * 0x1000000000000000000000000000 && t1 < 0x4d * 0x1000000000000000000000000000
    requires t2 < 0x4d * 0x1000000000000000000000000000 && t3 < 0x4d * 0x1000000000000000000000000000
    requires t4 < 5 * 0x1000000000000000000000000000
    ensures out.l0 < 0x8000000000000 && out.l1 < 0x8000000000000 + 0x2000
    ensures out.l2 < 0x8000000000000 && out.l3 < 0x8000000000000 && out.l4 < 0x8000000000000
    ensures Value(out) == t0 + 0x8000000000000 * t1 + 0x40000000000000000000000000 * t2
      + 0x200000000000000000000000000000000000000 * t3
      + 0x1000000000000000000000000000000000000000000000000000 * t4 - Fp.P * k
  {
    var r0, c0 := Column51(t0);
    var r1, c1 := Column51(t1 + c0);
    var r2, c2 := Column51(t2 + c1);
    var r3, c3 := Column51(t3 + c2);
    var r4, c4 := Column51(t4 + c3);
    r0 := r0 + c4 * 19;
    var c: u64 := r0 / 0x8000000000000;
    out := Fe(r0 % 0x8000000000000, r1 + c, r2, r3, r4);
    k := c4;
  }

  /** lo128(t) & (2^51 - 1), and t >> 51 as a 64-bit word. */
  method Column51(t: u128) returns (lo: u64, c: u64)
    requires t < 0x80000000000000000000000000000
    ensures lo < 0x8000000000000 && t == lo + 0x8000000000000 * c
  {
    lo := t % 0x1_0000_0000_0000_0000 % 0x8000000000000;
    c := t / 0x8000000000000;
    ghost var h, w := t / 0x1_0000_0000_0000_0000, t % 0x1_0000_0000_0000_0000;
    assert t == 0x8000000000000 * (0x2000 * h + w / 0x8000000000000) + lo;
  }

  lemma ColumnBounds(r: Fe, s: Fe)
    requires Loose(r) && Loose(s)
    ensures var k := Columns(r, s);
      k.0 < 0x1000000000000000000000000000 && k.1 < 2 * 0x1000000000000000000000000000
        && k.2 < 3 * 0x1000000000000000000000000000
      && k.3 < 4 * 0x1000000000000000000000000000 && k.4 < 5 * 0x1000000000000000000000000000
      && k.5 < 4 * 0x1000000000000000000000000000 && k.6 < 3 * 0x1000000000000000000000000000
      && k.7 < 2 * 0x1000000000000000000000000000 && k.8 < 0x1000000000000000000000000000
  {
    Product54(r.l0, s.l0); Product54(r.l0, s.l1); Product54(r.l0, s.l2); Product54(r.l0, s.l3); Product54(r.l0, s.l4);
    Product54(r.l1, s.l0); Product54(r.l1, s.l1); Product54(r.l1, s.l2); Product54(r.l1, s.l3); Product54(r.l1, s.l4);
    Product54(r.l2, s.l0); Product54(r.l2, s.l1); Product54(r.l2, s.l2); Product54(r.l2, s.l3); Product54(r.l2, s.l4);
    Product54(r.l3, s.l0); Product54(r.l3, s.l1); Product54(r.l3, s.l2); Product54(r.l3, s.l3); Product54(r.l3, s.l4);
    Product54(r.l4, s.l0); Product54(r.l4, s.l1); Product54(r.l4, s.l2); Product54(r.l4, s.l3); Product54(r.l4, s.l4);
    hide Mul128;
  }

  /** out = in2 * in.  Nothing overflows for limbs below 2^54. */
  method Mul(in2: Fe, in1: Fe) returns (out: Fe)
    requires Loose(in2) && Loose(in1)
    ensures out.l0 < 0x8000000000000 && out.l1 < 0x8000000000000 + 0x2000
    ensures out.l2 < 0x8000000000000 && out.l3 < 0x8000000000000 && out.l4 < 0x8000000000000
    ensures Elem(out) == Fp.Mul(Elem(in2), Elem(in1))
  {
    hide Fp.Residue, Fp.Mul;
    var r0, r1, r2, r3, r4 := in1.l0, in1.l1, in1.l2, in1.l3, in1.l4;
    var s0, s1, s2, s3, s4 := in2.l0, in2.l1, in2.l2, in2.l3, in2.l4;
    ghost var k := Columns(in1, in2);
    ColumnBounds(in1, in2);
    FoldedColumns(in1, in2);
    Scaled(19, r1, s4); Scaled(19, r2, s3); Scaled(19, r2, s4); Scaled(19, r3, s2); Scaled(19, r3, s3);
      Scaled(19, r3, s4);
    Scaled(19, r4, s1); Scaled(19, r4, s2); Scaled(19, r4, s3); Scaled(19, r4, s4);
    hide Mul128;
    var t0: u128 := Mul128(r0, s0);
    var t1: u128 := Mul128(r0, s1) + Mul128(r1, s0);
    var t2: u128 := Mul128(r0, s2) + Mul128(r2, s0) + Mul128(r1, s1);
    var t3: u128 := Mul128(r0, s3) + Mul128(r3, s0) + Mul128(r1, s2) + Mul128(r2, s1);
    var t4: u128 := Mul128(r0, s4) + Mul128(r4, s0) + Mul128(r3, s1) + Mul128(r1, s3) + Mul128(r2, s2);
    r1, r2, r3, r4 := 19 * r1, 19 * r2, 19 * r3, 19 * r4;
    t0 := t0 + Mul128(r4, s1) + Mul128(r1, s4) + Mul128(r2, s3) + Mul128(r3, s2);
    t1 := t1 + Mul128(r4, s2) + Mul128(r2, s4) + Mul128(r3, s3);
    t2 := t2 + Mul128(r4, s3) + Mul128(r3, s4);
    t3 := t3 + Mul128(r4, s4);
    ghost var j;
    out, j := CarryColumns(t0, t1, t2, t3, t4);
    Fp.ProductOfResidues(Value(in2), Value(in1), Value(out),
      k.5 + 0x8000000000000 * k.6 + 0x40000000000000000000000000 * k.7 + 0x200000000000000000000000000000000000000 * k.8
        + j);
  }

  // ----- squaring -----

  /** The folded columns of a square, each mixed product computed once and doubled. */
  method SquareColumns(r: Fe) returns (t0: u128, t1: u128, t2: u128, t3: u128, t4: u128)
    requires Loose(r)
    ensures var k := Columns(r, r);
      t0 == k.0 + 19 * k.5 && t1 == k.1 + 19 * k.6 && t2 == k.2 + 19 * k.7 && t3 == k.3 + 19 * k.8 && t4 == k.4
    ensures t0 < 0x4d * 0x1000000000000000000000000000 && t1 < 0x4d * 0x1000000000000000000000000000
    ensures t2 < 0x4d * 0x1000000000000000000000000000 && t3 < 0x4d * 0x1000000000000000000000000000
    ensures t4 < 5 * 0x1000000000000000000000000000
  {
    var r0, r1, r2, r3, r4 := r.l0, r.l1, r.l2, r.l3, r.l4;
    ColumnBounds(r, r);
    Scaled(38, r4, r1); Scaled(38, r4, r2); Scaled(38, r4, r3); Scaled(38, r2, r3);
    Scaled(2, r0, r1); Scaled(2, r0, r2); Scaled(2, r0, r3); Scaled(2, r0, r4); Scaled(2, r1, r2); Scaled(2, r1, r3);
    ScaledRight(19, r3, r3); ScaledRight(19, r4, r4);
    Swapped(r);
    hide Mul128;
    var d0: u64 := r0 * 2;
    var d1: u64 := r1 * 2;
    var d2: u64 := r2 * 2 * 19;
    var d419: u64 := r4 * 19;
    var d4: u64 := d419 * 2;
    assert d0 == 2 * r0 && d1 == 2 * r1 && d2 == 38 * r2 && d4 == 38 * r4;
    t0 := Mul128(r0, r0) + Mul128(d4, r1) + Mul128(d2, r3);
    t1 := Mul128(d0, r1) + Mul128(d4, r2) + Mul128(r3, 19 * r3);
    t2 := Mul128(d0, r2) + Mul128(r1, r1) + Mul128(d4, r3);
    t3 := Mul128(d0, r3) + Mul128(d1, r2) + Mul128(r4, d419);
    t4 := Mul128(d0, r4) + Mul128(d1, r3) + Mul128(r2, r2);
  }

  lemma ScaledRight(c: nat, a: u64, b: u64)
    requires c * b < 0x1_0000_0000_0000_0000
    ensures Mul128(a, c * b) == c * Mul128(a, b)
  {
  }

  lemma Swapped(r: Fe)
    ensures Mul128(r.l1, r.l0) == Mul128(r.l0, r.l1) && Mul128(r.l2, r.l0) == Mul128(r.l0, r.l2)
    ensures Mul128(r.l3, r.l0) == Mul128(r.l0, r.l3) && Mul128(r.l4, r.l0) == Mul128(r.l0, r.l4)
    ensures Mul128(r.l2, r.l1) == Mul128(r.l1, r.l2) && Mul128(r.l3, r.l1) == Mul128(r.l1, r.l3)
    ensures Mul128(r.l4, r.l1) == Mul128(r.l1, r.l4) && Mul128(r.l3, r.l2) == Mul128(r.l2, r.l3)
    ensures Mul128(r.l4, r.l2) == Mul128(r.l2, r.l4) && Mul128(r.l4, r.l3) == Mul128(r.l3, r.l4)
  {
  }

  /** out = input^2. */
  method Square(input: Fe) returns (out: Fe)
    requires Loose(input)
    ensures out.l0 < 0x8000000000000 && out.l1 < 0x8000000000000 + 0x2000
    ensures out.l2 < 0x8000000000000 && out.l3 < 0x8000000000000 && out.l4 < 0x8000000000000
    ensures Elem(out) == Fp.Mul(Elem(input), Elem(input))
  {
    ghost var k := Columns(input, input);
    var t0, t1, t2, t3, t4 := SquareColumns(input);
    FoldedColumns(input, input);
    hide Mul128;
    ghost var j;
    out, j := CarryColumns(t0, t1, t2, t3, t4);
    Fp.ProductOfResidues(Value(input), Value(input), Value(out),
      k.5 + 0x8000000000000 * k.6 + 0x40000000000000000000000000 * k.7 + 0x200000000000000000000000000000000000000 * k.8
        + j);
  }

  /** The carries of the repeated squaring: all columns at once, then one more pass. */
  method CarryParallel(t0: u128, t1: u128, t2: u128, t3: u128, t4: u128) returns (out: Fe, ghost k: int)
    requires t0 < 0x4d * 0x1000000000000000000000000000 && t1 < 0x4d * 0x1000000000000000000000000000
    requires t2 < 0x4d * 0x1000000000000000000000000000 && t3 < 0x4d * 0x1000000000000000000000000000
    requires t4 < 5 * 0x1000000000000000000000000000
    ensures Tight(out)
    ensures Value(out) == t0 + 0x8000000000000 * t1 + 0x40000000000000000000000000 * t2
      + 0x200000000000000000000000000000000000000 * t3
      + 0x1000000000000000000000000000000000000000000000000000 * t4 - Fp.P * k
  {
    var r0, c0 := Column51(t0);
    var r1, c1 := Column51(t1);
    var r2, c2 := Column51(t2);
    var r3, c3 := Column51(t3);
    var r4, c4 := Column51(t4);
    r1 := r1 + c0;
    r2 := r2 + c1;
    r3 := r3 + c2;
    r4 := r4 + c3;
    r0 := r0 + c4 * 19;
    var s0, c := CarryStep(r0);
    var s1, d1 := CarryStep(r1 + c);
    var s2, d2 := CarryStep(r2 + d1);
    var s3, d3 := CarryStep(r3 + d2);
    var s4, d4 := CarryStep(r4 + d3);
    out := Fe(s0 + d4 * 19, s1, s2, s3, s4);
    k := c4 + d4;
  }

  method CarryStep(r: u64) returns (lo: u64, c: u64)
    ensures lo < 0x8000000000000 && c < 0x2000 && r == lo + 0x8000000000000 * c
  {
    lo := r % 0x8000000000000;
    c := r / 0x8000000000000;
  }

  /** One round of the repeated squaring. */
  method SquareOnce(input: Fe) returns (out: Fe)
    requires Loose(input)
    ensures Tight(out) && Elem(out) == Fp.Mul(Elem(input), Elem(input))
  {
    ghost var k := Columns(input, input);
    var t0, t1, t2, t3, t4 := SquareColumns(input);
    FoldedColumns(input, input);
    hide Mul128;
    ghost var j;
    out, j := CarryParallel(t0, t1, t2, t3, t4);
    Fp.ProductOfResidues(Value(input), Value(input), Value(out),
      k.5 + 0x8000000000000 * k.6 + 0x40000000000000000000000000 * k.7 + 0x200000000000000000000000000000000000000 * k.8
        + j);
  }

  /** out = input^(2^count).  The loop keeps its limbs tight whatever the count. */
  method SquareTimes(input: Fe, count: u64) returns (out: Fe)
    requires Loose(input) && count > 0
    ensures Tight(out)
    ensures Elem(out) == Fp.Pow(Elem(input), Pow2(count))
  {
    hide Fp.Mul, Fp.Residue, Elem;
    out := input;
    Fp.PowOne(Elem(input));
    var left: u64 := count;
    ghost var x := Elem(input);
    while left > 0
      invariant left <= count
      invariant Loose(out) && (left < count ==> Tight(out))
      invariant Elem(out) == Fp.Pow(x, Pow2(count - left))
    {
      out := SquareOnce(out);
      ghost var n := Pow2(count - left);
      Fp.PowAdd(x, n, n);
      left := left - 1;
    }
  }
}
