/** Arithmetic modulo p in ten limbs of 26 and 25 bits in turn: the layout for 32-bit machines. */
module Field32 {
  import opened Words
  import Fp
  import Field64

  datatype Fe32 = Fe32(l0: u32, l1: u32, l2: u32, l3: u32, l4: u32, l5: u32, l6: u32, l7: u32, l8: u32, l9: u32) {
    function Digits(): Ten {
      Ten(l0, l1, l2, l3, l4, l5, l6, l7, l8, l9)
    }
  }

  /** Ten columns of a sum. */
  datatype Ten = Ten(c0: int, c1: int, c2: int, c3: int, c4: int, c5: int, c6: int, c7: int, c8: int, c9: int)

  /** A string of digits of 26 and 25 bits in turn, least significant first. */
  function Mixed(s: seq<int>, odd: bool): int {
    if s == [] then 0 else s[0] + (if odd then 0x2000000 else 0x4000000) * Mixed(s[1..], !odd)
  }

  lemma MixedAt(s: seq<int>, i: nat, odd: bool)
    requires i < |s|
    ensures Mixed(s[i..], odd) == s[i] + (if odd then 0x2000000 else 0x4000000) * Mixed(s[i + 1..], !odd)
  {
    assert s[i..][1..] == s[i + 1..];
  }

  function Weigh(t: Ten): int {
    Mixed([t.c0, t.c1, t.c2, t.c3, t.c4, t.c5, t.c6, t.c7, t.c8, t.c9], false)
  }

  /** Column i has the weight 2^ceil(25.5 i). */
  lemma Weights(t: Ten)
    ensures Weigh(t) == t.c0
      + 0x4000000 * t.c1
      + 0x8000000000000 * t.c2
      + 0x20000000000000000000 * t.c3
      + 0x40000000000000000000000000 * t.c4
      + 0x100000000000000000000000000000000 * t.c5
      + 0x200000000000000000000000000000000000000 * t.c6
      + 0x800000000000000000000000000000000000000000000 * t.c7
      + 0x1000000000000000000000000000000000000000000000000000 * t.c8
      + 0x4000000000000000000000000000000000000000000000000000000000 * t.c9
  {
    hide Mixed;
    var s := [t.c0, t.c1, t.c2, t.c3, t.c4, t.c5, t.c6, t.c7, t.c8, t.c9];
    MixedAt(s, 0, false); MixedAt(s, 1, true); MixedAt(s, 2, false); MixedAt(s, 3, true); MixedAt(s, 4, false);
    MixedAt(s, 5, true); MixedAt(s, 6, false); MixedAt(s, 7, true); MixedAt(s, 8, false); MixedAt(s, 9, true);
    assert s[0..] == s;
    NoDigits(s[10..]);
  }

  lemma NoDigits(s: seq<int>)
    requires s == []
    ensures Mixed(s, false) == 0
  {
  }

  function Value(f: Fe32): int {
    Weigh(f.Digits())
  }

  /** The field element that the limbs denote. */
  ghost function Elem(f: Fe32): Fp.F {
    Fp.Residue(Value(f))
  }

  /** Limbs of exactly 26 and 25 bits. */
  predicate Digits255(f: Fe32) {
    && f.l0 < 0x4000000 && f.l1 < 0x2000000 && f.l2 < 0x4000000 && f.l3 < 0x2000000 && f.l4 < 0x4000000
    && f.l5 < 0x2000000 && f.l6 < 0x4000000 && f.l7 < 0x2000000 && f.l8 < 0x4000000 && f.l9 < 0x2000000
  }

  /** Output of a multiplication or of an operation that carries through all limbs. */
  predicate Tight(f: Fe32) {
    Digits255(f.(l0 := 0, l1 := 0)) && f.l0 < 0x4000100 && f.l1 < 0x2000800
  }

  /** Limbs 0 to 3 of at most u units of 2^26 + 2^12 or 2^25 + 2^12, the others of at most v. */
  predicate Profile(f: Fe32, u: int, v: int) {
    && f.l0 <= u * 0x4001000 && f.l1 <= u * 0x2001000 && f.l2 <= u * 0x4001000 && f.l3 <= u * 0x2001000
    && f.l4 <= v * 0x4001000 && f.l5 <= v * 0x2001000 && f.l6 <= v * 0x4001000 && f.l7 <= v * 0x2001000
    && f.l8 <= v * 0x4001000 && f.l9 <= v * 0x2001000
  }

  /** Output of one addition, or of one subtraction, which carries through the first four limbs. */
  predicate Basic(f: Fe32) {
    Profile(f, 2, 2) || Profile(f, 1, 3)
  }

  // ----- addition and subtraction -----

  method Add(a: Fe32, b: Fe32) returns (out: Fe32)
    requires Tight(a) && Tight(b)
    ensures Basic(out) && Elem(out) == Fp.Add(Elem(a), Elem(b))
  {
    hide Fp.Residue, Weigh;
    out := Fe32(a.l0 + b.l0, a.l1 + b.l1, a.l2 + b.l2, a.l3 + b.l3, a.l4 + b.l4, a.l5 + b.l5, a.l6 + b.l6, a.l7 + b.l7,
      a.l8 + b.l8, a.l9 + b.l9);
    SumValue(a, b, out);
    Fp.SumOfResidues(Value(a), Value(b), Value(out), 0);
  }

  /** The carries c turn the columns m into the digits r. */
  predicate Carried(m: Ten, r: Ten, c: Ten) {
    && m.c0 == r.c0 + 0x4000000 * c.c0
    && m.c1 + c.c0 == r.c1 + 0x2000000 * c.c1
    && m.c2 + c.c1 == r.c2 + 0x4000000 * c.c2
    && m.c3 + c.c2 == r.c3 + 0x2000000 * c.c3
    && m.c4 + c.c3 == r.c4 + 0x4000000 * c.c4
    && m.c5 + c.c4 == r.c5 + 0x2000000 * c.c5
    && m.c6 + c.c5 == r.c6 + 0x4000000 * c.c6
    && m.c7 + c.c6 == r.c7 + 0x2000000 * c.c7
    && m.c8 + c.c7 == r.c8 + 0x4000000 * c.c8
    && m.c9 + c.c8 == r.c9 + 0x2000000 * c.c9
  }

  /** Carries telescope: what leaves the last column has the weight 2^255. */
  lemma Telescope(m: Ten, r: Ten, c: Ten)
    requires Carried(m, r, c)
    ensures Weigh(m) == Weigh(r) + 0x8000000000000000000000000000000000000000000000000000000000000000 * c.c9
  {
    hide Weigh;
    Weights(m);
    Weights(r);
  }

  /** One pass of carries over 32-bit limbs, and what leaves the last one. */
  method Carry(a: Fe32) returns (out: Fe32, c: u32)
    requires a.l0 < 0x80000000 && a.l1 < 0x80000000 && a.l2 < 0x80000000 && a.l3 < 0x80000000 && a.l4 < 0x80000000
    requires a.l5 < 0x80000000 && a.l6 < 0x80000000 && a.l7 < 0x80000000 && a.l8 < 0x80000000 && a.l9 < 0x80000000
    ensures Digits255(out)
    ensures Value(a) == Value(out) + 0x8000000000000000000000000000000000000000000000000000000000000000 * c
    ensures 0x2000000 * c <= a.l9 + 0x40
  {
    hide Weigh;
    var r0, c0 := Low26(a.l0);
    var r1, c1 := Low25(a.l1 + c0);
    var r2, c2 := Low26(a.l2 + c1);
    var r3, c3 := Low25(a.l3 + c2);
    var r4, c4 := Low26(a.l4 + c3);
    var r5, c5 := Low25(a.l5 + c4);
    var r6, c6 := Low26(a.l6 + c5);
    var r7, c7 := Low25(a.l7 + c6);
    var r8, c8 := Low26(a.l8 + c7);
    var r9, c9 := Low25(a.l9 + c8);
    out := Fe32(r0, r1, r2, r3, r4, r5, r6, r7, r8, r9);
    c := c9;
    Telescope(a.Digits(), out.Digits(), Ten(c0, c1, c2, c3, c4, c5, c6, c7, c8, c9));
  }

  /** The low bits of a limb and its carry. */
  method Low26(x: u32) returns (r: u32, c: u32)
    ensures r < 0x4000000 && x == r + 0x4000000 * c
  {
    r, c := x % 0x4000000, x / 0x4000000;
  }

  method Low25(x: u32) returns (r: u32, c: u32)
    ensures r < 0x2000000 && x == r + 0x2000000 * c
  {
    r, c := x % 0x2000000, x / 0x2000000;
  }

  /** A full pass: the last carry comes back into limb 0 with the factor 19. */
  method CarryFull(a: Fe32) returns (out: Fe32, ghost k: nat)
    requires a.l0 < 0x80000000 && a.l1 < 0x80000000 && a.l2 < 0x80000000 && a.l3 < 0x80000000 && a.l4 < 0x80000000
    requires a.l5 < 0x80000000 && a.l6 < 0x80000000 && a.l7 < 0x80000000 && a.l8 < 0x80000000 && a.l9 < 0x80000000
    ensures Digits255(out.(l0 := 0)) && out.l0 < 0x4000000 + 19 * k && 0x2000000 * k <= a.l9 + 0x40
    ensures Value(out) == Value(a) - 0x7fffffffffffffffffffffffffffffffffffffffffffffffffffffffffffffed * k
      && 0x8000000000000000000000000000000000000000000000000000000000000000 * k <= Value(a)
      < 0x8000000000000000000000000000000000000000000000000000000000000000 * (k + 1)
  {
    var c;
    out, c := Carry(a);
    Below255(out);
    hide Weigh;
    ghost var was := out;
    out := out.(l0 := out.l0 + 19 * c);
    LowestTwo(was.Digits(), out.Digits(), 19 * c, 0);
    k := c;
  }

  lemma Below255(f: Fe32)
    requires Digits255(f)
    ensures 0 <= Value(f) < 0x8000000000000000000000000000000000000000000000000000000000000000
  {
    hide Weigh;
    Weights(f.Digits());
  }

  lemma SumValue(a: Fe32, b: Fe32, t: Fe32)
    requires t.l0 == a.l0 + b.l0 && t.l1 == a.l1 + b.l1 && t.l2 == a.l2 + b.l2 && t.l3 == a.l3 + b.l3
      && t.l4 == a.l4 + b.l4 && t.l5 == a.l5 + b.l5 && t.l6 == a.l6 + b.l6 && t.l7 == a.l7 + b.l7 && t.l8 == a.l8 + b.l8
      && t.l9 == a.l9 + b.l9
    ensures Value(t) == Value(a) + Value(b)
  {
    hide Weigh;
    Weights(a.Digits());
    Weights(b.Digits());
    Weights(t.Digits());
  }

  lemma DifferenceValue(a: Fe32, b: Fe32, t: Fe32)
    requires t.l0 == 0x0fffffb4 + a.l0 - b.l0 && t.l1 == 0x07fffffc + a.l1 - b.l1 && t.l2 == 0x0ffffffc + a.l2 - b.l2
      && t.l3 == 0x07fffffc + a.l3 - b.l3 && t.l4 == 0x0ffffffc + a.l4 - b.l4 && t.l5 == 0x07fffffc + a.l5 - b.l5
      && t.l6 == 0x0ffffffc + a.l6 - b.l6 && t.l7 == 0x07fffffc + a.l7 - b.l7 && t.l8 == 0x0ffffffc + a.l8 - b.l8
      && t.l9 == 0x07fffffc + a.l9 - b.l9
    ensures Value(t) == Value(a) - Value(b) + 4 * Fp.P
  {
    hide Weigh;
    Weights(a.Digits());
    Weights(b.Digits());
    Weights(t.Digits());
  }

  /** The same for operands that are themselves sums or differences. */
  method AddAfterBasic(a: Fe32, b: Fe32) returns (out: Fe32)
    requires Basic(a) && Basic(b)
    ensures Tight(out) && Elem(out) == Fp.Add(Elem(a), Elem(b))
  {
    hide Weigh, Fp.Residue;
    var t := Fe32(a.l0 + b.l0, a.l1 + b.l1, a.l2 + b.l2, a.l3 + b.l3, a.l4 + b.l4, a.l5 + b.l5, a.l6 + b.l6,
      a.l7 + b.l7, a.l8 + b.l8, a.l9 + b.l9);
    ghost var k: int;
    out, k := CarryFull(t);
    SumValue(a, b, t);
    Fp.SumOfResidues(Value(a), Value(b), Value(out), -k);
  }

  /** out = a - b, adding 2p limb by limb; carries only through the first four limbs. */
  method Sub(a: Fe32, b: Fe32) returns (out: Fe32)
    requires Tight(a) && Tight(b)
    ensures Basic(out) && Elem(out) == Fp.Sub(Elem(a), Elem(b))
  {
    hide Fp.Residue, Weigh;
    var r0, c0 := Low26(0x07ffffda + a.l0 - b.l0);
    var r1, c1 := Low25(0x03fffffe + a.l1 - b.l1 + c0);
    var r2, c2 := Low26(0x07fffffe + a.l2 - b.l2 + c1);
    var r3, c3 := Low25(0x03fffffe + a.l3 - b.l3 + c2);
    out := Fe32(r0, r1, r2, r3, 0x07fffffe + a.l4 - b.l4 + c3, 0x03fffffe + a.l5 - b.l5, 0x07fffffe + a.l6 - b.l6,
      0x03fffffe + a.l7 - b.l7, 0x07fffffe + a.l8 - b.l8, 0x03fffffe + a.l9 - b.l9);
    Weights(a.Digits());
    Weights(b.Digits());
    Weights(out.Digits());
    Fp.DifferenceOfResidues(Value(a), Value(b), Value(out), 2);
  }

  /** In ten limbs the same steps as AddAfterBasic. */
  method AddReduce(a: Fe32, b: Fe32) returns (out: Fe32)
    requires Basic(a) && Basic(b)
    ensures Tight(out) && Elem(out) == Fp.Add(Elem(a), Elem(b))
  {
    out := AddAfterBasic(a, b);
  }

  /** out = a - b, adding 4p limb by limb. */
  method SubAfterBasic(a: Fe32, b: Fe32) returns (out: Fe32)
    requires Basic(a) && Basic(b)
    ensures Tight(out) && Elem(out) == Fp.Sub(Elem(a), Elem(b))
  {
    hide Weigh, Fp.Residue;
    var t := Fe32(0x0fffffb4 + a.l0 - b.l0, 0x07fffffc + a.l1 - b.l1, 0x0ffffffc + a.l2 - b.l2,
      0x07fffffc + a.l3 - b.l3, 0x0ffffffc + a.l4 - b.l4, 0x07fffffc + a.l5 - b.l5, 0x0ffffffc + a.l6 - b.l6,
      0x07fffffc + a.l7 - b.l7, 0x0ffffffc + a.l8 - b.l8, 0x07fffffc + a.l9 - b.l9);
    ghost var k: int;
    out, k := CarryFull(t);
    DifferenceValue(a, b, t);
    Fp.DifferenceOfResidues(Value(a), Value(b), Value(out), 4 - k);
  }

  /** out = -a. */
  method Neg(a: Fe32) returns (out: Fe32)
    requires Tight(a)
    ensures Tight(out) && Elem(out) == Fp.Neg(Elem(a))
  {
    hide Fp.Residue, Weigh;
    var t := Fe32(0x07ffffda - a.l0, 0x03fffffe - a.l1, 0x07fffffe - a.l2, 0x03fffffe - a.l3, 0x07fffffe - a.l4,
      0x03fffffe - a.l5, 0x07fffffe - a.l6, 0x03fffffe - a.l7, 0x07fffffe - a.l8, 0x03fffffe - a.l9);
    ghost var k: int;
    out, k := CarryFull(t);
    Weights(a.Digits());
    Weights(t.Digits());
    assert Value(t) == -Value(a) + 2 * Fp.P;
    Fp.NegationOfResidue(Value(a), Value(out), 2 - k);
  }

  // ----- multiplication -----

  /** The full product of two 32-bit words. */
  function Mul64(a: u32, b: u32): u64 {
    ProductBound(a, b, 0x1_0000_0000, 0x1_0000_0000);
    Mul128(a, b)
  }

  /** The even limbs and the odd limbs, as numbers in five limbs of 51 bits. */
  function Even(x: Fe32): Field64.Fe {
    Field64.Fe(x.l0, x.l2, x.l4, x.l6, x.l8)
  }

  function Odd(x: Fe32): Field64.Fe {
    Field64.Fe(x.l1, x.l3, x.l5, x.l7, x.l9)
  }

  lemma Halves(x: Fe32)
    ensures Value(x) == Field64.Value(Even(x)) + 0x4000000 * Field64.Value(Odd(x))
  {
    hide Weigh;
    Weights(x.Digits());
  }

  type Nine = (int, int, int, int, int, int, int, int, int)

  /** Columns 0 to 9 of the product, from those of its four parts: two odd limbs meet one bit higher. */
  function LowOf(ee: Nine, eo: Nine, oe: Nine, oo: Nine): Ten {
    Ten(ee.0, eo.0 + oe.0, ee.1 + 2 * oo.0, eo.1 + oe.1, ee.2 + 2 * oo.1, eo.2 + oe.2, ee.3 + 2 * oo.2, eo.3 + oe.3,
        ee.4 + 2 * oo.3, eo.4 + oe.4)
  }

  /** Columns 10 to 18. */
  function HighOf(ee: Nine, eo: Nine, oe: Nine, oo: Nine): Ten {
    Ten(ee.5 + 2 * oo.4, eo.5 + oe.5, ee.6 + 2 * oo.5, eo.6 + oe.6, ee.7 + 2 * oo.6, eo.7 + oe.7, ee.8 + 2 * oo.7,
      eo.8 + oe.8,
        2 * oo.8, 0)
  }

  function Low(x: Fe32, y: Fe32): Ten {
    LowOf(Field64.Columns(Even(x), Even(y)), Field64.Columns(Even(x), Odd(y)), Field64.Columns(Odd(x), Even(y)),
      Field64.Columns(Odd(x), Odd(y)))
  }

  function High(x: Fe32, y: Fe32): Ten {
    HighOf(Field64.Columns(Even(x), Even(y)), Field64.Columns(Even(x), Odd(y)), Field64.Columns(Odd(x), Even(y)),
      Field64.Columns(Odd(x), Odd(y)))
  }

  /** The value of nine columns of 51 bits. */
  function Weigh51(k: Nine): int {
    k.0 + 0x8000000000000 * k.1 + 0x40000000000000000000000000 * k.2 + 0x200000000000000000000000000000000000000 * k.3
      + 0x1000000000000000000000000000000000000000000000000000 * k.4
      + 0x8000000000000000000000000000000000000000000000000000000000000000 * k.5
      + 0x40000000000000000000000000000000000000000000000000000000000000000000000000000 * k.6
      + 0x200000000000000000000000000000000000000000000000000000000000000000000000000000000000000000 * k.7
      + 0x1000000000000000000000000000000000000000000000000000000000000000000000000000000000000000000000000000000 * k.8
  }

  lemma ProductOfFive(x: Field64.Fe, y: Field64.Fe)
    ensures Field64.Value(x) * Field64.Value(y) == Weigh51(Field64.Columns(x, y))
  {
    Field64.FoldedColumns(x, y);
    hide Field64.Value, Field64.Columns;
  }

  lemma Interleave(ee: Nine, eo: Nine, oe: Nine, oo: Nine)
    ensures Weigh51(ee) + 0x4000000 * (Weigh51(eo) + Weigh51(oe)) + 0x10000000000000 * Weigh51(oo)
      == Weigh(LowOf(ee, eo, oe, oo))
        + 0x8000000000000000000000000000000000000000000000000000000000000000 * Weigh(HighOf(ee, eo, oe, oo))
  {
    hide Weigh;
    Weights(LowOf(ee, eo, oe, oo));
    Weights(HighOf(ee, eo, oe, oo));
  }

  lemma FourProducts(a: int, b: int, c: int, d: int)
    ensures (a + 0x4000000 * b) * (c + 0x4000000 * d)
      == a * c + 0x4000000 * (a * d + b * c) + 0x10000000000000 * (b * d)
  {
  }

  /** Folding column k + 10 into column k with factor 19 changes the product by a multiple of p. */
  lemma FoldedColumns(x: Fe32, y: Fe32)
    ensures Value(x) * Value(y)
      == Weigh(Low(x, y)) + 0x8000000000000000000000000000000000000000000000000000000000000000 * Weigh(High(x, y))
  {
    hide Value, Weigh, Weigh51, Field64.Value, Field64.Columns, Even, Odd, LowOf, HighOf;
    Halves(x);
    Halves(y);
    var a, b, c, d := Even(x), Odd(x), Even(y), Odd(y);
    FourProducts(Field64.Value(a), Field64.Value(b), Field64.Value(c), Field64.Value(d));
    ProductOfFive(a, c);
    ProductOfFive(a, d);
    ProductOfFive(b, c);
    ProductOfFive(b, d);
    Interleave(Field64.Columns(a, c), Field64.Columns(a, d), Field64.Columns(b, c), Field64.Columns(b, d));
  }


  // ----- bounds -----

  /** No limb is more than three units. */
  predicate Loose(f: Fe32) {
    Profile(f, 3, 3)
  }

  lemma BasicIsLoose(f: Fe32)
    requires Basic(f)
    ensures Loose(f)
  {
  }

  /** Products of one limb of at most a0 with the limbs of y. */
  lemma RowBound(a: u32, a0: nat, y: Field64.Fe, y0: nat, bound: nat)
    requires a <= a0 && bound == a0 * y0 && Field64.Limit(y, y0 + 1)
    ensures Mul128(a, y.l0) <= bound && Mul128(a, y.l1) <= bound && Mul128(a, y.l2) <= bound && Mul128(a, y.l3) <= bound
      && Mul128(a, y.l4) <= bound
  {
    MulMono(a, a0, y.l0); MulMono(a, a0, y.l1); MulMono(a, a0, y.l2); MulMono(a, a0, y.l3); MulMono(a, a0, y.l4);
    MulMono(y.l0, y0, a0); MulMono(y.l1, y0, a0); MulMono(y.l2, y0, a0); MulMono(y.l3, y0, a0); MulMono(y.l4, y0, a0);
  }

  /** Columns of five limbs by five. */
  lemma NineBound(x: Field64.Fe, x0: u32, y: Field64.Fe, y0: u32, bound: nat)
    requires Field64.Limit(x, x0 + 1) && Field64.Limit(y, y0 + 1) && bound == x0 * y0
    ensures var k := Field64.Columns(x, y);
      && 0 <= k.0 <= bound && 0 <= k.1 <= 2 * bound && 0 <= k.2 <= 3 * bound && 0 <= k.3 <= 4 * bound
        && 0 <= k.4 <= 5 * bound
      && 0 <= k.5 <= 4 * bound && 0 <= k.6 <= 3 * bound && 0 <= k.7 <= 2 * bound && 0 <= k.8 <= bound
  {
    RowBound(x.l0, x0, y, y0, bound);
    RowBound(x.l1, x0, y, y0, bound);
    RowBound(x.l2, x0, y, y0, bound);
    RowBound(x.l3, x0, y, y0, bound);
    RowBound(x.l4, x0, y, y0, bound);
    NineSums(x, y, bound);
  }

  lemma NineSums(x: Field64.Fe, y: Field64.Fe, b: nat)
    requires Mul128(x.l0, y.l0) <= b && Mul128(x.l0, y.l1) <= b && Mul128(x.l0, y.l2) <= b && Mul128(x.l0, y.l3) <= b
      && Mul128(x.l0, y.l4) <= b
    requires Mul128(x.l1, y.l0) <= b && Mul128(x.l1, y.l1) <= b && Mul128(x.l1, y.l2) <= b && Mul128(x.l1, y.l3) <= b
      && Mul128(x.l1, y.l4) <= b
    requires Mul128(x.l2, y.l0) <= b && Mul128(x.l2, y.l1) <= b && Mul128(x.l2, y.l2) <= b && Mul128(x.l2, y.l3) <= b
      && Mul128(x.l2, y.l4) <= b
    requires Mul128(x.l3, y.l0) <= b && Mul128(x.l3, y.l1) <= b && Mul128(x.l3, y.l2) <= b && Mul128(x.l3, y.l3) <= b
      && Mul128(x.l3, y.l4) <= b
    requires Mul128(x.l4, y.l0) <= b && Mul128(x.l4, y.l1) <= b && Mul128(x.l4, y.l2) <= b && Mul128(x.l4, y.l3) <= b
      && Mul128(x.l4, y.l4) <= b
    ensures var k := Field64.Columns(x, y);
      && 0 <= k.0 <= b && 0 <= k.1 <= 2 * b && 0 <= k.2 <= 3 * b && 0 <= k.3 <= 4 * b && 0 <= k.4 <= 5 * b
      && 0 <= k.5 <= 4 * b && 0 <= k.6 <= 3 * b && 0 <= k.7 <= 2 * b && 0 <= k.8 <= b
  {
    hide Mul128;
  }

  /** Every column fits 64 bits with all that is added to it. */
  lemma ColumnsFit(x: Fe32, y: Fe32)
    requires Loose(x) && Loose(y)
    ensures var l, k := Low(x, y), High(x, y);
      && l.c0 + 19 * k.c0 < 0x7000000000000000 && l.c1 + 19 * k.c1 < 0x7000000000000000
        && l.c2 + 19 * k.c2 < 0x7000000000000000
      && l.c3 + 19 * k.c3 < 0x7000000000000000 && l.c4 + 19 * k.c4 < 0x7000000000000000
        && l.c5 + 19 * k.c5 < 0x7000000000000000
      && l.c6 + 19 * k.c6 < 0x7000000000000000 && l.c7 + 19 * k.c7 < 0x7000000000000000
        && l.c8 + 19 * k.c8 < 0x7000000000000000
      && l.c9 + 19 * k.c9 < 0x7000000000000000
  {
    hide Field64.Columns;
    NineBound(Even(x), 0xc003000, Even(y), 0xc003000, 0xc003000 * 0xc003000);
    NineBound(Even(x), 0xc003000, Odd(y), 0x6003000, 0xc003000 * 0x6003000);
    NineBound(Odd(x), 0x6003000, Even(y), 0xc003000, 0x6003000 * 0xc003000);
    NineBound(Odd(x), 0x6003000, Odd(y), 0x6003000, 0x6003000 * 0x6003000);
  }

  /** Column 9 for limbs of x below the given bounds. */
  lemma Ninth(x: Fe32, y: Fe32, u: nat, v: nat)
    requires Profile(x, u, v)
    ensures Low(x, y).c9 <= u * 0x4001000 * y.l9 + u * 0x2001000 * y.l8 + u * 0x4001000 * y.l7 + u * 0x2001000 * y.l6
      + v * 0x4001000 * y.l5 + v * 0x2001000 * y.l4 + v * 0x4001000 * y.l3 + v * 0x2001000 * y.l2 + v * 0x4001000 * y.l1
      + v * 0x2001000 * y.l0
  {
    MulMono(x.l0, u * 0x4001000, y.l9);
    MulMono(x.l1, u * 0x2001000, y.l8);
    MulMono(x.l2, u * 0x4001000, y.l7);
    MulMono(x.l3, u * 0x2001000, y.l6);
    MulMono(x.l4, v * 0x4001000, y.l5);
    MulMono(x.l5, v * 0x2001000, y.l4);
    MulMono(x.l6, v * 0x4001000, y.l3);
    MulMono(x.l7, v * 0x2001000, y.l2);
    MulMono(x.l8, v * 0x4001000, y.l1);
    MulMono(x.l9, v * 0x2001000, y.l0);
  }

  /** For two sums or differences the carry out of column 9 fits 32 bits.  This is what the
      carries in Sub are for: three units in every limb would be too much. */
  lemma NinthFits(x: Fe32, y: Fe32)
    requires Basic(x) && Basic(y)
    ensures Low(x, y).c9 < 0x1fe_0000_0000_0000
  {
    hide Low;
    if Profile(x, 2, 2) {
      Ninth(x, y, 2, 2);
    } else {
      Ninth(x, y, 1, 3);
    }
  }

  /** Three units in every limb of both factors give a carry that does not fit 32 bits. */
  lemma UncarriedIsTooLarge()
    ensures var x := Fe32(0xc000000, 0x6000000, 0xc000000, 0x6000000, 0xc000000, 0x6000000, 0xc000000, 0x6000000,
      0xc000000, 0x6000000);
      Loose(x) && Low(x, x).c9 / 0x2000000 >= 0x1_0000_0000
  {
    hide Low, Mul64;
    var x := Fe32(0xc000000, 0x6000000, 0xc000000, 0x6000000, 0xc000000, 0x6000000, 0xc000000, 0x6000000, 0xc000000,
      0x6000000);
    LowColumns(x, x);
    ProductOf(0xc000000, 0x6000000, 0x48_0000_0000_0000);
    ProductOf(0x6000000, 0xc000000, 0x48_0000_0000_0000);
  }

  lemma ProductOf(a: u32, b: u32, c: int)
    requires a * b == c
    ensures Mul64(a, b) == c
  {
  }

  // ----- the multiplication -----

  /** Multiplying a limb by a constant multiplies its products. */
  lemma ScaledRow(c: nat, a: u32, y: Fe32)
    requires c * a < 0x1_0000_0000
    ensures Mul64(c * a, y.l0) == c * Mul64(a, y.l0) && Mul64(c * a, y.l1) == c * Mul64(a, y.l1)
      && Mul64(c * a, y.l2) == c * Mul64(a, y.l2) && Mul64(c * a, y.l3) == c * Mul64(a, y.l3)
        && Mul64(c * a, y.l4) == c * Mul64(a, y.l4)
    ensures Mul64(c * a, y.l5) == c * Mul64(a, y.l5) && Mul64(c * a, y.l6) == c * Mul64(a, y.l6)
      && Mul64(c * a, y.l7) == c * Mul64(a, y.l7) && Mul64(c * a, y.l8) == c * Mul64(a, y.l8)
        && Mul64(c * a, y.l9) == c * Mul64(a, y.l9)
  {
    hide Mul64;
    Scaled(c, a, y.l0); Scaled(c, a, y.l1); Scaled(c, a, y.l2); Scaled(c, a, y.l3); Scaled(c, a, y.l4);
    Scaled(c, a, y.l5); Scaled(c, a, y.l6); Scaled(c, a, y.l7); Scaled(c, a, y.l8); Scaled(c, a, y.l9);
  }

  lemma RowsFit(r: Fe32)
    requires Loose(r)
    ensures 38 * r.l1 < 0x1_0000_0000 && 19 * r.l2 < 0x1_0000_0000 && 38 * r.l3 < 0x1_0000_0000
      && 19 * r.l4 < 0x1_0000_0000
    ensures 38 * r.l5 < 0x1_0000_0000 && 19 * r.l6 < 0x1_0000_0000 && 38 * r.l7 < 0x1_0000_0000
      && 19 * r.l8 < 0x1_0000_0000
    ensures 38 * r.l9 < 0x1_0000_0000
  {
  }

  lemma Scaled(c: nat, a: u32, b: u32)
    requires c * a < 0x1_0000_0000
    ensures Mul64(c * a, b) == c * Mul64(a, b)
  {
  }

  lemma LowColumns(x: Fe32, y: Fe32)
    ensures var k := Low(x, y);
      && k.c0 == Mul64(x.l0, y.l0)
      && k.c1 == Mul64(x.l0, y.l1) + Mul64(x.l1, y.l0)
      && k.c2 == Mul64(x.l0, y.l2) + Mul64(x.l2, y.l0) + 2 * (Mul64(x.l1, y.l1))
      && k.c3 == Mul64(x.l0, y.l3) + Mul64(x.l1, y.l2) + Mul64(x.l2, y.l1) + Mul64(x.l3, y.l0)
      && k.c4 == Mul64(x.l0, y.l4) + Mul64(x.l2, y.l2) + Mul64(x.l4, y.l0) + 2 * (Mul64(x.l1, y.l3) + Mul64(x.l3, y.l1))
      && k.c5 == Mul64(x.l0, y.l5) + Mul64(x.l1, y.l4) + Mul64(x.l2, y.l3) + Mul64(x.l3, y.l2) + Mul64(x.l4, y.l1)
        + Mul64(x.l5, y.l0)
      && k.c6 == Mul64(x.l0, y.l6) + Mul64(x.l2, y.l4) + Mul64(x.l4, y.l2) + Mul64(x.l6, y.l0)
        + 2 * (Mul64(x.l1, y.l5) + Mul64(x.l3, y.l3) + Mul64(x.l5, y.l1))
      && k.c7 == Mul64(x.l0, y.l7) + Mul64(x.l1, y.l6) + Mul64(x.l2, y.l5) + Mul64(x.l3, y.l4) + Mul64(x.l4, y.l3)
        + Mul64(x.l5, y.l2) + Mul64(x.l6, y.l1) + Mul64(x.l7, y.l0)
      && k.c8 == Mul64(x.l0, y.l8) + Mul64(x.l2, y.l6) + Mul64(x.l4, y.l4) + Mul64(x.l6, y.l2) + Mul64(x.l8, y.l0)
        + 2 * (Mul64(x.l1, y.l7) + Mul64(x.l3, y.l5) + Mul64(x.l5, y.l3) + Mul64(x.l7, y.l1))
      && k.c9 == Mul64(x.l0, y.l9) + Mul64(x.l1, y.l8) + Mul64(x.l2, y.l7) + Mul64(x.l3, y.l6) + Mul64(x.l4, y.l5)
        + Mul64(x.l5, y.l4) + Mul64(x.l6, y.l3) + Mul64(x.l7, y.l2) + Mul64(x.l8, y.l1) + Mul64(x.l9, y.l0)
  {
  }

  lemma HighColumns(x: Fe32, y: Fe32)
    ensures var k := High(x, y);
      && k.c0 == Mul64(x.l2, y.l8) + Mul64(x.l4, y.l6) + Mul64(x.l6, y.l4) + Mul64(x.l8, y.l2)
        + 2 * (Mul64(x.l1, y.l9) + Mul64(x.l3, y.l7) + Mul64(x.l5, y.l5) + Mul64(x.l7, y.l3) + Mul64(x.l9, y.l1))
      && k.c1 == Mul64(x.l2, y.l9) + Mul64(x.l3, y.l8) + Mul64(x.l4, y.l7) + Mul64(x.l5, y.l6) + Mul64(x.l6, y.l5)
        + Mul64(x.l7, y.l4) + Mul64(x.l8, y.l3) + Mul64(x.l9, y.l2)
      && k.c2 == Mul64(x.l4, y.l8) + Mul64(x.l6, y.l6) + Mul64(x.l8, y.l4)
        + 2 * (Mul64(x.l3, y.l9) + Mul64(x.l5, y.l7) + Mul64(x.l7, y.l5) + Mul64(x.l9, y.l3))
      && k.c3 == Mul64(x.l4, y.l9) + Mul64(x.l5, y.l8) + Mul64(x.l6, y.l7) + Mul64(x.l7, y.l6) + Mul64(x.l8, y.l5)
        + Mul64(x.l9, y.l4)
      && k.c4 == Mul64(x.l6, y.l8) + Mul64(x.l8, y.l6) + 2 * (Mul64(x.l5, y.l9) + Mul64(x.l7, y.l7) + Mul64(x.l9, y.l5))
      && k.c5 == Mul64(x.l6, y.l9) + Mul64(x.l7, y.l8) + Mul64(x.l8, y.l7) + Mul64(x.l9, y.l6)
      && k.c6 == Mul64(x.l8, y.l8) + 2 * (Mul64(x.l7, y.l9) + Mul64(x.l9, y.l7))
      && k.c7 == Mul64(x.l8, y.l9) + Mul64(x.l9, y.l8)
      && k.c8 == 2 * (Mul64(x.l9, y.l9))
      && k.c9 == 0
  {
  }

  /** The ten folded columns. */
  method Columns(s: Fe32, r: Fe32)
      returns (m0: u64, m1: u64, m2: u64, m3: u64, m4: u64, m5: u64, m6: u64, m7: u64, m8: u64, m9: u64)
    requires Loose(s) && Loose(r)
    ensures var l, k := Low(r, s), High(r, s);
      && m0 == l.c0 + 19 * k.c0 && m1 == l.c1 + 19 * k.c1 && m2 == l.c2 + 19 * k.c2 && m3 == l.c3 + 19 * k.c3
        && m4 == l.c4 + 19 * k.c4
      && m5 == l.c5 + 19 * k.c5 && m6 == l.c6 + 19 * k.c6 && m7 == l.c7 + 19 * k.c7 && m8 == l.c8 + 19 * k.c8
        && m9 == l.c9 + 19 * k.c9
  {
    hide Mul64, Low, High, Profile;
    RowsFit(r);
    ColumnsFit(r, s);
    LowColumns(r, s);
    HighColumns(r, s);
    ScaledRow(2, r.l1, s);
    ScaledRow(2, r.l3, s);
    ScaledRow(2, r.l5, s);
    ScaledRow(2, r.l7, s);
    ScaledRow(19, r.l3, s);
    ScaledRow(19, r.l5, s);
    ScaledRow(19, r.l7, s);
    ScaledRow(19, r.l9, s);
    ScaledRow(19, r.l2, s);
    ScaledRow(19, r.l4, s);
    ScaledRow(19, r.l6, s);
    ScaledRow(19, r.l8, s);
    ScaledRow(38, r.l1, s);
    ScaledRow(38, r.l3, s);
    ScaledRow(38, r.l5, s);
    ScaledRow(38, r.l7, s);
    ScaledRow(38, r.l9, s);
    var r0, r1, r2, r3, r4, r5, r6, r7, r8, r9 := r.l0, r.l1, r.l2, r.l3, r.l4, r.l5, r.l6, r.l7, r.l8, r.l9;
    var s0, s1, s2, s3, s4, s5, s6, s7, s8, s9 := s.l0, s.l1, s.l2, s.l3, s.l4, s.l5, s.l6, s.l7, s.l8, s.l9;
    m1 := Mul64(r0, s1) + Mul64(r1, s0);
    m3 := Mul64(r0, s3) + Mul64(r1, s2) + Mul64(r2, s1) + Mul64(r3, s0);
    m5 := Mul64(r0, s5) + Mul64(r1, s4) + Mul64(r2, s3) + Mul64(r3, s2) + Mul64(r4, s1) + Mul64(r5, s0);
    m7 := Mul64(r0, s7) + Mul64(r1, s6) + Mul64(r2, s5) + Mul64(r3, s4) + Mul64(r4, s3) + Mul64(r5, s2) + Mul64(r6, s1)
      + Mul64(r7, s0);
    m9 := Mul64(r0, s9) + Mul64(r1, s8) + Mul64(r2, s7) + Mul64(r3, s6) + Mul64(r4, s5) + Mul64(r5, s4) + Mul64(r6, s3)
      + Mul64(r7, s2) + Mul64(r8, s1) + Mul64(r9, s0);
    r1, r3, r5, r7 := 2 * r1, 2 * r3, 2 * r5, 2 * r7;
    m0 := Mul64(r0, s0);
    m2 := Mul64(r0, s2) + Mul64(r1, s1) + Mul64(r2, s0);
    m4 := Mul64(r0, s4) + Mul64(r1, s3) + Mul64(r2, s2) + Mul64(r3, s1) + Mul64(r4, s0);
    m6 := Mul64(r0, s6) + Mul64(r1, s5) + Mul64(r2, s4) + Mul64(r3, s3) + Mul64(r4, s2) + Mul64(r5, s1) + Mul64(r6, s0);
    m8 := Mul64(r0, s8) + Mul64(r1, s7) + Mul64(r2, s6) + Mul64(r3, s5) + Mul64(r4, s4) + Mul64(r5, s3) + Mul64(r6, s2)
      + Mul64(r7, s1) + Mul64(r8, s0);
    r1, r2, r3, r4, r5, r6, r7, r8, r9 := 19 * r1, 19 * r2, 19 * (r3 / 2), 19 * r4, 19 * (r5 / 2), 19 * r6,
      19 * (r7 / 2), 19 * r8, 19 * r9;
    m1 := m1 + Mul64(r9, s2) + Mul64(r8, s3) + Mul64(r7, s4) + Mul64(r6, s5) + Mul64(r5, s6) + Mul64(r4, s7)
      + Mul64(r3, s8) + Mul64(r2, s9);
    m3 := m3 + Mul64(r9, s4) + Mul64(r8, s5) + Mul64(r7, s6) + Mul64(r6, s7) + Mul64(r5, s8) + Mul64(r4, s9);
    m5 := m5 + Mul64(r9, s6) + Mul64(r8, s7) + Mul64(r7, s8) + Mul64(r6, s9);
    m7 := m7 + Mul64(r9, s8) + Mul64(r8, s9);
    r3, r5, r7, r9 := 2 * r3, 2 * r5, 2 * r7, 2 * r9;
    m0 := m0 + Mul64(r9, s1) + Mul64(r8, s2) + Mul64(r7, s3) + Mul64(r6, s4) + Mul64(r5, s5) + Mul64(r4, s6)
      + Mul64(r3, s7) + Mul64(r2, s8) + Mul64(r1, s9);
    m2 := m2 + Mul64(r9, s3) + Mul64(r8, s4) + Mul64(r7, s5) + Mul64(r6, s6) + Mul64(r5, s7) + Mul64(r4, s8)
      + Mul64(r3, s9);
    m4 := m4 + Mul64(r9, s5) + Mul64(r8, s6) + Mul64(r7, s7) + Mul64(r6, s8) + Mul64(r5, s9);
    m6 := m6 + Mul64(r9, s7) + Mul64(r8, s8) + Mul64(r7, s9);
    m8 := m8 + Mul64(r9, s9);
  }

  /** The carries that end a multiplication, up to the one that leaves the last column. */
  method CarryColumns(m0: u64, m1: u64, m2: u64, m3: u64, m4: u64, m5: u64, m6: u64, m7: u64, m8: u64, m9: u64)
    returns (r: Fe32, p: u32, ghost c: Ten)
    requires m0 < 0x7000000000000000 && m1 < 0x7000000000000000 && m2 < 0x7000000000000000 && m3 < 0x7000000000000000
    requires m4 < 0x7000000000000000 && m5 < 0x7000000000000000 && m6 < 0x7000000000000000 && m7 < 0x7000000000000000
    requires m8 < 0x7000000000000000 && m9 < 0x1fe_0000_0000_0000
    ensures Digits255(r) && p == c.c9 && Carried(Ten(m0, m1, m2, m3, m4, m5, m6, m7, m8, m9), r.Digits(), c)
  {
    var r0, c0 := Word26(m0);
    var r1, c1 := Word25(m1 + c0);
    var r2, c2 := Word26(m2 + c1);
    var r3, c3 := Word25(m3 + c2);
    var r4, c4 := Word26(m4 + c3);
    var r5, c5 := Word25(m5 + c4);
    var r6, c6 := Word26(m6 + c5);
    var r7, c7 := Word25(m7 + c6);
    var r8, c8 := Word26(m8 + c7);
    var r9, c9 := Word25(m9 + c8);
    p := c9;
    r := Fe32(r0, r1, r2, r3, r4, r5, r6, r7, r8, r9);
    c := Ten(c0, c1, c2, c3, c4, c5, c6, c7, c8, c9);
  }

  /** Brings the last carry back with the factor 19, and one more carry into limb 1. */
  method FoldCarry(r: Fe32, p: u32) returns (out: Fe32)
    requires Digits255(r)
    ensures Tight(out) && Value(out) == Value(r) + 19 * p
  {
    hide Weigh;
    var m: u64 := r.l0 + 19 * p;
    var q: u32 := m / 0x4000000;
    out := r.(l0 := m % 0x4000000, l1 := r.l1 + q);
    LowestTwo(r.Digits(), out.Digits(), 19 * p, q);
  }

  /** Adding x to limb 0 and moving a carry q on. */
  lemma LowestTwo(r: Ten, t: Ten, x: int, q: int)
    requires t.c0 == r.c0 + x - 0x4000000 * q && t.c1 == r.c1 + q
    requires t.c2 == r.c2 && t.c3 == r.c3 && t.c4 == r.c4 && t.c5 == r.c5 && t.c6 == r.c6 && t.c7 == r.c7
      && t.c8 == r.c8 && t.c9 == r.c9
    ensures Weigh(t) == Weigh(r) + x
  {
    hide Weigh;
    Weights(r);
    Weights(t);
  }

  /** Taking the low 32 bits first does not change the low bits. */
  lemma TruncatedMask(m: nat, a: nat, b: nat)
    requires a > 0 && b > 0 && a * b == 0x1_0000_0000
    ensures m % 0x1_0000_0000 % a == m % a
  {
    var c, l := m / a, m % a;
    var h, k := c / b, c % b;
    assert m == (a * b) * h + (a * k + l) by { assert a * (b * h) == (a * b) * h; }
    MulMono(k, b - 1, a);
    assert a * (b - 1) == a * b - a;
    DivModUnique(m, 0x1_0000_0000, h, a * k + l);
    DivModUnique(a * k + l, a, k, l);
  }

  /** (uint32_t) m & (2^26 - 1), and m >> 26. */
  method Word26(m: u64) returns (r: u32, c: u64)
    ensures r < 0x4000000 && m == r + 0x4000000 * c && c < 0x4000000000
  {
    r, c := m % 0x1_0000_0000 % 0x4000000, m / 0x4000000;
    TruncatedMask(m, 0x4000000, 0x40);
  }

  method Word25(m: u64) returns (r: u32, c: u64)
    ensures r < 0x2000000 && m == r + 0x2000000 * c && c < 0x8000000000
  {
    r, c := m % 0x1_0000_0000 % 0x2000000, m / 0x2000000;
    TruncatedMask(m, 0x2000000, 0x80);
  }

  /** out = a * b for factors that are themselves sums or differences. */
  method Mul(a: Fe32, b: Fe32) returns (out: Fe32)
    requires Basic(a) && Basic(b)
    ensures Tight(out) && Elem(out) == Fp.Mul(Elem(a), Elem(b))
  {
    hide Weigh, Low, High, Value, Profile, Carried, Fp.Mul, Fp.Residue;
    BasicIsLoose(a);
    BasicIsLoose(b);
    ColumnsFit(b, a);
    NinthFits(b, a);
    NoTenth(b, a);
    var m0, m1, m2, m3, m4, m5, m6, m7, m8, m9 := Columns(a, b);
    var r, p, c := CarryColumns(m0, m1, m2, m3, m4, m5, m6, m7, m8, m9);
    out := FoldCarry(r, p);
    ghost var l, u, m := Low(b, a), High(b, a), Ten(m0, m1, m2, m3, m4, m5, m6, m7, m8, m9);
    FoldedColumns(b, a);
    WeighSum(l, u, m);
    Telescope(m, r.Digits(), c);
    ValueOfDigits(r);
    Fp.ProductOfResidues(Value(a), Value(b), Value(out), Weigh(u) + p);
  }

  lemma ValueOfDigits(r: Fe32)
    ensures Value(r) == Weigh(r.Digits())
  {
    hide Weigh;
  }

  lemma NoTenth(x: Fe32, y: Fe32)
    ensures High(x, y).c9 == 0
  {
  }

  lemma WeighSum(l: Ten, u: Ten, m: Ten)
    requires m.c0 == l.c0 + 19 * u.c0 && m.c1 == l.c1 + 19 * u.c1 && m.c2 == l.c2 + 19 * u.c2
      && m.c3 == l.c3 + 19 * u.c3 && m.c4 == l.c4 + 19 * u.c4 && m.c5 == l.c5 + 19 * u.c5 && m.c6 == l.c6 + 19 * u.c6
      && m.c7 == l.c7 + 19 * u.c7 && m.c8 == l.c8 + 19 * u.c8 && m.c9 == l.c9 + 19 * u.c9
    ensures Weigh(m) == Weigh(l) + 19 * Weigh(u)
  {
    hide Weigh;
    Weights(l);
    Weights(u);
    Weights(m);
  }

  // ----- squaring -----

  /** Multiplying both factors by constants multiplies the product by both. */
  lemma ScaledBoth(c: nat, a: u32, d: nat, b: u32)
    requires c * a < 0x1_0000_0000 && d * b < 0x1_0000_0000
    ensures Mul64(c * a, d * b) == c * d * Mul64(a, b)
  {
    var u, v := a as int, b as int;
    assert (c * u) * (d * v) == (c * d) * (u * v);
  }

  lemma Swapped()
    ensures forall a: u32, b: u32 :: Mul64(a, b) == Mul64(b, a)
  {
    forall a: u32, b: u32
      ensures Mul64(a, b) == Mul64(b, a)
    {
      assert (a as int) * b == (b as int) * a;
    }
  }

  /** In a square the mixed products come in equal pairs. */
  lemma LowOfSquare(x: Fe32)
    ensures var k := Low(x, x);
      && k.c0 == Mul64(x.l0, x.l0)
      && k.c1 == 2 * Mul64(x.l0, x.l1)
      && k.c2 == 2 * Mul64(x.l0, x.l2) + 2 * Mul64(x.l1, x.l1)
      && k.c3 == 2 * Mul64(x.l0, x.l3) + 2 * Mul64(x.l1, x.l2)
      && k.c4 == 2 * Mul64(x.l0, x.l4) + 4 * Mul64(x.l1, x.l3) + Mul64(x.l2, x.l2)
      && k.c5 == 2 * Mul64(x.l0, x.l5) + 2 * Mul64(x.l1, x.l4) + 2 * Mul64(x.l2, x.l3)
      && k.c6 == 2 * Mul64(x.l0, x.l6) + 4 * Mul64(x.l1, x.l5) + 2 * Mul64(x.l2, x.l4) + 2 * Mul64(x.l3, x.l3)
      && k.c7 == 2 * Mul64(x.l0, x.l7) + 2 * Mul64(x.l1, x.l6) + 2 * Mul64(x.l2, x.l5) + 2 * Mul64(x.l3, x.l4)
      && k.c8 == 2 * Mul64(x.l0, x.l8) + 4 * Mul64(x.l1, x.l7) + 2 * Mul64(x.l2, x.l6) + 4 * Mul64(x.l3, x.l5)
        + Mul64(x.l4, x.l4)
      && k.c9 == 2 * Mul64(x.l0, x.l9) + 2 * Mul64(x.l1, x.l8) + 2 * Mul64(x.l2, x.l7) + 2 * Mul64(x.l3, x.l6)
        + 2 * Mul64(x.l4, x.l5)
  {
    hide Mul64, Low;
    LowColumns(x, x);
    Swapped();
  }

  lemma HighOfSquare(x: Fe32)
    ensures var k := High(x, x);
      && 19 * k.c0 == 76 * Mul64(x.l9, x.l1) + 38 * Mul64(x.l8, x.l2) + 76 * Mul64(x.l7, x.l3) + 38 * Mul64(x.l6, x.l4)
        + 38 * Mul64(x.l5, x.l5)
      && 19 * k.c1 == 38 * Mul64(x.l9, x.l2) + 38 * Mul64(x.l8, x.l3) + 38 * Mul64(x.l7, x.l4) + 38 * Mul64(x.l6, x.l5)
      && 19 * k.c2 == 76 * Mul64(x.l9, x.l3) + 38 * Mul64(x.l8, x.l4) + 76 * Mul64(x.l7, x.l5) + 19 * Mul64(x.l6, x.l6)
      && 19 * k.c3 == 38 * Mul64(x.l9, x.l4) + 38 * Mul64(x.l8, x.l5) + 38 * Mul64(x.l7, x.l6)
      && 19 * k.c4 == 76 * Mul64(x.l9, x.l5) + 38 * Mul64(x.l8, x.l6) + 38 * Mul64(x.l7, x.l7)
      && 19 * k.c5 == 38 * Mul64(x.l9, x.l6) + 38 * Mul64(x.l8, x.l7)
      && 19 * k.c6 == 76 * Mul64(x.l9, x.l7) + 19 * Mul64(x.l8, x.l8)
      && 19 * k.c7 == 38 * Mul64(x.l9, x.l8)
      && 19 * k.c8 == 38 * Mul64(x.l9, x.l9)
      && k.c9 == 0
  {
    hide Mul64, High;
    HighColumns(x, x);
    Swapped();
  }

  /** The low columns of a square, each mixed product formed once with a factor doubled. */
  method LowSquares(x: Fe32)
    returns (m0: u64, m1: u64, m2: u64, m3: u64, m4: u64, m5: u64, m6: u64, m7: u64, m8: u64, m9: u64)
    requires Loose(x)
    ensures Ten(m0, m1, m2, m3, m4, m5, m6, m7, m8, m9) == Low(x, x)
  {
    hide Mul64, Low, High, Profile;
    RowsFit(x);
    HalvesFit(x);
    ColumnsFit(x, x);
    HighIsNatural(x, x);
    LowOfSquare(x);
    ScaledBoth(2, x.l0, 1, x.l1); ScaledBoth(2, x.l0, 1, x.l2); ScaledBoth(1, x.l1, 2, x.l1);
    ScaledBoth(2, x.l0, 1, x.l3);
    ScaledBoth(2, x.l1, 1, x.l2); ScaledBoth(2, x.l0, 1, x.l4); ScaledBoth(2, x.l1, 2, x.l3);
    ScaledBoth(2, x.l0, 1, x.l5);
    ScaledBoth(2, x.l1, 1, x.l4); ScaledBoth(2, x.l2, 1, x.l3); ScaledBoth(2, x.l0, 1, x.l6);
    ScaledBoth(2, x.l1, 2, x.l5);
    ScaledBoth(2, x.l2, 1, x.l4); ScaledBoth(1, x.l3, 2, x.l3); ScaledBoth(2, x.l0, 1, x.l7);
    ScaledBoth(2, x.l1, 1, x.l6);
    ScaledBoth(2, x.l2, 1, x.l5); ScaledBoth(2, x.l3, 1, x.l4); ScaledBoth(2, x.l0, 1, x.l8);
    ScaledBoth(2, x.l1, 2, x.l7);
    ScaledBoth(2, x.l2, 1, x.l6); ScaledBoth(2, x.l3, 2, x.l5); ScaledBoth(2, x.l0, 1, x.l9);
    ScaledBoth(2, x.l1, 1, x.l8);
    ScaledBoth(2, x.l2, 1, x.l7); ScaledBoth(2, x.l3, 1, x.l6); ScaledBoth(1, x.l4, 2, x.l5);
    var r0, r1, r2, r3, r4, r5, r6, r7, r8, r9 := x.l0, x.l1, x.l2, x.l3, x.l4, x.l5, x.l6, x.l7, x.l8, x.l9;
    m0 := Mul64(r0, r0);
    r0 := 2 * r0;
    m1 := Mul64(r0, r1);
    m2 := Mul64(r0, r2) + Mul64(r1, 2 * r1);
    r1 := 2 * r1;
    m3 := Mul64(r0, r3) + Mul64(r1, r2);
    m4 := Mul64(r0, r4) + Mul64(r1, 2 * r3) + Mul64(r2, r2);
    r2 := 2 * r2;
    m5 := Mul64(r0, r5) + Mul64(r1, r4) + Mul64(r2, r3);
    m6 := Mul64(r0, r6) + Mul64(r1, 2 * r5) + Mul64(r2, r4) + Mul64(r3, 2 * r3);
    r3 := 2 * r3;
    m7 := Mul64(r0, r7) + Mul64(r1, r6) + Mul64(r2, r5) + Mul64(r3, r4);
    m8 := Mul64(r0, r8) + Mul64(r1, 2 * r7) + Mul64(r2, r6) + Mul64(r3, 2 * r5) + Mul64(r4, r4);
    m9 := Mul64(r0, r9) + Mul64(r1, r8) + Mul64(r2, r7) + Mul64(r3, r6) + Mul64(r4, 2 * r5);
  }

  lemma HighIsNatural(x: Fe32, y: Fe32)
    ensures var k := High(x, y);
      && k.c0 >= 0 && k.c1 >= 0 && k.c2 >= 0 && k.c3 >= 0 && k.c4 >= 0 && k.c5 >= 0 && k.c6 >= 0 && k.c7 >= 0
        && k.c8 >= 0 && k.c9 == 0
    ensures var k := Low(x, y);
      && k.c0 >= 0 && k.c1 >= 0 && k.c2 >= 0 && k.c3 >= 0 && k.c4 >= 0 && k.c5 >= 0 && k.c6 >= 0 && k.c7 >= 0
        && k.c8 >= 0
  {
    hide Mul64;
    LowColumns(x, y);
    HighColumns(x, y);
    hide Low, High;
  }

  /** The folded columns of a square: the high ones are added with factor 19. */
  method SquareColumns(x: Fe32)
    returns (m0: u64, m1: u64, m2: u64, m3: u64, m4: u64, m5: u64, m6: u64, m7: u64, m8: u64, m9: u64)
    requires Loose(x)
    ensures var l, k := Low(x, x), High(x, x);
      && m0 == l.c0 + 19 * k.c0 && m1 == l.c1 + 19 * k.c1 && m2 == l.c2 + 19 * k.c2 && m3 == l.c3 + 19 * k.c3
      && m4 == l.c4 + 19 * k.c4 && m5 == l.c5 + 19 * k.c5 && m6 == l.c6 + 19 * k.c6 && m7 == l.c7 + 19 * k.c7
      && m8 == l.c8 + 19 * k.c8 && m9 == l.c9 + 19 * k.c9
  {
    hide Mul64, Low, High, Profile;
    m0, m1, m2, m3, m4, m5, m6, m7, m8, m9 := LowSquares(x);
    RowsFit(x);
    HalvesFit(x);
    ColumnsFit(x, x);
    HighIsNatural(x, x);
    HighOfSquare(x);
    ScaledBoth(38, x.l9, 2, x.l1); ScaledBoth(19, x.l8, 2, x.l2); ScaledBoth(38, x.l7, 2, x.l3);
    ScaledBoth(19, x.l6, 2, x.l4);
    ScaledBoth(1, x.l5, 38, x.l5); ScaledBoth(38, x.l9, 1, x.l2); ScaledBoth(19, x.l8, 2, x.l3);
    ScaledBoth(38, x.l7, 1, x.l4);
    ScaledBoth(19, x.l6, 2, x.l5); ScaledBoth(38, x.l9, 2, x.l3); ScaledBoth(19, x.l8, 2, x.l4);
    ScaledBoth(38, x.l7, 2, x.l5);
    ScaledBoth(19, x.l6, 1, x.l6); ScaledBoth(38, x.l9, 1, x.l4); ScaledBoth(19, x.l8, 2, x.l5);
    ScaledBoth(38, x.l7, 1, x.l6);
    ScaledBoth(38, x.l9, 2, x.l5); ScaledBoth(19, x.l8, 2, x.l6); ScaledBoth(38, x.l7, 1, x.l7);
    ScaledBoth(38, x.l9, 1, x.l6);
    ScaledBoth(19, x.l8, 2, x.l7); ScaledBoth(38, x.l9, 2, x.l7); ScaledBoth(19, x.l8, 1, x.l8);
    ScaledBoth(38, x.l9, 1, x.l8);
    ScaledBoth(38, x.l9, 1, x.l9);
    var r1, r2, r3, r4, r5, r6, r7, r8, r9 := 2 * x.l1, 2 * x.l2, 2 * x.l3, x.l4, x.l5, x.l6, x.l7, x.l8, x.l9;
    var d6, d7, d8, d9 := 19 * r6, 38 * r7, 19 * r8, 38 * r9;
    m0 := m0 + Mul64(d9, r1) + Mul64(d8, r2) + Mul64(d7, r3) + Mul64(d6, 2 * r4) + Mul64(r5, 38 * r5);
    m1 := m1 + Mul64(d9, r2 / 2) + Mul64(d8, r3) + Mul64(d7, r4) + Mul64(d6, 2 * r5);
    m2 := m2 + Mul64(d9, r3) + Mul64(d8, 2 * r4) + Mul64(d7, 2 * r5) + Mul64(d6, r6);
    m3 := m3 + Mul64(d9, r4) + Mul64(d8, 2 * r5) + Mul64(d7, r6);
    m4 := m4 + Mul64(d9, 2 * r5) + Mul64(d8, 2 * r6) + Mul64(d7, r7);
    m5 := m5 + Mul64(d9, r6) + Mul64(d8, 2 * r7);
    m6 := m6 + Mul64(d9, 2 * r7) + Mul64(d8, r8);
    m7 := m7 + Mul64(d9, r8);
    m8 := m8 + Mul64(d9, r9);
  }

  lemma HalvesFit(r: Fe32)
    requires Loose(r)
    ensures 2 * r.l0 < 0x1_0000_0000 && 2 * r.l2 < 0x1_0000_0000 && 2 * r.l4 < 0x1_0000_0000 && 2 * r.l6 < 0x1_0000_0000
  {
  }

  /** out = in^2. */
  method Square(input: Fe32) returns (out: Fe32)
    requires Basic(input)
    ensures Tight(out) && Elem(out) == Fp.Mul(Elem(input), Elem(input))
  {
    hide Weigh, Low, High, Value, Profile, Carried, Fp.Mul, Fp.Residue;
    BasicIsLoose(input);
    ColumnsFit(input, input);
    NinthFits(input, input);
    NoTenth(input, input);
    var m0, m1, m2, m3, m4, m5, m6, m7, m8, m9 := SquareColumns(input);
    var r, p, c := CarryColumns(m0, m1, m2, m3, m4, m5, m6, m7, m8, m9);
    out := FoldCarry(r, p);
    ghost var l, u, m := Low(input, input), High(input, input), Ten(m0, m1, m2, m3, m4, m5, m6, m7, m8, m9);
    FoldedColumns(input, input);
    WeighSum(l, u, m);
    Telescope(m, r.Digits(), c);
    ValueOfDigits(r);
    Fp.ProductOfResidues(Value(input), Value(input), Value(out), Weigh(u) + p);
  }

  /** out = in^(2^count), by the same round count times. */
  method SquareTimes(input: Fe32, count: u32) returns (out: Fe32)
    requires Basic(input) && count > 0
    ensures Tight(out)
    ensures Elem(out) == Fp.Pow(Elem(input), Pow2(count))
  {
    hide Fp.Mul, Fp.Residue, Elem, Profile;
    out := input;
    Fp.PowOne(Elem(input));
    var left: u32 := count;
    ghost var x := Elem(input);
    while left > 0
      invariant left <= count
      invariant Basic(out) && (left < count ==> Tight(out))
      invariant Elem(out) == Fp.Pow(x, Pow2(count - left))
    {
      out := Square(out);
      TightIsBasic(out);
      ghost var n := Pow2(count - left);
      Fp.PowAdd(x, n, n);
      left := left - 1;
    }
  }

  lemma TightIsBasic(f: Fe32)
    requires Tight(f)
    ensures Basic(f)
  {
  }
}
