/** Arithmetic modulo the group order in five 56-bit limbs. */
module Modm64 {
  import opened Words

  /** The order of the base point. */
  const L: nat := 0x1000000000000000000000000000000014def9dea2f79cd65812631a5cf5d3ed

  /** floor(2^512 / L). */
  const MU: nat := 0xfffffffffffffffffffffffffffffffeb2106215d086329a7ed9ce5a30a2c131b

  /** L = 2^252 + 27742317777372353535851937790883648493 (section 5.1 of RFC 8032), and MU is the
      quotient it is said to be. */
  lemma OrderConstants()
    ensures L == 0x1000000000000000000000000000000000000000000000000000000000000000
      + 27742317777372353535851937790883648493
    ensures L * MU <= 0x1_0000_0000_0000_0000_0000_0000_0000_0000 * 0x1_0000_0000_0000_0000_0000_0000_0000_0000
      * 0x1_0000_0000_0000_0000_0000_0000_0000_0000 * 0x1_0000_0000_0000_0000_0000_0000_0000_0000 < L * (MU + 1)
  {
  }

  /** Five limbs, least significant first. */
  datatype Limbs = Limbs(l0: u64, l1: u64, l2: u64, l3: u64, l4: u64)

  /** The integer that five limbs of 56 bits denote. */
  function Value(a: Limbs): int {
    a.l0 + 0x100000000000000 * a.l1 + 0x10000000000000000000000000000 * a.l2
    + 0x1000000000000000000000000000000000000000000 * a.l3
    + 0x100000000000000000000000000000000000000000000000000000000 * a.l4
  }

  /** Every limb but the last is below 2^56, the last below the given bound. */
  predicate Carried(a: Limbs, top: int) {
    a.l0 < 0x100000000000000 && a.l1 < 0x100000000000000 && a.l2 < 0x100000000000000 && a.l3 < 0x100000000000000
    && a.l4 < top
  }

  predicate Reduced(a: Limbs) {
    Carried(a, 0x100000000000000) && Value(a) < L
  }

  const MODM_M := Limbs(0x12631a5cf5d3ed, 0xf9dea2f79cd658, 0x000000000014de, 0x00000000000000, 0x00000010000000)

  function Read(a: array<u64>): Limbs
    requires a.Length == 5
    reads a
  {
    Limbs(a[0], a[1], a[2], a[3], a[4])
  }

  /** The borrow of a - b: its sign bit. */
  function LtModm(a: u64, b: u64): (r: u64)
    ensures a < 0x8000_0000_0000_0000 && b < 0x8000_0000_0000_0000 ==> r == if a < b then 1 else 0
  {
    Sub64(a, b) / 0x8000_0000_0000_0000
  }

  /** x ^ (mask & (x ^ y)) for a mask of all zeros or all ones. */
  function Select(mask: u64, x: u64, y: u64): u64
    requires mask == 0 || mask == 0xffff_ffff_ffff_ffff
  {
    if mask == 0 then x else y
  }

  /** One limb of a subtraction: t = x - pb + (b << shift) with b the borrow out. */
  method SubStep(x: u64, pb: u64) returns (t: u64, b: u64)
    requires x < 0x100000000000000 && pb <= 0x100000000000000
    ensures b == (if x < pb then 1 else 0) && t == x - pb + 0x100000000000000 * b
  {
    b := LtModm(x, pb);
    t := Add64(Sub64(x, pb), b * 0x100000000000000);
  }

  /** The last limb of a subtraction, whose borrow is worth only 2^top. */
  method SubLast(x: u64, pb: u64, top: u64) returns (t: u64, b: u64)
    requires x < 0x100000000000000 && pb <= 0x100000000000000 && pb <= top <= 0x100000000000000
    ensures b == (if x < pb then 1 else 0) && t == x - pb + top * b
  {
    b := LtModm(x, pb);
    t := Add64(Sub64(x, pb), b * top);
  }

  /** The borrow chain of r - m, limb by limb, is negative exactly when r < m. */
  lemma BorrowChain(r: Limbs, m: Limbs, t: Limbs, b0: int, b1: int, b2: int, b3: int, b: int, top: int)
    requires Carried(r, 0x100000000000000) && Carried(m, 0x100000000000000)
    requires t.l0 == r.l0 - m.l0 + 0x100000000000000 * b0 < 0x100000000000000
    requires t.l1 == r.l1 - m.l1 - b0 + 0x100000000000000 * b1 < 0x100000000000000
    requires t.l2 == r.l2 - m.l2 - b1 + 0x100000000000000 * b2 < 0x100000000000000
    requires t.l3 == r.l3 - m.l3 - b2 + 0x100000000000000 * b3 < 0x100000000000000
    requires b == (if r.l4 < m.l4 + b3 then 1 else 0)
    requires t.l4 == r.l4 - m.l4 - b3 + top * b
    ensures Value(t) == Value(r) - Value(m) + 0x100000000000000000000000000000000000000000000000000000000 * top * b
    ensures b == if Value(r) < Value(m) then 1 else 0
    ensures b == 0 ==> Carried(t, 0x100000000000000)
  {
  }

  lemma ModulusLimbs()
    ensures Value(MODM_M) == L
  {
  }

  /** Subtracts the modulus unless the value is already below it. */
  method Reduce256(r: array<u64>)
    requires r.Length == 5 && Carried(Read(r), 0x100000000000000)
    modifies r
    ensures Carried(Read(r), 0x100000000000000)
    ensures Value(Read(r)) == if Value(old(Read(r))) < L then Value(old(Read(r))) else Value(old(Read(r))) - L
  {
    var t0, b0 := SubStep(r[0], 0x12631a5cf5d3ed);
    var t1, b1 := SubStep(r[1], b0 + 0xf9dea2f79cd658);
    var t2, b2 := SubStep(r[2], b1 + 0x000000000014de);
    var t3, b3 := SubStep(r[3], b2 + 0x00000000000000);
    var t4, b := SubLast(r[4], b3 + 0x10000000, 0x100000000);
    BorrowChain(Read(r), MODM_M, Limbs(t0, t1, t2, t3, t4), b0, b1, b2, b3, b, 0x100000000);
    ModulusLimbs();
    hide Value;
    var mask: u64 := Sub64(b, 1);
    r[0] := Select(mask, r[0], t0);
    r[1] := Select(mask, r[1], t1);
    r[2] := Select(mask, r[2], t2);
    r[3] := Select(mask, r[3], t3);
    r[4] := Select(mask, r[4], t4);
    assert Read(r) == if b == 1 then old(Read(r)) else Limbs(t0, t1, t2, t3, t4);
  }

  /** The 264-bit words of the reduction: four limbs of 56 bits and one of 40. */
  predicate Wide(a: Limbs) {
    Carried(a, 0x10000000000)
  }

  /** The pieces of one column of the quotient: bits 0..39 moved up by 16, bits
      40..55, and the carry above bit 56. */
  method SplitColumn(c: u128) returns (lo: u64, hi: u64, f: u64, ghost low: int)
    requires c < 0x1000000000000000000000000000000
    ensures lo == 0x10000 * low && lo % 0x10000 == 0 && 0 <= low < 0x10000000000 && hi < 0x10000
    ensures c == low + 0x10000000000 * hi + 0x100000000000000 * f
  {
    var w: u64 := c % 0x1_0000_0000_0000_0000;
    low := w % 0x10000000000;
    hi := w / 0x10000000000 % 0x10000;
    ghost var up := w / 0x10000000000 / 0x10000;
    assert w == low + 0x10000000000 * hi + 0x100000000000000 * up;
    ShiftedMask(w * 0x10000, hi + 0x10000 * up, 0x10000 * low);
    lo := w * 0x10000 % 0x1_0000_0000_0000_0000 % 0x100000000000000;
    f := c / 0x100000000000000;
    CarryOut(c, c / 0x1_0000_0000_0000_0000, w, up);
  }

  lemma ShiftedMask(a: int, k: int, r: int)
    requires a == 0x100000000000000 * k + r && 0 <= r < 0x100000000000000 && 0 <= k
    ensures a % 0x1_0000_0000_0000_0000 % 0x100000000000000 == r
  {
    var h := k / 0x100;
    var l := k - 0x100 * h;
    DivModUnique(a, 0x1_0000_0000_0000_0000, h, 0x100000000000000 * l + r);
    DivModUnique(0x100000000000000 * l + r, 0x100000000000000, l, r);
  }

  lemma CarryOut(c: int, h: int, w: int, up: int)
    requires c == 0x1_0000_0000_0000_0000 * h + w && 0 <= up < 0x100
    requires 0 <= w - 0x100000000000000 * up < 0x100000000000000
    ensures c / 0x100000000000000 == 0x100 * h + up
  {
  }

  /** Bitwise or of two words that share no bit: the low 16 bits and the rest. */
  function Or16(lo: u64, hi: u64): u64
    requires lo < 0x10000 && hi % 0x10000 == 0 && hi <= 0x1_0000_0000_0000_0000 - 0x10000
  {
    lo + hi
  }

  /** f << 16 for a word that has room for it. */
  function Shl16(f: u64): (r: u64)
    requires f < 0x1000000000000
    ensures r % 0x10000 == 0 && r == 0x10000 * f <= 0x1_0000_0000_0000_0000 - 0x10000
  {
    f * 0x10000
  }

  /** Columns 3 to 8 of mu * q1, for the limbs 0x9ce5a30a2c131b, 0x215d086329a7ed,
      0xffffffffeb2106, 0xffffffffffffff, 0x00000fffffffff of mu. */
  function Column3(q: Limbs): nat {
    0x9ce5a30a2c131b * q.l3 + 0xffffffffffffff * q.l0 + 0x215d086329a7ed * q.l2 + 0xffffffffeb2106 * q.l1
  }

  function Column4(q: Limbs): nat {
    0x9ce5a30a2c131b * q.l4 + 0x00000fffffffff * q.l0 + 0xffffffffffffff * q.l1 + 0x215d086329a7ed * q.l3
      + 0xffffffffeb2106 * q.l2
  }

  function Column5(q: Limbs): nat {
    0x00000fffffffff * q.l1 + 0x215d086329a7ed * q.l4 + 0xffffffffeb2106 * q.l3 + 0xffffffffffffff * q.l2
  }

  function Column6(q: Limbs): nat {
    0x00000fffffffff * q.l2 + 0xffffffffeb2106 * q.l4 + 0xffffffffffffff * q.l3
  }

  function Column7(q: Limbs): nat {
    0x00000fffffffff * q.l3 + 0xffffffffffffff * q.l4
  }

  function Column8(q: Limbs): nat {
    0x00000fffffffff * q.l4
  }

  lemma ColumnsFit(q: Limbs)
    requires Wide(q)
    ensures Column3(q) < 0x400000000000000000000000000 * 0x100 && Column4(q) < 0x500000000000000000000000000 * 0x100
    ensures Column5(q) < 0x400000000000000000000000000 * 0x100 && Column6(q) < 0x300000000000000000000000000 * 0x100
    ensures Column7(q) < 0x200000000000000000000000000 * 0x100 && Column8(q) < 0x10000000000000000000000
  {
  }

  /** The column sum of mu * q1 from column 3 up; columns 0 to 2 are never computed. */
  function HighColumns(q: Limbs): int {
    0x1000000000000000000000000000000000000000000 * Column3(q)
    + 0x100000000000000000000000000000000000000000000000000000000 * Column4(q)
    + 0x10000000000000000000000000000000000000000000000000000000000000000000000 * Column5(q)
    + 0x1000000000000000000000000000000000000000000000000000000000000000000000000000000000000 * Column6(q)
    + 0x100000000000000000000000000000000000000000000000000000000000000000000000000000000000000000000000000 * Column7(q)
    + 0x10000000000000000000000000000000000000000000000000000000000000000000000000000000000000000000000000000000000000000 * Column8(q)
  }

  /** q3 = (mu * q1) >> 264, up to the columns that are dropped. */
  method Quotient(q1: Limbs) returns (q3: Limbs)
    requires Wide(q1)
    ensures Carried(q3, 0x100000000000000)
    ensures 0 <= HighColumns(q1) - 0x1000000000000000000000000000000000000000000000000000000000000000000 * Value(q3)
              < 0x1000000000000000000000000000000000000000000000000000000000000000000
  {
    hide Column3, Column4, Column5, Column6, Column7, Column8;
    ColumnsFit(q1);
    var c3: u128 := Column3(q1);
    var f3: u64 := c3 / 0x100000000000000;
    var lo4, hi4, f4, low4 := SplitColumn(Column4(q1) + f3);
    var lo5, hi5, f5, low5 := SplitColumn(Column5(q1) + f4);
    var lo6, hi6, f6, low6 := SplitColumn(Column6(q1) + f5);
    var lo7, hi7, f7, low7 := SplitColumn(Column7(q1) + f6);
    var lo8, hi8, f8, low8 := SplitColumn(Column8(q1) + f7);
    q3 := Limbs(Or16(hi4, lo5), Or16(hi5, lo6), Or16(hi6, lo7), Or16(hi7, lo8), Or16(hi8, Shl16(f8)));
    QuotientSum(c3 - 0x100000000000000 * f3, f3, Column4(q1), Column5(q1), Column6(q1), Column7(q1), Column8(q1),
                low4, low5, low6, low7, low8, hi4, hi5, hi6, hi7, hi8, f4, f5, f6, f7, f8);
  }

  /** Carries telescope: the columns sum to the quotient above bit 264. */
  lemma QuotientSum(r3: int, f3: int, k4: int, k5: int, k6: int, k7: int, k8: int,
                    low4: int, low5: int, low6: int, low7: int, low8: int,
                    hi4: int, hi5: int, hi6: int, hi7: int, hi8: int,
                    f4: int, f5: int, f6: int, f7: int, f8: int)
    requires 0 <= r3 < 0x100000000000000 && 0 <= low4 < 0x10000000000
    requires k4 + f3 == low4 + 0x10000000000 * hi4 + 0x100000000000000 * f4
    requires k5 + f4 == low5 + 0x10000000000 * hi5 + 0x100000000000000 * f5
    requires k6 + f5 == low6 + 0x10000000000 * hi6 + 0x100000000000000 * f6
    requires k7 + f6 == low7 + 0x10000000000 * hi7 + 0x100000000000000 * f7
    requires k8 + f7 == low8 + 0x10000000000 * hi8 + 0x100000000000000 * f8
    ensures 0 <= 0x1000000000000000000000000000000000000000000 * (r3 + 0x100000000000000 * f3)
        + 0x100000000000000000000000000000000000000000000000000000000 * k4
        + 0x10000000000000000000000000000000000000000000000000000000000000000000000 * k5
        + 0x1000000000000000000000000000000000000000000000000000000000000000000000000000000000000 * k6
        + 0x100000000000000000000000000000000000000000000000000000000000000000000000000000000000000000000000000 * k7
        + 0x10000000000000000000000000000000000000000000000000000000000000000000000000000000000000000000000000000000000000000 * k8
        - 0x1000000000000000000000000000000000000000000000000000000000000000000 *
          (hi4 + 0x10000 * low5 + 0x100000000000000 * (hi5 + 0x10000 * low6)
            + 0x10000000000000000000000000000 * (hi6 + 0x10000 * low7)
           + 0x1000000000000000000000000000000000000000000 * (hi7 + 0x10000 * low8)
           + 0x100000000000000000000000000000000000000000000000000000000 * (hi8 + 0x10000 * f8))
      < 0x1000000000000000000000000000000000000000000000000000000000000000000
  {
  }

  /** Dropping columns 0 to 2 loses less than 2^226 of mu * q1. */
  lemma DroppedColumns(q: Limbs)
    requires Wide(q)
    ensures 0 <= 0xfffffffffffffffffffffffffffffffeb2106215d086329a7ed9ce5a30a2c131b * Value(q) - HighColumns(q)
      < 0x400000000000000000000000000000000000000000000000000000000
  {
    var d := 0x9ce5a30a2c131b * q.l0
      + 0x100000000000000 * (0x9ce5a30a2c131b * q.l1 + 0x215d086329a7ed * q.l0)
      + 0x10000000000000000000000000000 * (0x9ce5a30a2c131b * q.l2 + 0x215d086329a7ed * q.l1 + 0xffffffffeb2106 * q.l0);
    assert 0xfffffffffffffffffffffffffffffffeb2106215d086329a7ed9ce5a30a2c131b * Value(q) == HighColumns(q) + d;
  }

  /** The quotient estimate is never too large and at most two too small. */
  lemma QuotientEstimate(x: int, q1: int, high: int, q3: int)
    requires 0 <= x - 0x100000000000000000000000000000000000000000000000000000000000000 * q1
               < 0x100000000000000000000000000000000000000000000000000000000000000
    requires 0 <= q1 < 0x1000000000000000000000000000000000000000000000000000000000000000000
    requires 0 <= MU * q1 - high < 0x400000000000000000000000000000000000000000000000000000000
    requires 0 <= high - 0x1000000000000000000000000000000000000000000000000000000000000000000 * q3
               < 0x1000000000000000000000000000000000000000000000000000000000000000000
    ensures 0 <= x - L * q3 < 3 * L
  {
  }

  /** One column of r2: the low 56 bits and the carry. */
  method LowColumn(c: u128) returns (lo: u64, f: u64)
    requires c < 0x1000000000000000000000000000000
    ensures lo < 0x100000000000000 && c == lo + 0x100000000000000 * f
  {
    lo := c % 0x1_0000_0000_0000_0000 % 0x100000000000000;
    f := c / 0x100000000000000;
    ShiftedMask(c % 0x1_0000_0000_0000_0000, c % 0x1_0000_0000_0000_0000 / 0x100000000000000, lo);
    CarryOut(c, c / 0x1_0000_0000_0000_0000, c % 0x1_0000_0000_0000_0000,
      c % 0x1_0000_0000_0000_0000 / 0x100000000000000);
  }

  /** The columns of m * q3 from bit 280 up, which r2 leaves out. */
  function LeftOut(q: Limbs): int {
    0xf9dea2f79cd658 * q.l4 + 0x000000000014de * q.l3 + 0x00000010000000 * q.l1
    + 0x100000000000000 * (0x000000000014de * q.l4 + 0x00000010000000 * q.l2)
    + 0x10000000000000000000000000000 * (0x00000010000000 * q.l3)
    + 0x1000000000000000000000000000000000000000000 * (0x00000010000000 * q.l4)
  }

  lemma ModulusProduct(q: Limbs)
    ensures 0x1000000000000000000000000000000014def9dea2f79cd65812631a5cf5d3ed * Value(q)
      == 0x12631a5cf5d3ed * q.l0
       + 0x100000000000000 * (0x12631a5cf5d3ed * q.l1 + 0xf9dea2f79cd658 * q.l0)
       + 0x10000000000000000000000000000 * (0x12631a5cf5d3ed * q.l2 + 0x000000000014de * q.l0 + 0xf9dea2f79cd658 * q.l1)
       + 0x1000000000000000000000000000000000000000000 * (0x12631a5cf5d3ed * q.l3 + 0xf9dea2f79cd658 * q.l2
         + 0x000000000014de * q.l1)
       + 0x100000000000000000000000000000000000000000000000000000000
         * (0x12631a5cf5d3ed * q.l4 + 0x00000010000000 * q.l0 + 0xf9dea2f79cd658 * q.l3 + 0x000000000014de * q.l2)
       + 0x10000000000000000000000000000000000000000000000000000000000000000000000 * LeftOut(q)
  {
  }

  /** r2 = (q3 * m) mod 2^264. */
  method LowProduct(q3: Limbs) returns (r2: Limbs, ghost high: int)
    requires Carried(q3, 0x100000000000000)
    ensures Wide(r2)
    ensures 0x1000000000000000000000000000000014def9dea2f79cd65812631a5cf5d3ed * Value(q3)
         == Value(r2) + 0x1000000000000000000000000000000000000000000000000000000000000000000 * high
  {
    var c0: u128 := 0x12631a5cf5d3ed * q3.l0;
    var r20, f0 := LowColumn(c0);
    var c1: u128 := 0x12631a5cf5d3ed * q3.l1 + f0 + 0xf9dea2f79cd658 * q3.l0;
    var r21, f1 := LowColumn(c1);
    var c2: u128 := 0x12631a5cf5d3ed * q3.l2 + f1 + 0x000000000014de * q3.l0 + 0xf9dea2f79cd658 * q3.l1;
    var r22, f2 := LowColumn(c2);
    var c3: u128 := 0x12631a5cf5d3ed * q3.l3 + f2 + 0x00000000000000 * q3.l0 + 0xf9dea2f79cd658 * q3.l2
      + 0x000000000014de * q3.l1;
    var r23, f3 := LowColumn(c3);
    var c4: u128 := 0x12631a5cf5d3ed * q3.l4 + f3 + 0x00000010000000 * q3.l0 + 0x00000000000000 * q3.l1
      + 0xf9dea2f79cd658 * q3.l3 + 0x000000000014de * q3.l2;
    var r24: u64 := c4 % 0x1_0000_0000_0000_0000 % 0x10000000000;
    ghost var up := TopColumn(c4, r24);
    r2 := Limbs(r20, r21, r22, r23, r24);
    high := up + 0x10000 * LeftOut(q3);
    ModulusProduct(q3);
    CarriesTelescope(c0, c1 - f0, c2 - f1, c3 - f2, c4 - f3, r20, r21, r22, r23, r24, f0, f1, f2, f3, up);
  }

  lemma TopColumn(c: int, r: int) returns (up: int)
    requires 0 <= c && r == c % 0x1_0000_0000_0000_0000 % 0x10000000000
    ensures c == r + 0x10000000000 * up
  {
    var w := c % 0x1_0000_0000_0000_0000;
    up := w / 0x10000000000 + 0x1000000 * (c / 0x1_0000_0000_0000_0000);
  }

  lemma CarriesTelescope(k0: int, k1: int, k2: int, k3: int, k4: int,
                         r0: int, r1: int, r2: int, r3: int, r4: int, f0: int, f1: int, f2: int, f3: int, up: int)
    requires k0 == r0 + 0x100000000000000 * f0
    requires k1 + f0 == r1 + 0x100000000000000 * f1
    requires k2 + f1 == r2 + 0x100000000000000 * f2
    requires k3 + f2 == r3 + 0x100000000000000 * f3
    requires k4 + f3 == r4 + 0x10000000000 * up
    ensures k0 + 0x100000000000000 * k1 + 0x10000000000000000000000000000 * k2
        + 0x1000000000000000000000000000000000000000000 * k3
        + 0x100000000000000000000000000000000000000000000000000000000 * k4
      == r0 + 0x100000000000000 * r1 + 0x10000000000000000000000000000 * r2
        + 0x1000000000000000000000000000000000000000000 * r3
        + 0x100000000000000000000000000000000000000000000000000000000 * r4
        + 0x1000000000000000000000000000000000000000000000000000000000000000000 * up
  {
  }

  /** r = r1 - r2 on 264 bits; a final borrow wraps back. */
  method SubWide(r: array<u64>, r1: array<u64>, r2: Limbs)
    requires r.Length == 5 && r1.Length == 5 && Wide(Read(r1)) && Wide(r2)
    modifies r
    ensures Wide(Read(r))
    ensures var d := Value(old(Read(r1))) - Value(r2);
      Value(Read(r)) == d || Value(Read(r)) == d + 0x1000000000000000000000000000000000000000000000000000000000000000000
  {
    ghost var x := Read(r1);
    var t, b0 := SubStep(r1[0], r2.l0);
    r[0] := t;
    ghost var t0 := t;
    var b1, b2, b3, b: u64;
    t, b1 := SubStep(r1[1], b0 + r2.l1);
    r[1] := t;
    ghost var t1 := t;
    t, b2 := SubStep(r1[2], b1 + r2.l2);
    r[2] := t;
    ghost var t2 := t;
    t, b3 := SubStep(r1[3], b2 + r2.l3);
    r[3] := t;
    ghost var t3 := t;
    t, b := SubLast(r1[4], b3 + r2.l4, 0x10000000000);
    r[4] := t;
    assert Read(r) == Limbs(t0, t1, t2, t3, t);
    BorrowChain(x, r2, Read(r), b0, b1, b2, b3, b, 0x10000000000);
  }

  /** Barrett reduction of x < 2^512, given q1 = x >> 248 and r1 = x mod 2^264.
      The output may be the same array as r1, as it is for expand256_modm. */
  method BarrettReduce256(r: array<u64>, q1: Limbs, r1: array<u64>, ghost x: int)
    requires r.Length == 5 && r1.Length == 5 && Wide(q1) && Wide(Read(r1))
    requires 0 <= x - 0x100000000000000000000000000000000000000000000000000000000000000 * Value(q1)
               < 0x100000000000000000000000000000000000000000000000000000000000000
    requires Value(Read(r1)) == x % 0x1000000000000000000000000000000000000000000000000000000000000000000
    modifies r
    ensures Reduced(Read(r)) && Value(Read(r)) == x % L
  {
    hide Value, HighColumns;
    WideBound(q1);
    var q3 := Quotient(q1);
    DroppedColumns(q1);
    QuotientEstimate(x, Value(q1), HighColumns(q1), Value(q3));
    var r2, high := LowProduct(q3);
    SubWide(r, r1, r2);
    WideBound(Read(r));
    RemainderOf264(x, Value(q3), Value(r2), high, Value(Read(r)));
    ghost var v := Value(Read(r));
    assert Carried(Read(r), 0x100000000000000);
    Reduce256(r);
    Reduce256(r);
    RemainderUnique(x, Value(q3), v, Value(Read(r)));
  }

  lemma WideBound(a: Limbs)
    requires Wide(a)
    ensures 0 <= Value(a) < 0x1000000000000000000000000000000000000000000000000000000000000000000
  {
  }

  /** r1 - r2 modulo 2^264 is x - q3 * L itself, because that is below 2^264. */
  lemma RemainderOf264(x: int, q3: int, r2: int, high: int, v: int)
    requires 0 <= x - L * q3 < 3 * L
    requires L * q3 == r2 + 0x1000000000000000000000000000000000000000000000000000000000000000000 * high
    requires 0 <= v < 0x1000000000000000000000000000000000000000000000000000000000000000000
    requires var d := x % 0x1000000000000000000000000000000000000000000000000000000000000000000 - r2;
      v == d || v == d + 0x1000000000000000000000000000000000000000000000000000000000000000000
    ensures v == x - L * q3
  {
    var m, h := 0x1000000000000000000000000000000000000000000000000000000000000000000,
      x / 0x1000000000000000000000000000000000000000000000000000000000000000000;
    assert x == 0x1000000000000000000000000000000000000000000000000000000000000000000 * h
      + x % 0x1000000000000000000000000000000000000000000000000000000000000000000;
    var d := x - L * q3;
    if v == x % m - r2 {
      SameBelow264(v, d, high - h);
    } else {
      SameBelow264(v, d, high - h + 1);
    }
  }

  lemma SameBelow264(v: int, d: int, k: int)
    requires v == d + 0x1000000000000000000000000000000000000000000000000000000000000000000 * k
    requires 0 <= v < 0x1000000000000000000000000000000000000000000000000000000000000000000
    requires 0 <= d < 3 * L
    ensures v == d
  {
  }

  lemma RemainderUnique(x: int, q: int, v: int, w: int)
    requires v == x - L * q && 0 <= v < 3 * L
    requires w == (if v < L then v else if v < 2 * L then v - L else v - 2 * L)
    ensures 0 <= w < L && w == x % L
  {
    var k := if v < L then q else if v < 2 * L then q + 1 else q + 2;
    assert x == 0x1000000000000000000000000000000014def9dea2f79cd65812631a5cf5d3ed * k + w;
  }

  // ----- addition and multiplication -----

  predicate Below256(a: Limbs) {
    Carried(a, 0x100000000)
  }

  /** r = x + y mod L; r may be the array of either operand. */
  method Add256(r: array<u64>, x: array<u64>, y: array<u64>)
    requires r.Length == 5 && x.Length == 5 && y.Length == 5
    requires Reduced(Read(x)) && Reduced(Read(y))
    modifies r
    ensures Reduced(Read(r))
    ensures Value(Read(r)) == (Value(old(Read(x))) + Value(old(Read(y)))) % L
  {
    hide Value;
    ghost var a, b := Read(x), Read(y);
    AddLimbs(r, x, y);
    ghost var s := Read(r);
    SumBelow2L(a, b, Value(s));
    Reduce256(r);
  }

  lemma SumBelow2L(a: Limbs, b: Limbs, v: int)
    requires Reduced(a) && Reduced(b) && v == Value(a) + Value(b)
    ensures 0 <= v < 2 * L
    ensures v % L == if v < L then v else v - L
  {
    assert 0 <= Value(a) && 0 <= Value(b);
    hide Value;
    ModOf(v);
  }

  /** The limbs of x + y, carried but not reduced. */
  method AddLimbs(r: array<u64>, x: array<u64>, y: array<u64>)
    requires r.Length == 5 && x.Length == 5 && y.Length == 5
    requires Reduced(Read(x)) && Reduced(Read(y))
    modifies r
    ensures Carried(Read(r), 0x100000000000000) && Value(Read(r)) == Value(old(Read(x))) + Value(old(Read(y)))
  {
    hide Value;
    ghost var a, b := Read(x), Read(y);
    var s0, c0 := AddStep(x[0] + y[0]);
    r[0] := s0;
    var s1, c1 := AddStep(c0 + (x[1] + y[1]));
    r[1] := s1;
    var s2, c2 := AddStep(c1 + (x[2] + y[2]));
    r[2] := s2;
    var s3, c3 := AddStep(c2 + (x[3] + y[3]));
    r[3] := s3;
    var s4: u64 := c3 + (x[4] + y[4]);
    r[4] := s4;
    SumOfLimbs(a, b, Limbs(s0, s1, s2, s3, s4), c0, c1, c2, c3);
    assert Read(r) == Limbs(s0, s1, s2, s3, s4);
  }

  method AddStep(c: u64) returns (lo: u64, hi: u64)
    ensures lo < 0x100000000000000 && c == lo + 0x100000000000000 * hi
  {
    lo := c % 0x100000000000000;
    hi := c / 0x100000000000000;
  }

  lemma SumOfLimbs(a: Limbs, b: Limbs, s: Limbs, c0: int, c1: int, c2: int, c3: int)
    requires Reduced(a) && Reduced(b)
    requires a.l0 + b.l0 == s.l0 + 0x100000000000000 * c0 && s.l0 < 0x100000000000000
    requires c0 + a.l1 + b.l1 == s.l1 + 0x100000000000000 * c1 && s.l1 < 0x100000000000000
    requires c1 + a.l2 + b.l2 == s.l2 + 0x100000000000000 * c2 && s.l2 < 0x100000000000000
    requires c2 + a.l3 + b.l3 == s.l3 + 0x100000000000000 * c3 && s.l3 < 0x100000000000000
    requires c3 + a.l4 + b.l4 == s.l4
    ensures Carried(s, 0x100000000000000) && Value(s) == Value(a) + Value(b)
  {
  }

  lemma ModOf(v: int)
    requires 0 <= v < 2 * L
    ensures v % L == if v < L then v else v - L
  {
  }

  lemma Product56(a: u64, b: u64)
    requires a < 0x100000000000000 && b < 0x100000000000000
    ensures Mul128(a, b) < 0x10000000000000000000000000000
  {
    ProductBound(a, b, 0x100000000000000, 0x100000000000000);
  }

  /** The nine columns of the product of two numbers of five limbs. */
  function Columns(x: Limbs, y: Limbs): (nat, nat, nat, nat, nat, nat, nat, nat, nat) {
    (Mul128(x.l0, y.l0),
     Mul128(x.l0, y.l1) + Mul128(x.l1, y.l0),
     Mul128(x.l0, y.l2) + Mul128(x.l2, y.l0) + Mul128(x.l1, y.l1),
     Mul128(x.l0, y.l3) + Mul128(x.l3, y.l0) + Mul128(x.l1, y.l2) + Mul128(x.l2, y.l1),
     Mul128(x.l0, y.l4) + Mul128(x.l4, y.l0) + Mul128(x.l3, y.l1) + Mul128(x.l1, y.l3) + Mul128(x.l2, y.l2),
     Mul128(x.l4, y.l1) + Mul128(x.l1, y.l4) + Mul128(x.l2, y.l3) + Mul128(x.l3, y.l2),
     Mul128(x.l4, y.l2) + Mul128(x.l2, y.l4) + Mul128(x.l3, y.l3),
     Mul128(x.l4, y.l3) + Mul128(x.l3, y.l4),
     Mul128(x.l4, y.l4))
  }

  function Weigh(k: (nat, nat, nat, nat, nat, nat, nat, nat, nat)): int {
    k.0 + 0x100000000000000 * k.1 + 0x10000000000000000000000000000 * k.2
    + 0x1000000000000000000000000000000000000000000 * k.3
    + 0x100000000000000000000000000000000000000000000000000000000 * k.4
    + 0x10000000000000000000000000000000000000000000000000000000000000000000000 * k.5
    + 0x1000000000000000000000000000000000000000000000000000000000000000000000000000000000000 * k.6
    + 0x100000000000000000000000000000000000000000000000000000000000000000000000000000000000000000000000000 * k.7
    + 0x10000000000000000000000000000000000000000000000000000000000000000000000000000000000000000000000000000000000000000 * k.8
  }

  lemma RowProduct(a: u64, y: Limbs)
    ensures a * Value(y) == Mul128(a, y.l0) + 0x100000000000000 * Mul128(a, y.l1)
      + 0x10000000000000000000000000000 * Mul128(a, y.l2)
      + 0x1000000000000000000000000000000000000000000 * Mul128(a, y.l3)
      + 0x100000000000000000000000000000000000000000000000000000000 * Mul128(a, y.l4)
  {
  }

  lemma ColumnsAreTheProduct(x: Limbs, y: Limbs)
    ensures Weigh(Columns(x, y)) == Value(x) * Value(y)
  {
    var v := Value(y);
    assert Value(x) * v == x.l0 * v + 0x100000000000000 * (x.l1 * v) + 0x10000000000000000000000000000 * (x.l2 * v)
      + 0x1000000000000000000000000000000000000000000 * (x.l3 * v)
      + 0x100000000000000000000000000000000000000000000000000000000 * (x.l4 * v);
    hide Mul128;
    RowProduct(x.l0, y);
    RowProduct(x.l1, y);
    RowProduct(x.l2, y);
    RowProduct(x.l3, y);
    RowProduct(x.l4, y);
  }

  /** The pieces of one column of the double-length product: bits 0..23 moved up
      by 32, bits 24..55, and the carry above bit 56. */
  method SplitColumn24(c: u128) returns (lo: u64, hi: u64, f: u64, ghost low: int)
    requires c < 0x1000000000000000000000000000000
    ensures lo == 0x100000000 * low && 0 <= low < 0x1000000 && hi < 0x100000000
    ensures c == low + 0x1000000 * hi + 0x100000000000000 * f
  {
    var w: u64 := c % 0x1_0000_0000_0000_0000;
    low := w % 0x1000000;
    hi := w / 0x1000000 % 0x100000000;
    ghost var up := w / 0x1000000 / 0x100000000;
    assert w == low + 0x1000000 * hi + 0x100000000000000 * up;
    ShiftedMask(w * 0x100000000, hi + 0x100000000 * up, 0x100000000 * low);
    lo := w * 0x100000000 % 0x1_0000_0000_0000_0000 % 0x100000000000000;
    f := c / 0x100000000000000;
    CarryOut(c, c / 0x1_0000_0000_0000_0000, w, up);
  }

  /** Bitwise or of two words that share no bit: the low 32 bits and the rest. */
  function Or32(lo: u64, hi: u64, ghost k: int): u64
    requires lo < 0x100000000 && hi == 0x100000000 * k <= 0xffffffff00000000
  {
    lo + hi
  }

  lemma ColumnBounds(x: Limbs, y: Limbs)
    requires Below256(x) && Below256(y)
    ensures var k := Columns(x, y);
      k.0 < 0x10000000000000000000000000000 && k.1 < 0x20000000000000000000000000000
      && k.2 < 0x30000000000000000000000000000 && k.3 < 0x40000000000000000000000000000
      && k.4 < 0x50000000000000000000000000000 && k.5 < 0x40000000000000000000000000000
      && k.6 < 0x30000000000000000000000000000 && k.7 < 0x20000000000000000000000000000
        && k.8 <= 0xffffffff * 0xffffffff
    ensures 0 <= Value(x) * Value(y)
      < 0x1_00000000_00000000_00000000_00000000_00000000_00000000_00000000_00000000_00000000_00000000_00000000_00000000_00000000_00000000_00000000_00000000
  {
    ProductBound(Value(x), Value(y), 0x1_00000000_00000000_00000000_00000000_00000000_00000000_00000000_00000000,
      0x1_00000000_00000000_00000000_00000000_00000000_00000000_00000000_00000000);
    hide Value;
    Product56(x.l0, y.l0); Product56(x.l0, y.l1); Product56(x.l0, y.l2); Product56(x.l0, y.l3); Product56(x.l0, y.l4);
    Product56(x.l1, y.l0); Product56(x.l1, y.l1); Product56(x.l1, y.l2); Product56(x.l1, y.l3); Product56(x.l1, y.l4);
    Product56(x.l2, y.l0); Product56(x.l2, y.l1); Product56(x.l2, y.l2); Product56(x.l2, y.l3); Product56(x.l2, y.l4);
    Product56(x.l3, y.l0); Product56(x.l3, y.l1); Product56(x.l3, y.l2); Product56(x.l3, y.l3); Product56(x.l3, y.l4);
    Product56(x.l4, y.l0); Product56(x.l4, y.l1); Product56(x.l4, y.l2); Product56(x.l4, y.l3);
    assert Mul128(x.l4, y.l4) <= 0xffffffff * 0xffffffff by {
      ProductBound(x.l4, y.l4, 0x100000000, 0x100000000);
    }
    hide Mul128;
  }

  lemma ProductTelescope(k: (nat, nat, nat, nat, nat, nat, nat, nat, nat), total: int, r0: int, r1: int, r2: int,
      r3: int,
                         f0: int, f1: int, f2: int, f3: int, f4: int, f5: int, f6: int, f7: int, f8: int,
                         low4: int, low5: int, low6: int, low7: int, low8: int,
                         hi4: int, hi5: int, hi6: int, hi7: int, hi8: int)
    requires Weigh(k) == total && 0 <= total
    requires k.0 == r0 + 0x100000000000000 * f0 && 0 <= r0 < 0x100000000000000
    requires k.1 + f0 == r1 + 0x100000000000000 * f1 && 0 <= r1 < 0x100000000000000
    requires k.2 + f1 == r2 + 0x100000000000000 * f2 && 0 <= r2 < 0x100000000000000
    requires k.3 + f2 == r3 + 0x100000000000000 * f3 && 0 <= r3 < 0x100000000000000
    requires k.4 + f3 == low4 + 0x1000000 * hi4 + 0x100000000000000 * f4 && 0 <= low4 < 0x1000000
    requires k.5 + f4 == low5 + 0x1000000 * hi5 + 0x100000000000000 * f5
    requires k.6 + f5 == low6 + 0x1000000 * hi6 + 0x100000000000000 * f6
    requires k.7 + f6 == low7 + 0x1000000 * hi7 + 0x100000000000000 * f7
    requires k.8 + f7 == low8 + 0x1000000 * hi8 + 0x100000000000000 * f8
    ensures 0 <= total - 0x100000000000000000000000000000000000000000000000000000000000000 *
        (hi4 + 0x100000000 * low5 + 0x100000000000000 * (hi5 + 0x100000000 * low6)
         + 0x10000000000000000000000000000 * (hi6 + 0x100000000 * low7)
         + 0x1000000000000000000000000000000000000000000 * (hi7 + 0x100000000 * low8)
         + 0x100000000000000000000000000000000000000000000000000000000 * (hi8 + 0x100000000 * f8))
      < 0x100000000000000000000000000000000000000000000000000000000000000
  {
  }

  lemma ProductCut(k: (nat, nat, nat, nat, nat, nat, nat, nat, nat), total: int, r0: int, r1: int, r2: int, r3: int,
      r4: int, up: int,
                   f0: int, f1: int, f2: int, f3: int)
    requires Weigh(k) == total && 0 <= total
    requires k.0 == r0 + 0x100000000000000 * f0 && 0 <= r0 < 0x100000000000000
    requires k.1 + f0 == r1 + 0x100000000000000 * f1 && 0 <= r1 < 0x100000000000000
    requires k.2 + f1 == r2 + 0x100000000000000 * f2 && 0 <= r2 < 0x100000000000000
    requires k.3 + f2 == r3 + 0x100000000000000 * f3 && 0 <= r3 < 0x100000000000000
    requires k.4 + f3 == r4 + 0x10000000000 * up && 0 <= r4 < 0x10000000000
    ensures total % 0x1000000000000000000000000000000000000000000000000000000000000000000
      == r0 + 0x100000000000000 * r1 + 0x10000000000000000000000000000 * r2
        + 0x1000000000000000000000000000000000000000000 * r3
        + 0x100000000000000000000000000000000000000000000000000000000 * r4
  {
    var hi := up + 0x10000 * (k.5 + 0x100000000000000 * k.6 + 0x10000000000000000000000000000 * k.7
                              + 0x1000000000000000000000000000000000000000000 * k.8);
    DivModUnique(total, 0x1000000000000000000000000000000000000000000000000000000000000000000, hi,
      r0 + 0x100000000000000 * r1 + 0x10000000000000000000000000000 * r2
      + 0x1000000000000000000000000000000000000000000 * r3
      + 0x100000000000000000000000000000000000000000000000000000000 * r4);
  }

  /** The product split at bit 248 (q1) and cut at bit 264 (r1). */
  method SplitProduct(x: Limbs, y: Limbs) returns (q1: Limbs, r1: Limbs)
    requires Below256(x) && Below256(y)
    ensures Wide(q1) && Wide(r1)
    ensures 0 <= Value(x) * Value(y) - 0x100000000000000000000000000000000000000000000000000000000000000 * Value(q1)
               < 0x100000000000000000000000000000000000000000000000000000000000000
    ensures Value(r1) == Value(x) * Value(y) % 0x1000000000000000000000000000000000000000000000000000000000000000000
  {
    hide Columns, Weigh;
    var k := Columns(x, y);
    ColumnBounds(x, y);
    var r10, f0 := LowColumn(k.0);
    var r11, f1 := LowColumn(k.1 + f0);
    var r12, f2 := LowColumn(k.2 + f1);
    var r13, f3 := LowColumn(k.3 + f2);
    var c: u128 := k.4 + f3;
    var r14: u64 := c % 0x1_0000_0000_0000_0000 % 0x10000000000;
    ghost var up := TopColumn(c, r14);
    var lo4, hi4, f4, low4 := SplitColumn24(c);
    var lo5, hi5, f5, low5 := SplitColumn24(k.5 + f4);
    var lo6, hi6, f6, low6 := SplitColumn24(k.6 + f5);
    var lo7, hi7, f7, low7 := SplitColumn24(k.7 + f6);
    var lo8, hi8, f8, low8 := SplitColumn24(k.8 + f7);
    r1 := Limbs(r10, r11, r12, r13, r14);
    q1 := Limbs(Or32(hi4, lo5, low5), Or32(hi5, lo6, low6), Or32(hi6, lo7, low7), Or32(hi7, lo8, low8),
      Or32(hi8, 0x100000000 * f8, f8));
    ColumnsAreTheProduct(x, y);
    ProductCut(k, Value(x) * Value(y), r10, r11, r12, r13, r14, up, f0, f1, f2, f3);
    ProductTelescope(k, Value(x) * Value(y), r10, r11, r12, r13, f0, f1, f2, f3, f4, f5, f6, f7, f8,
                     low4, low5, low6, low7, low8, hi4, hi5, hi6, hi7, hi8);
  }

  /** r = x * y mod L; r may be the array of either operand. */
  method Mul256(r: array<u64>, x: array<u64>, y: array<u64>)
    requires r.Length == 5 && x.Length == 5 && y.Length == 5
    requires Below256(Read(x)) && Below256(Read(y))
    modifies r
    ensures Reduced(Read(r))
    ensures Value(Read(r)) == Value(old(Read(x))) * Value(old(Read(y))) % L
  {
    hide Value;
    var q1, low := SplitProduct(Read(x), Read(y));
    var r1 := new u64[5];
    r1[0], r1[1], r1[2], r1[3], r1[4] := low.l0, low.l1, low.l2, low.l3, low.l4;
    assert Read(r1) == low;
    ghost var product := Value(Read(x)) * Value(Read(y));
    BarrettReduce256(r, q1, r1, product);
  }
}
