/** Comparison and subtraction of scalars on their low limbs, for batch verification. */
module ModmBatch {
  import opened Words
  import opened Modm64

  function Limb(a: Limbs, i: nat): u64
    requires i < 5
  {
    if i == 0 then a.l0 else if i == 1 then a.l1 else if i == 2 then a.l2 else if i == 3 then a.l3 else a.l4
  }

  /** 2^(56 i). */
  function Weight(i: nat): int
    requires i <= 5
  {
    if i == 0 then 1
    else if i == 1 then 0x100000000000000
    else if i == 2 then 0x10000000000000000000000000000
    else if i == 3 then 0x1000000000000000000000000000000000000000000
    else if i == 4 then 0x100000000000000000000000000000000000000000000000000000000
    else 0x10000000000000000000000000000000000000000000000000000000000000000000000
  }

  /** The value of the lowest n limbs. */
  function Low(a: Limbs, n: nat): int
    requires n <= 5
  {
    if n == 0 then 0 else Low(a, n - 1) + Weight(n - 1) * Limb(a, n - 1)
  }

  predicate Proper(a: Limbs) {
    Carried(a, 0x100000000000000)
  }

  lemma LowIsValue(a: Limbs)
    ensures Low(a, 5) == Value(a)
  {
    assert Low(a, 1) == a.l0;
    assert Low(a, 3) == Low(a, 1) + Weight(1) * a.l1 + Weight(2) * a.l2;
  }

  lemma LowBound(a: Limbs, n: nat)
    requires Proper(a) && n <= 5
    ensures 0 <= Low(a, n) < Weight(n)
  {
    if n > 0 {
      LowBound(a, n - 1);
      WeightStep(n - 1, Limb(a, n - 1));
    }
  }

  lemma WeightStep(i: nat, x: int)
    requires i < 5 && 0 <= x < 0x100000000000000
    ensures Weight(i + 1) == 0x100000000000000 * Weight(i)
    ensures 0 <= Weight(i) * x <= Weight(i + 1) - Weight(i)
  {
  }

  /** Zero limbs above the lowest n leave the value to those n. */
  lemma FitsLow(a: Limbs, n: nat)
    requires Proper(a) && 0 < n <= 5 && Value(a) < Weight(n)
    ensures Low(a, n) == Value(a)
    ensures forall i :: n <= i < 5 ==> Limb(a, i) == 0
  {
    LowIsValue(a);
    HighLimbs(a, n, 5);
  }

  lemma {:induction false} HighLimbs(a: Limbs, n: nat, m: nat)
    requires Proper(a) && 0 < n <= m <= 5 && Low(a, m) < Weight(n)
    ensures Low(a, n) == Low(a, m)
    ensures forall i :: n <= i < m ==> Limb(a, i) == 0
  {
    if n < m {
      LowBound(a, m - 1);
      WeightMono(n, m - 1);
      assert Limb(a, m - 1) == 0;
      HighLimbs(a, n, m - 1);
    }
  }

  lemma WeightMono(m: nat, n: nat)
    requires m <= n <= 5
    ensures 0 < Weight(m) <= Weight(n)
  {
  }

  /** One borrow: t = a - b - carry on 64 bits, and its sign bit. */
  lemma BorrowLimb(a: u64, b: u64, carry: u64)
    requires a < 0x100000000000000 && b < 0x100000000000000 && carry <= 1
    ensures var t := Sub64(Sub64(a, b), carry);
      t / 0x8000_0000_0000_0000 == (if a < b + carry then 1 else 0)
      && t % 0x100000000000000 == (if a < b + carry then a - b - carry + 0x100000000000000 else a - b - carry)
      && (a >= b + carry ==> t == a - b - carry)
  {
  }

  /** Is a < b on the lowest limbsize + 1 limbs? */
  method Lt256Batch(a: Limbs, b: Limbs, limbsize: nat) returns (r: bool)
    requires Proper(a) && Proper(b) && limbsize <= 4
    ensures r == (Low(a, limbsize + 1) < Low(b, limbsize + 1))
  {
    var carry: u64 := 0;
    var i := 0;
    while i <= limbsize
      invariant 0 <= i <= limbsize + 1 && carry <= 1
      invariant carry == 1 <==> Low(a, i) < Low(b, i)
    {
      BorrowLimb(Limb(a, i), Limb(b, i), carry);
      CompareStep(a, b, i, carry);
      var t := Sub64(Sub64(Limb(a, i), Limb(b, i)), carry);
      carry := t / 0x8000_0000_0000_0000;
      i := i + 1;
    }
    r := carry == 1;
  }

  lemma CompareStep(a: Limbs, b: Limbs, i: nat, carry: int)
    requires Proper(a) && Proper(b) && i < 5 && 0 <= carry <= 1
    requires carry == 1 <==> Low(a, i) < Low(b, i)
    ensures Low(a, i + 1) < Low(b, i + 1) <==> Limb(a, i) < Limb(b, i) + carry
  {
    LowBound(a, i);
    LowBound(b, i);
    var w, x, y := Weight(i), Limb(a, i) as int, Limb(b, i) as int;
    hide Low, Weight, Limb;
    if x < y {
      MulMono(x + 1, y, w);
      assert (x + 1) * w == x * w + w;
    } else if y < x {
      MulMono(y + 1, x, w);
      assert (y + 1) * w == y * w + w;
    }
    LowStep(a, i);
    LowStep(b, i);
  }

  lemma LowStep(a: Limbs, i: nat)
    requires i < 5
    ensures Low(a, i + 1) == Low(a, i) + (Limb(a, i) as int) * Weight(i)
  {
  }

  /** Is a <= b on the lowest limbsize + 1 limbs? */
  method Lte256Batch(a: Limbs, b: Limbs, limbsize: nat) returns (r: bool)
    requires Proper(a) && Proper(b) && limbsize <= 4
    ensures r == (Low(a, limbsize + 1) <= Low(b, limbsize + 1))
  {
    var less := Lt256Batch(b, a, limbsize);
    r := !less;
  }

  function SetLimb(a: Limbs, i: nat, x: u64): Limbs
    requires i < 5
  {
    if i == 0 then a.(l0 := x) else if i == 1 then a.(l1 := x) else if i == 2 then a.(l2 := x)
    else if i == 3 then a.(l3 := x) else a.(l4 := x)
  }

  /** One limb of the subtraction, below the last. */
  method SubtractLimb(a: Limbs, b: Limbs, part: Limbs, i: nat, carry: u64) returns (out: Limbs, next: u64)
    requires Proper(part) && Proper(a) && Proper(b) && i < 4 && carry <= 1
    requires Low(part, i) == Low(a, i) - Low(b, i) + carry * Weight(i)
    ensures Proper(out) && next <= 1 && Low(out, i + 1) == Low(a, i + 1) - Low(b, i + 1) + next * Weight(i + 1)
    ensures forall k :: 0 <= k < 5 && k != i ==> Limb(out, k) == Limb(part, k)
  {
    hide Low, Limb;
    ProperLimb(a, i);
    ProperLimb(b, i);
    BorrowLimb(Limb(a, i), Limb(b, i), carry);
    var t := Sub64(Sub64(Limb(a, i), Limb(b, i)), carry);
    next := t / 0x8000_0000_0000_0000;
    SubtractStep(a, b, part, i, carry, t % 0x100000000000000, next);
    out := SetLimb(part, i, t % 0x100000000000000);
    WeightStep(i, 0);
  }

  lemma ProperLimb(a: Limbs, i: nat)
    requires Proper(a) && i < 5
    ensures Limb(a, i) < 0x100000000000000
  {
  }

  /** out = a - b on the lowest limbsize + 1 limbs; higher limbs of out keep what they held. */
  method Sub256Batch(before: Limbs, a: Limbs, b: Limbs, limbsize: nat) returns (out: Limbs)
    requires Proper(before) && Proper(a) && Proper(b) && limbsize <= 4
    requires Low(a, limbsize + 1) >= Low(b, limbsize + 1)
    ensures Proper(out) && Low(out, limbsize + 1) == Low(a, limbsize + 1) - Low(b, limbsize + 1)
    ensures forall i :: limbsize < i < 5 ==> Limb(out, i) == Limb(before, i)
  {
    hide Low, Weight, Limb;
    out := before;
    NothingBelow(a, b, before);
    var carry: u64 := 0;
    var i := 0;
    while i < limbsize
      invariant 0 <= i <= limbsize && carry <= 1 && Proper(out)
      invariant Low(out, i) == Low(a, i) - Low(b, i) + carry * Weight(i)
      invariant forall k :: i <= k < 5 ==> Limb(out, k) == Limb(before, k)
    {
      out, carry := SubtractLimb(a, b, out, i, carry);
      i := i + 1;
    }
    ProperLimb(a, i);
    ProperLimb(b, i);
    BorrowLimb(Limb(a, i), Limb(b, i), carry);
    LastBorrow(a, b, out, i, carry);
    SubtractStep(a, b, out, i, carry, Limb(a, i) - Limb(b, i) - carry, 0);
    out := SetLimb(out, i, Sub64(Sub64(Limb(a, i), Limb(b, i)), carry));
  }

  lemma SubtractStep(a: Limbs, b: Limbs, out: Limbs, i: nat, carry: int, x: u64, next: int)
    requires i < 5 && Proper(out) && x < 0x100000000000000
    requires Low(out, i) == Low(a, i) - Low(b, i) + carry * Weight(i)
    requires x == Limb(a, i) - Limb(b, i) - carry + 0x100000000000000 * next
    ensures var t := SetLimb(out, i, x);
      Proper(t) && Low(t, i + 1) == Low(a, i + 1) - Low(b, i + 1) + next * (0x100000000000000 * Weight(i))
      && forall k :: 0 <= k < 5 && k != i ==> Limb(t, k) == Limb(out, k)
  {
    hide Low, Weight;
    var t := SetLimb(out, i, x);
    assert forall k :: 0 <= k < 5 ==> Limb(t, k) == if k == i then x else Limb(out, k);
    SameLow(t, out, i);
    LowStep(t, i); LowStep(a, i); LowStep(b, i);
    WeighDifference(x, Limb(a, i), Limb(b, i), carry, next, Weight(i));
  }

  lemma WeighDifference(x: int, a: int, b: int, carry: int, next: int, w: int)
    requires x == a - b - carry + 0x100000000000000 * next
    ensures x * w == a * w - b * w - carry * w + next * (0x100000000000000 * w)
  {
  }

  lemma {:induction false} SameLow(s: Limbs, t: Limbs, n: nat)
    requires n <= 5 && forall k :: 0 <= k < n ==> Limb(s, k) == Limb(t, k)
    ensures Low(s, n) == Low(t, n)
  {
    if n > 0 {
      SameLow(s, t, n - 1);
    }
  }

  lemma LastBorrow(a: Limbs, b: Limbs, out: Limbs, i: nat, carry: int)
    requires i < 5 && Proper(a) && Proper(b) && Proper(out) && 0 <= carry <= 1
    requires Low(a, i + 1) >= Low(b, i + 1) && Low(out, i) == Low(a, i) - Low(b, i) + carry * Weight(i)
    ensures Limb(a, i) >= Limb(b, i) + carry
  {
    LowBound(out, i);
    LowBound(a, i);
    LowBound(b, i);
    LowStep(a, i);
    LowStep(b, i);
    hide Low, Weight, Limb;
    var w, x, y := Weight(i), Limb(a, i) as int, Limb(b, i) as int;
    Below(x, y + carry, w);
    assert (y + carry) * w == y * w + carry * w;
  }

  lemma Below(x: int, y: int, w: int)
    requires w > 0
    ensures x < y ==> x * w + w <= y * w
  {
    if x < y {
      MulMono(x + 1, y, w);
    }
  }

  lemma NothingBelow(a: Limbs, b: Limbs, c: Limbs)
    ensures Low(a, 0) == Low(b, 0) == Low(c, 0) == 0
  {
  }

  method IsZero256Batch(a: Limbs) returns (r: bool)
    requires Proper(a)
    ensures r == (Value(a) == 0)
  {
    var i := 0;
    while i < 5
      invariant 0 <= i <= 5
      invariant forall k :: 0 <= k < i ==> Limb(a, k) == 0
    {
      if Limb(a, i) != 0 {
        NonZeroLimb(a, i);
        return false;
      }
      i := i + 1;
    }
    AllLimbs(a);
    return true;
  }

  lemma NonZeroLimb(a: Limbs, i: nat)
    requires Proper(a) && i < 5 && Limb(a, i) != 0
    ensures Value(a) >= Weight(i)
  {
  }

  lemma AllLimbs(a: Limbs)
    requires forall k :: 0 <= k < 5 ==> Limb(a, k) == 0
    ensures a == Limbs(0, 0, 0, 0, 0)
  {
    assert Limb(a, 0) == Limb(a, 1) == Limb(a, 2) == Limb(a, 3) == Limb(a, 4) == 0;
  }

  method IsOne256Batch(a: Limbs) returns (r: bool)
    requires Proper(a)
    ensures r == (Value(a) == 1)
  {
    var i := 0;
    while i < 5
      invariant 0 <= i <= 5
      invariant forall k :: 0 <= k < i ==> Limb(a, k) == if k == 0 then 1 else 0
    {
      if Limb(a, i) != (if i == 0 then 1 else 0) {
        if i > 0 {
          NonZeroLimb(a, i);
        } else {
          NotOne(a);
        }
        return false;
      }
      i := i + 1;
    }
    assert Limb(a, 0) == 1 && Limb(a, 1) == Limb(a, 2) == Limb(a, 3) == Limb(a, 4) == 0;
    return true;
  }

  lemma NotOne(a: Limbs)
    requires Proper(a) && a.l0 != 1
    ensures Value(a) != 1
  {
  }

  /** Does a fit in 128 bits? */
  method IsAtMost128Bits(a: Limbs) returns (r: bool)
    requires Proper(a)
    ensures r == (Value(a) < 0x1_0000_0000_0000_0000_0000_0000_0000_0000)
  {
    // a[4] | a[3] | (a[2] & 0xffffffffff0000) is zero exactly when all three words are
    r := a.l4 == 0 && a.l3 == 0 && a.l2 / 0x10000 == 0;
  }
}
