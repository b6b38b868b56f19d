/** Recoding of scalars into signed digits: radix 16, and sliding windows. */
module Recode {
  import opened Words
  import opened Digits
  import opened Modm64

  lemma WeightsOf16()
    ensures Power(16, 0) == 1 && Power(16, 8) == 0x100000000 && Power(16, 14) == 0x100000000000000
    ensures Power(16, 28) == 0x10000000000000000000000000000
    ensures Power(16, 42) == 0x1000000000000000000000000000000000000000000
    ensures Power(16, 56) == 0x100000000000000000000000000000000000000000000000000000000
  {
    assert Power(16, 7) == 0x10000000;
    PowerAdd(16, 7, 7);
    PowerAdd(16, 14, 14);
    PowerAdd(16, 28, 14);
    PowerAdd(16, 28, 28);
  }

  lemma WeightsOf2()
    ensures Power(2, 0) == 1 && Power(2, 32) == 0x100000000 && Power(2, 56) == 0x100000000000000
    ensures Power(2, 112) == 0x10000000000000000000000000000
    ensures Power(2, 168) == 0x1000000000000000000000000000000000000000000
    ensures Power(2, 224) == 0x100000000000000000000000000000000000000000000000000000000
  {
    SmallWeightsOf2();
    hide Power;
    PowerAdd(2, 56, 56);
    PowerAdd(2, 112, 56);
    PowerAdd(2, 112, 112);
  }

  lemma SmallWeightsOf2()
    ensures Power(2, 0) == 1 && Power(2, 14) == 0x4000 && Power(2, 32) == 0x100000000
      && Power(2, 56) == 0x100000000000000
  {
    assert Power(2, 4) == 0x10;
    assert Power(2, 14) == 0x4000;
    hide Power;
    PowerAdd(2, 14, 14);
    PowerAdd(2, 28, 28);
    PowerAdd(2, 28, 4);
    assert Power(2, 0) == 1 by { PowerZero(2); }
  }

  lemma PowerZero(base: int)
    ensures Power(base, 0) == 1 && Power(base, 1) == base
  {
  }

  lemma TopWeights()
    ensures Power(16, 63) == 0x1000000000000000000000000000000000000000000000000000000000000000
    ensures Power(2, 255) == 0x8000000000000000000000000000000000000000000000000000000000000000
  {
    WeightsOf16();
    WeightsOf2();
    assert Power(16, 7) == 0x10000000;
    assert Power(2, 31) == 0x80000000 by { SmallWeightsOf2(); assert Power(2, 32) == 2 * Power(2, 31); }
    hide Power;
    PowerAdd(16, 56, 7);
    PowerAdd(2, 224, 31);
  }

  /** The 64 nibbles of a scalar below 2^256. */
  method Nibbles(r: array<i8>, input: Limbs)
    requires r.Length == 64 && Below256(input)
    modifies r
    ensures Eval(r[..], 16) == Value(input)
    ensures forall k :: 0 <= k < 64 ==> 0 <= r[k] < 16
  {
    WeightsOf16();
    hide Power, Eval;
    assert Eval(r[..0], 16) == 0 by { EvalNone(r[..0], 16); }
    WriteDigits(r, 0, input.l0, 14, 16);
    WriteDigits(r, 14, input.l1, 14, 16);
    WriteDigits(r, 28, input.l2, 14, 16);
    WriteDigits(r, 42, input.l3, 14, 16);
    WriteDigits(r, 56, input.l4, 8, 16);
    assert r[..64] == r[..];
  }

  lemma EvalNone(s: seq<int>, base: int)
    requires s == []
    ensures Eval(s, base) == 0
  {
  }

  /** One step of making the digits signed keeps the value of digits plus carry. */
  lemma SignedStep(s: seq<int>, i: nat, carry: int, hi: int, next: int, d: int)
    requires i + 1 < |s| && s[i] + carry == d + 16 * hi + 16 * next
    ensures var t := s[i := d][i + 1 := s[i + 1] + hi];
      Eval(t, 16) + next * Power(16, i + 1) == Eval(s, 16) + carry * Power(16, i)
  {
    EvalUpdate(s, i, d, 16);
    EvalUpdate(s[i := d], i + 1, s[i + 1] + hi, 16);
    assert Power(16, i + 1) == 16 * Power(16, i);
    hide Eval, Power;
    Weighted(Power(16, i), d - s[i], hi, next, carry);
  }

  lemma Weighted(p: int, delta: int, hi: int, next: int, carry: int)
    requires delta == carry - 16 * hi - 16 * next
    ensures p * delta + (16 * p) * hi + next * (16 * p) == carry * p
  {
    assert p * delta == carry * p - 16 * (p * hi) - 16 * (p * next);
  }

  lemma TopDigit(s: seq<int>)
    requires |s| == 64 && (forall k :: 0 <= k < 64 ==> 0 <= s[k] < 16)
    requires Eval(s, 16) < 0x8000000000000000000000000000000000000000000000000000000000000000
    ensures s[63] < 8
  {
    EvalSplit(s, 63, 16);
    assert s[63..] == [s[63]];
    EvalOne(s[63], 16);
    TopWeights();
    NonNegative(s[..63], 16);
  }

  lemma {:induction false} NonNegative(s: seq<int>, base: int)
    requires base > 0 && forall k :: 0 <= k < |s| ==> s[k] >= 0
    ensures Eval(s, base) >= 0
  {
    if s != [] {
      NonNegative(s[1..], base);
    }
  }

  /** What a carry into position i is worth. */
  function CarryValue(carry: int, i: nat): int {
    carry * Power(16, i)
  }

  lemma NoCarry()
    ensures CarryValue(0, 0) == 0
  {
  }

  /** Makes r[i] + carry a digit between -8 and 7 and hands the rest on. */
  method SignDigit(r: array<i8>, i: nat, carry: int) returns (next: int)
    requires i + 1 < r.Length && 0 <= carry <= 1 && 0 <= r[i] && r[i] + carry <= 16 && 0 <= r[i + 1] < 16
    modifies r
    ensures 0 <= next <= 1 && -8 <= r[i] <= 7
    ensures 0 <= r[i + 1] && r[i + 1] + next <= old(r[i + 1]) + 1
    ensures forall k :: 0 <= k < r.Length && k != i && k != i + 1 ==> r[k] == old(r[k])
    ensures Eval(r[..], 16) + CarryValue(next, i + 1) == Eval(old(r[..]), 16) + CarryValue(carry, i)
  {
    hide Eval, Power;
    ghost var s := r[..];
    var t: int := r[i] + carry;
    r[i] := t;
    r[i + 1] := r[i + 1] + r[i] / 16;
    r[i] := r[i] % 16;
    next := r[i] / 8;
    r[i] := r[i] - 16 * next;
    assert r[..] == s[i := t % 16 - 16 * next][i + 1 := s[i + 1] + t / 16];
    SignedStep(s, i, carry, t / 16, next, t % 16 - 16 * next);
  }

  /** 64 signed radix-16 digits of a scalar below 2^255. */
  method Window4(r: array<i8>, input: Limbs)
    requires r.Length == 64 && Below256(input)
    requires Value(input) < 0x8000000000000000000000000000000000000000000000000000000000000000
    modifies r
    ensures Eval(r[..], 16) == Value(input)
    ensures forall k :: 0 <= k < 63 ==> -8 <= r[k] <= 7
    ensures 0 <= r[63] <= 8
  {
    Nibbles(r, input);
    TopDigit(r[..]);
    hide Eval, Power, Value, CarryValue;
    ghost var first := r[..];
    assert CarryValue(0, 0) == 0 by { NoCarry(); }
    var carry := 0;
    for i := 0 to 63
      invariant 0 <= carry <= 1
      invariant 0 <= r[i] && r[i] + carry <= first[i] + 1
      invariant forall k :: 0 <= k < i ==> -8 <= r[k] <= 7
      invariant forall k :: i < k < 64 ==> r[k] == first[k]
      invariant Eval(r[..], 16) + CarryValue(carry, i) == Value(input)
    {
      carry := SignDigit(r, i, carry);
    }
    LastDigit(r, carry);
  }

  method LastDigit(r: array<i8>, carry: int)
    requires r.Length == 64 && 0 <= carry <= 1 && 0 <= r[63] <= 8
    modifies r
    ensures r[63] == old(r[63]) + carry && forall k :: 0 <= k < 63 ==> r[k] == old(r[k])
    ensures Eval(r[..], 16) == Eval(old(r[..]), 16) + CarryValue(carry, 63)
  {
    hide Eval, Power;
    ghost var s := r[..];
    r[63] := r[63] + carry;
    assert r[..] == s[63 := s[63] + carry];
    EvalUpdate(s, 63, s[63] + carry, 16);
  }

  // ----- sliding windows -----

  /** The 256 bits of a scalar below 2^256. */
  method Bits(r: array<i8>, s: Limbs)
    requires r.Length == 256 && Below256(s)
    modifies r
    ensures Eval(r[..], 2) == Value(s)
    ensures forall k :: 0 <= k < 256 ==> 0 <= r[k] <= 1
  {
    WeightsOf2();
    hide Power, Eval;
    assert Eval(r[..0], 2) == 0 by { EvalNone(r[..0], 2); }
    WriteDigits(r, 0, s.l0, 56, 2);
    WriteDigits(r, 56, s.l1, 56, 2);
    WriteDigits(r, 112, s.l2, 56, 2);
    WriteDigits(r, 168, s.l3, 56, 2);
    WriteDigits(r, 224, s.l4, 32, 2);
    assert r[..256] == r[..];
  }

  /** Adds one to the bits from position k0 up; some bit there is zero. */
  method AddCarry(r: array<i8>, k0: nat)
    requires k0 < r.Length && (forall k :: k0 <= k < r.Length ==> 0 <= r[k] <= 1)
    requires exists k :: k0 <= k < r.Length && r[k] == 0
    modifies r
    ensures forall k :: 0 <= k < k0 ==> r[k] == old(r[k])
    ensures forall k :: k0 <= k < r.Length ==> 0 <= r[k] <= 1
    ensures r[k0] == 1 - old(r[k0])
    ensures Eval(r[k0..], 2) == Eval(old(r[k0..]), 2) + 1
  {
    hide Eval, Power;
    ghost var zero :| k0 <= zero < r.Length && r[zero] == 0;
    PowerZero(2);
    var k := k0;
    while r[k] != 0
      invariant k0 <= k <= zero && r[zero] == 0
      invariant forall i :: 0 <= i < k0 ==> r[i] == old(r[i])
      invariant forall i :: k0 <= i < r.Length ==> 0 <= r[i] <= 1
      invariant r[k0] == if k == k0 then old(r[k0]) else 0
      invariant k > k0 ==> old(r[k0]) == 1
      invariant Eval(r[k0..], 2) + Power(2, k - k0) == Eval(old(r[k0..]), 2) + 1
      decreases zero - k
    {
      SetBit(r[k0..], k - k0, 0);
      ghost var s := r[k0..];
      r[k] := 0;
      assert r[k0..] == s[k - k0 := 0];
      k := k + 1;
    }
    SetBit(r[k0..], k - k0, 1);
    ghost var s := r[k0..];
    r[k] := 1;
    assert r[k0..] == s[k - k0 := 1];
  }

  lemma SetBit(s: seq<int>, i: nat, d: int)
    requires i < |s| && s[i] == 1 - d
    ensures Eval(s[i := d], 2) == Eval(s, 2) + Power(2, i) * (2 * d - 1)
    ensures Power(2, i + 1) == 2 * Power(2, i)
  {
    EvalUpdate(s, i, d, 2);
  }

  lemma {:induction false} EvalOnes(s: seq<int>)
    requires forall k :: 0 <= k < |s| ==> s[k] == 1
    ensures Eval(s, 2) == Power(2, |s|) - 1
  {
    if s != [] {
      EvalOnes(s[1..]);
    }
  }

  lemma {:induction false} Power2Mono(m: nat, n: nat)
    requires m <= n
    ensures 0 < Power(2, m) <= Power(2, n)
  {
    PowerPositive(2, m);
    if m < n {
      Power2Mono(m, n - 1);
    }
  }

  /** A digit, then zeros up to position b, then the rest. */
  lemma DigitThenRest(s: seq<int>, b: nat)
    requires 1 <= b <= |s| && forall k :: 1 <= k < b ==> s[k] == 0
    ensures Eval(s, 2) == s[0] + Power(2, b) * Eval(s[b..], 2)
  {
    var t := s[1..];
    assert t[b - 1..] == s[b..];
    EvalLeadingZeros(t, b - 1, 2);
    assert Eval(s, 2) == s[0] + 2 * Eval(t, 2);
    assert Power(2, b) == 2 * Power(2, b - 1);
    hide Eval, Power;
    DoubleProduct(Power(2, b - 1), Eval(s[b..], 2));
  }

  lemma DoubleProduct(p: int, e: int)
    ensures (2 * p) * e == 2 * (p * e)
  {
  }

  /** Below 2^255 the bits above a window cannot all be ones. */
  lemma SomeZeroAbove(s: seq<int>, b: nat)
    requires 1 <= b < |s| && s[0] > 0 && (forall k :: 1 <= k < b ==> s[k] == 0)
    requires forall k :: b <= k < |s| ==> 0 <= s[k] <= 1
    requires Eval(s, 2) <= Power(2, |s| - 1)
    ensures exists k :: b <= k < |s| && s[k] == 0
  {
    if forall k :: b <= k < |s| ==> s[k] != 0 {
      DigitThenRest(s, b);
      EvalOnes(s[b..]);
      PowerAdd(2, b, |s| - b);
      Power2Mono(b, |s| - 1);
      TooLarge(Power(2, b), Power(2, |s| - b), Power(2, |s| - 1), s[0], Eval(s, 2));
    }
  }

  lemma TooLarge(p: int, q: int, half: int, d: int, e: int)
    requires p * q == 2 * half && 0 < p <= half && d > 0 && e == d + p * (q - 1)
    ensures e > half
  {
    assert p * (q - 1) == p * q - p;
  }

  predicate Odd(x: int) {
    x % 2 == 1
  }

  /** The largest digit of a window of w bits: (1 << (w - 1)) - 1. */
  function MaxDigit(w: nat): (m: i8)
    requires 2 <= w <= 7
  {
    ShiftBound(w - 1);
    (Shift(w - 1) as int) - 1
  }

  /** 1 << b. */
  function Shift(b: nat): (r: i8)
    requires 1 <= b <= 6
  {
    ShiftBound(b);
    Power(2, b)
  }

  lemma ShiftBound(b: nat)
    requires 1 <= b <= 6
    ensures 2 <= Power(2, b) <= 64
  {
    PowerZero(2);
    assert Power(2, 6) == 64;
    Power2Mono(1, b);
    Power2Mono(b, 6);
  }

  /** x << b. */
  function Shl(x: int, b: nat): int
    requires 1 <= b <= 6
  {
    x * Shift(b)
  }

  lemma ShlBit(b: nat)
    requires 1 <= b <= 6
    ensures Shl(0, b) == 0 && Shl(1, b) == Shift(b)
  {
  }

  lemma ShiftStep(b: nat, c: nat)
    requires 1 <= b <= 6 && 1 <= c <= 6
    ensures b == c + 1 ==> Shift(b) == 2 * Shift(c)
    ensures b > c ==> Shift(b) >= 2 * Shift(c)
    ensures 2 <= Shift(b) <= 64
  {
    ShiftBound(b);
    if b > c {
      Power2Mono(c + 1, b);
      assert Power(2, c + 1) == 2 * Power(2, c);
    }
  }

  /** Folding a bit into the digit at the front keeps the value. */
  lemma FoldBit(s: seq<int>, b: nat)
    requires 1 <= b < |s| && b <= 6
    ensures Eval(s[0 := s[0] + Shl(s[b], b)][b := 0], 2) == Eval(s, 2)
  {
    PowerZero(2);
    var t := s[0 := s[0] + Shl(s[b], b)];
    EvalUpdate(s, 0, s[0] + Shl(s[b], b), 2);
    EvalUpdate(t, b, 0, 2);
  }

  /** Subtracting the weight of a bit from the digit and carrying keeps the value. */
  lemma BorrowBit(s: seq<int>, t: seq<int>, b: nat)
    requires 1 <= b < |s| == |t| && b <= 6 && (forall k :: 1 <= k < b ==> s[k] == 0)
    requires t[0] == s[0] - Shift(b) && (forall k :: 1 <= k < b ==> t[k] == 0) && Eval(t[b..], 2) == Eval(s[b..], 2) + 1
    ensures Eval(t, 2) == Eval(s, 2)
  {
    hide Eval;
    DigitThenRest(s, b);
    DigitThenRest(t, b);
    hide Power;
    OneMore(Power(2, b), Eval(s[b..], 2));
  }

  lemma OneMore(p: int, e: int)
    ensures p * (e + 1) == p * e + p
  {
  }

  /** What is known of the digit at j after b - 1 of the bits above it are taken in. */
  ghost predicate Partial(r: seq<i8>, j: nat, w: nat, b: nat)
    requires |r| == 256 && j < 256 && 2 <= w <= 7 && 1 <= b <= 7
  {
    Odd(r[j])
    && (if b < w then 0 < r[j] <= Shift(b) - 1 else -MaxDigit(w) <= r[j] <= MaxDigit(w))
    && (forall k :: j < k < 256 ==> 0 <= r[k] <= 1)
    && (forall k :: j < k < j + b && k < j + w && k < 256 ==> r[k] == 0)
  }

  /** r[j] += v << b, and clears the bit. */
  method FoldIn(r: array<i8>, j: nat, b: nat)
    requires r.Length == 256 && 1 <= b <= 6 && j + b < 256 && 0 <= r[j + b] <= 1 && -64 < r[j] + Shl(r[j + b], b) < 64
    modifies r
    ensures forall k :: 0 <= k < j ==> r[k] == old(r[k])
    ensures Eval(r[j..], 2) == Eval(old(r[j..]), 2)
    ensures r[j] == old(r[j] + Shl(r[j + b], b)) && r[j + b] == 0
    ensures forall k :: j < k < 256 && k != j + b ==> r[k] == old(r[k])
  {
    hide Eval, Power, Shift, Shl;
    ghost var s := r[j..];
    FoldBit(s, b);
    r[j] := r[j] + Shl(r[j + b], b);
    r[j + b] := 0;
    assert r[j..] == s[0 := s[0] + Shl(s[b], b)][b := 0];
  }

  /** r[j] -= 1 << b, carrying into the bits from j + b up. */
  method Borrow(r: array<i8>, j: nat, b: nat)
    requires r.Length == 256 && 1 <= b <= 6 && j + b < 256 && 0 < r[j] < 64 && r[j + b] == 1
    requires (forall k :: j < k < j + b ==> r[k] == 0) && (forall k :: j < k < 256 ==> 0 <= r[k] <= 1)
    requires Eval(r[j..], 2) <= Power(2, 255 - j)
    modifies r
    ensures forall k :: 0 <= k < j ==> r[k] == old(r[k])
    ensures Eval(r[j..], 2) == Eval(old(r[j..]), 2)
    ensures r[j] == old(r[j]) - Shift(b) && r[j + b] == 0
    ensures (forall k :: j < k < j + b ==> r[k] == 0) && (forall k :: j < k < 256 ==> 0 <= r[k] <= 1)
  {
    hide Eval, Power, Shift, Shl;
    ShiftStep(b, b);
    ShlBit(b);
    ghost var s := r[j..];
    SomeZeroAbove(s, b);
    ghost var z :| b <= z < |s| && s[z] == 0;
    r[j] := r[j] - Shl(r[j + b], b);
    assert r[j + z] == s[z] == 0;
    assert r[j + b..] == s[b..];
    AddCarry(r, j + b);
    assert Eval(r[j..], 2) == Eval(s, 2) by {
      var t := r[j..];
      assert t[b..] == r[j + b..];
      BorrowBit(s, t, b);
    }
  }

  /** One bit of the window: folded in, borrowed from above, or left for the next window. */
  method WindowBit(r: array<i8>, j: nat, w: nat, b: nat) returns (stop: bool)
    requires r.Length == 256 && 2 <= w <= 7 && 1 <= b <= 6 && j + b < 256
    requires Partial(r[..], j, w, b) && Eval(r[j..], 2) <= Power(2, 255 - j)
    modifies r
    ensures forall k :: 0 <= k < j ==> r[k] == old(r[k])
    ensures Eval(r[j..], 2) == Eval(old(r[j..]), 2)
    ensures stop ==> b >= w && Partial(r[..], j, w, b)
    ensures !stop ==> Partial(r[..], j, w, b + 1)
  {
    hide Eval, Power, Shift, Shl;
    ShiftStep(b, w - 1);
    ShiftStep(w - 1, b);
    if b < 6 {
      ShiftStep(b + 1, b);
    }
    OddShift(b);
    ShlBit(b);
    assert r[j + b] == 0 || r[j + b] == 1;
    stop := false;
    if r[j] + Shl(r[j + b], b) <= MaxDigit(w) {
      FoldIn(r, j, b);
    } else if r[j] - Shl(r[j + b], b) >= -MaxDigit(w) {
      Borrow(r, j, b);
    } else if r[j + b] != 0 {
      stop := true;
    }
  }

  lemma OddShift(b: nat)
    requires 1 <= b <= 6
    ensures forall x: int :: Odd(x) ==> Odd(x + Shift(b)) && Odd(x - Shift(b))
  {
    assert Shift(b) == 2 * Power(2, b - 1);
  }

  /** Collects the window that starts at the set bit j into one signed digit. */
  method CollectWindow(r: array<i8>, j: nat, w: nat)
    requires r.Length == 256 && j < 256 && 2 <= w <= 7 && r[j] == 1
    requires forall k :: j <= k < 256 ==> 0 <= r[k] <= 1
    requires Eval(r[j..], 2) <= Power(2, 255 - j)
    modifies r
    ensures forall k :: 0 <= k < j ==> r[k] == old(r[k])
    ensures Eval(r[j..], 2) == Eval(old(r[j..]), 2)
    ensures WindowDigit(r[..], j, w)
    ensures forall k :: j < k < 256 ==> 0 <= r[k] <= 1
  {
    ShiftStep(1, 1);
    hide Eval, Power, Shift, MaxDigit, Partial;
    var b, stop := 1, false;
    FirstPartial(r[..], j, w);
    while b < 256 - j && b <= 6 && !stop
      invariant 1 <= b <= 7 && b <= 256 - j
      invariant forall k :: 0 <= k < j ==> r[k] == old(r[k])
      invariant Eval(r[j..], 2) == Eval(old(r[j..]), 2)
      invariant Partial(r[..], j, w, b) && (stop ==> b >= w)
      decreases !stop, 7 - b
    {
      stop := WindowBit(r, j, w, b);
      if !stop {
        b := b + 1;
      }
    }
    WholeWindow(r[..], j, w, b);
  }

  /** A finished digit: odd, within the window's bounds, followed by w - 1 zeros. */
  ghost predicate WindowDigit(r: seq<i8>, j: nat, w: nat)
    requires |r| == 256 && j < 256 && 2 <= w <= 7
  {
    Odd(r[j]) && -MaxDigit(w) <= r[j] <= MaxDigit(w)
    && forall k :: j < k < j + w && k < 256 ==> r[k] == 0
  }

  lemma FirstPartial(r: seq<i8>, j: nat, w: nat)
    requires |r| == 256 && j < 256 && 2 <= w <= 7 && r[j] == 1
    requires forall k :: j <= k < 256 ==> 0 <= r[k] <= 1
    ensures Partial(r, j, w, 1)
  {
    ShiftStep(1, 1);
    hide Power;
  }

  lemma WholeWindow(r: seq<i8>, j: nat, w: nat, b: nat)
    requires |r| == 256 && j < 256 && 2 <= w <= 7 && 1 <= b <= 7
    requires Partial(r, j, w, b) && (b >= w || b == 7 || b == 256 - j)
    ensures WindowDigit(r, j, w)
    ensures forall k :: j < k < 256 ==> 0 <= r[k] <= 1
  {
    if b < w {
      ShiftStep(w - 1, b);
      hide Power, Shift;
      assert b <= w - 1;
    }
  }

  /** After a window the remaining bits still denote less than 2^255 allows. */
  lemma RestIsSmall(s: seq<int>, w: nat, m: int)
    requires 1 < |s| <= 256 && 2 <= w && Eval(s, 2) <= Power(2, |s| - 1)
    requires Odd(s[0]) && s[0] >= -m && m == Power(2, w - 1) - 1
    requires forall k :: 0 < k < w && k < |s| ==> s[k] == 0
    ensures Eval(s[1..], 2) <= Power(2, |s| - 2)
  {
    if w >= |s| {
      EvalZeros(s[1..], 2);
      PowerPositive(2, |s| - 2);
    } else {
      DigitThenRest(s, w);
      var e := Eval(s[w..], 2);
      EvalLeadingZeros(s[1..], w - 1, 2);
      assert s[1..][w - 1..] == s[w..];
      assert Eval(s, 2) == s[0] + 2 * Eval(s[1..], 2);
      PowerAdd(2, w, |s| - 1 - w);
      PowerAdd(2, w - 1, |s| - 1 - w);
      assert Power(2, w) == 2 * Power(2, w - 1);
      PowerPositive(2, w - 1);
      hide Power, Eval;
      BoundedMultiple(Power(2, w - 1), e, Power(2, |s| - 1 - w), s[0]);
    }
  }

  lemma BoundedMultiple(h: int, e: int, q: int, d: int)
    requires h > 0 && Odd(d) && d > -h && d + (2 * h) * e <= (2 * h) * q
    ensures h * e <= h * q
  {
    if e <= q {
      MulMono(e, q, h);
    } else {
      MulMono(q + 1, e, 2 * h);
      assert false;
    }
  }

  /** The digits before position j are windows or zeros, and no nonzero digit lies
      within w - 1 places above another. */
  ghost predicate Windowed(r: seq<i8>, j: nat, w: nat)
    requires |r| == 256 && j <= 256 && 2 <= w <= 7
  {
    forall k :: 0 <= k < j ==> r[k] == 0 || WindowDigit(r, k, w)
  }

  /** Recodes a scalar below 2^255 so that every nonzero digit is odd, has fewer than w bits,
      and is followed by at least w - 1 zeros; no carry leaves position 255. */
  method SlidingWindow(r: array<i8>, s: Limbs, windowsize: nat)
    requires r.Length == 256 && Below256(s) && 2 <= windowsize <= 7
    requires Value(s) < 0x8000000000000000000000000000000000000000000000000000000000000000
    modifies r
    ensures Eval(r[..], 2) == Value(s)
    ensures Windowed(r[..], 256, windowsize)
  {
    TopWeights();
    Bits(r, s);
    hide Power, Eval, Value, WindowDigit, MaxDigit;
    assert r[0..] == r[..];
    var j := 0;
    while j < 256
      invariant 0 <= j <= 256
      invariant Eval(r[..], 2) == Value(s)
      invariant forall k :: j <= k < 256 ==> 0 <= r[k] <= 1
      invariant j < 256 ==> Eval(r[j..], 2) <= Power(2, 255 - j)
      invariant Windowed(r[..], j, windowsize)
    {
      if r[j] != 0 {
        ghost var before := r[..];
        CollectWindow(r, j, windowsize);
        SamePrefix(before, r[..], j, windowsize);
      } 
      NextPosition(r[..], j, windowsize);
      j := j + 1;
    }
  }

  lemma SamePrefix(s: seq<i8>, t: seq<i8>, j: nat, w: nat)
    requires |s| == 256 == |t| && j < 256 && 2 <= w <= 7
    requires Windowed(s, j, w) && s[j] != 0 && WindowDigit(t, j, w)
    requires forall k :: 0 <= k < j ==> s[k] == t[k]
    requires Eval(s[j..], 2) == Eval(t[j..], 2)
    ensures Eval(t, 2) == Eval(s, 2) && Windowed(t, j + 1, w)
  {
    assert s[..j] == t[..j];
    EvalSplit(s, j, 2);
    EvalSplit(t, j, 2);
    hide Eval, Power, MaxDigit;
    forall k | 0 <= k < j && t[k] != 0
      ensures WindowDigit(t, k, w)
    {
      assert WindowDigit(s, k, w);
      assert k + w <= j;
    }
  }

  lemma NextPosition(r: seq<i8>, j: nat, w: nat)
    requires |r| == 256 && j < 256 && 2 <= w <= 7 && (r[j] == 0 || WindowDigit(r, j, w))
    requires Eval(r[j..], 2) <= Power(2, 255 - j)
    ensures j < 255 ==> Eval(r[j + 1..], 2) <= Power(2, 254 - j)
  {
    if j < 255 {
      var s := r[j..];
      assert s[1..] == r[j + 1..];
      if r[j] == 0 {
        assert Power(2, 255 - j) == 2 * Power(2, 254 - j);
      } else {
        ShiftStep(w - 1, w - 1);
        RestIsSmall(s, w, MaxDigit(w));
      }
    }
  }
}
