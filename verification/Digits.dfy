/** Signed digit strings and the integers they denote. */
module Digits {
  import opened Words

  type i8 = x: int | -128 <= x < 128

  function Power(base: int, n: nat): int {
    if n == 0 then 1 else base * Power(base, n - 1)
  }

  /** The value of a digit string, least significant digit first. */
  function Eval(s: seq<int>, base: int): int {
    if s == [] then 0 else s[0] + base * Eval(s[1..], base)
  }

  lemma {:induction false} PowerAdd(base: int, m: nat, n: nat)
    ensures Power(base, m + n) == Power(base, m) * Power(base, n)
  {
    if m > 0 {
      PowerAdd(base, m - 1, n);
      assert Power(base, m + n) == base * (Power(base, m - 1) * Power(base, n));
    }
  }

  lemma {:induction false} PowerPositive(base: int, n: nat)
    requires base > 0
    ensures Power(base, n) > 0
  {
    if n > 0 {
      PowerPositive(base, n - 1);
    }
  }

  lemma EvalFront(s: seq<int>, base: int)
    requires s != []
    ensures Eval(s, base) == s[0] + base * Eval(s[1..], base)
  {
  }

  lemma MultiplyOut(b: int, l: int, q: int, e: int)
    ensures b * (l + q * e) == b * l + (b * q) * e
  {
    assert b * (q * e) == (b * q) * e;
  }

  /** A string splits into a low part and a high part. */
  lemma {:induction false} EvalSplit(s: seq<int>, i: nat, base: int)
    requires i <= |s|
    ensures Eval(s, base) == Eval(s[..i], base) + Power(base, i) * Eval(s[i..], base)
  {
    if i == 0 {
      assert s[..0] == [] && s[0..] == s;
    } else {
      EvalSplit(s[1..], i - 1, base);
      assert s[1..][..i - 1] == s[..i][1..] && s[1..][i - 1..] == s[i..];
      hide Eval;
      EvalFront(s, base);
      EvalFront(s[..i], base);
      var e, q, l := Eval(s[i..], base), Power(base, i - 1), Eval(s[..i][1..], base);
      MultiplyOut(base, l, q, e);
    }
  }

  lemma EvalOne(d: int, base: int)
    ensures Eval([d], base) == d
  {
    assert [d][1..] == [];
  }

  lemma EvalAppend(s: seq<int>, d: int, base: int)
    ensures Eval(s + [d], base) == Eval(s, base) + Power(base, |s|) * d
  {
    EvalSplit(s + [d], |s|, base);
    assert (s + [d])[..|s|] == s && (s + [d])[|s|..] == [d];
    EvalOne(d, base);
  }

  lemma FrontDigit(s: seq<int>, d: int, base: int)
    requires s != []
    ensures Eval(s[0 := d], base) == Eval(s, base) + (d - s[0])
  {
    assert s[0 := d][1..] == s[1..];
  }

  lemma Spread(p: int, a: int, c: int)
    ensures p * (a + c) == p * a + p * c
  {
  }

  /** Changing one digit changes the value by its weight. */
  lemma EvalUpdate(s: seq<int>, i: nat, d: int, base: int)
    requires i < |s|
    ensures Eval(s[i := d], base) == Eval(s, base) + Power(base, i) * (d - s[i])
  {
    EvalSplit(s, i, base);
    EvalSplit(s[i := d], i, base);
    var hi := s[i..];
    assert s[i := d][..i] == s[..i] && s[i := d][i..] == hi[0 := d];
    FrontDigit(hi, d, base);
    hide Eval, Power;
    Spread(Power(base, i), Eval(hi, base), d - s[i]);
  }

  lemma {:induction false} EvalZeros(s: seq<int>, base: int)
    requires forall k :: 0 <= k < |s| ==> s[k] == 0
    ensures Eval(s, base) == 0
  {
    if s != [] {
      EvalZeros(s[1..], base);
    }
  }

  /** A block of zero digits multiplies the rest by a power of the base. */
  lemma EvalLeadingZeros(s: seq<int>, n: nat, base: int)
    requires n <= |s| && forall k :: 0 <= k < n ==> s[k] == 0
    ensures Eval(s, base) == Power(base, n) * Eval(s[n..], base)
  {
    EvalSplit(s, n, base);
    EvalZeros(s[..n], base);
  }

  /** Moving the lowest digit of v to the end of s keeps the denoted value. */
  lemma MoveDigit(s: seq<int>, v: nat, base: int)
    requires base > 0
    ensures Eval(s + [v % base], base) + Power(base, |s| + 1) * (v / base) == Eval(s, base) + Power(base, |s|) * v
  {
    EvalAppend(s, v % base, base);
    var p := Power(base, |s|);
    assert Power(base, |s| + 1) == base * p;
    hide Power, Eval;
    DigitOfWeight(p, v, base);
  }

  lemma DigitOfWeight(p: int, v: int, base: int)
    requires base > 0
    ensures p * v == p * (v % base) + (base * p) * (v / base)
  {
    Distribute(p, v % base, base, v / base);
  }

  lemma Distribute(p: int, d: int, b: int, q: int)
    ensures p * (d + b * q) == p * d + (b * p) * q
  {
    assert p * (b * q) == (b * p) * q;
  }

  lemma SmallQuotient(v: int, base: int, n: nat)
    requires base > 0 && n > 0 && 0 <= v < Power(base, n)
    ensures 0 <= v / base < Power(base, n - 1)
  {
    if v / base >= Power(base, n - 1) {
      MulMono(Power(base, n - 1), v / base, base);
      assert false;
    }
  }

  /** Writes n digits of v at r[q..]. */
  method WriteDigits(r: array<i8>, q: nat, v0: u64, n: nat, base: u64)
    requires 2 <= base <= 16 && q + n <= r.Length && v0 < Power(base, n)
    modifies r
    ensures r[..q] == old(r[..q]) && r[q + n..] == old(r[q + n..])
    ensures forall k :: q <= k < q + n ==> 0 <= r[k] < base
    ensures Eval(r[..q + n], base) == Eval(old(r[..q]), base) + Power(base, q) * v0
  {
    hide Eval;
    var v := v0;
    var j := 0;
    ghost var low := Eval(r[..q], base);
    while j < n
      invariant 0 <= j <= n && 0 <= v < Power(base, n - j)
      invariant r[..q] == old(r[..q]) && r[q + n..] == old(r[q + n..])
      invariant forall k :: q <= k < q + j ==> 0 <= r[k] < base
      invariant Eval(r[..q + j], base) + Power(base, q + j) * v == low + Power(base, q) * v0
    {
      ghost var s := r[..q + j];
      r[q + j] := v % base;
      assert r[..q + (j + 1)] == s + [v % base];
      MoveDigit(s, v, base);
      SmallQuotient(v, base, n - j);
      v := v / base;
      j := j + 1;
    }
  }
}
