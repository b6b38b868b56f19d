/** Machine words of the C sources, as ranges of the integers: every value that
    is stored in a variable of one of these types is proved to fit it.  Wrap-around
    is written out where the sources rely on it. */
module Words {
  type u8 = x: int | 0 <= x < 0x100
  type u32 = x: int | 0 <= x < 0x1_0000_0000
  type u64 = x: int | 0 <= x < 0x1_0000_0000_0000_0000
  type u128 = x: int | 0 <= x < 0x1_0000_0000_0000_0000_0000_0000_0000_0000

  /** Unsigned 64-bit subtraction, which wraps. */
  function Sub64(a: u64, b: u64): u64 {
    (a - b) % 0x1_0000_0000_0000_0000
  }

  /** Unsigned 64-bit addition, which wraps. */
  function Add64(a: u64, b: u64): u64 {
    (a + b) % 0x1_0000_0000_0000_0000
  }

  /** a << k for up == 2^k; the bits that leave the word are lost. */
  function Shl64(a: u64, up: nat): u64 {
    (a as int) * up % 0x1_0000_0000_0000_0000
  }

  function Pow2(n: nat): (r: nat)
    ensures r > 0
  {
    if n == 0 then 1 else 2 * Pow2(n - 1)
  }

  /** The full product of two 64-bit words. */
  function Mul128(a: u64, b: u64): u128 {
    ProductBound(a, b, 0x1_0000_0000_0000_0000, 0x1_0000_0000_0000_0000);
    a * b
  }

  lemma MulMono(a: int, b: int, c: int)
    requires a <= b && 0 <= c
    ensures a * c <= b * c
  {
    assert 0 <= (b - a) * c;
  }

  lemma ProductBound(a: int, b: int, m: int, n: int)
    requires 0 <= a < m && 0 <= b < n
    ensures 0 <= a * b <= (m - 1) * (n - 1)
  {
    MulMono(a, m - 1, b);
    MulMono(b, n - 1, m - 1);
  }

  lemma DivModUnique(v: int, m: int, q: int, r: int)
    requires m > 0 && v == m * q + r && 0 <= r < m
    ensures v / m == q && v % m == r
  {
    var d := v / m - q;
    assert m * d == r - v % m;
    if d > 0 {
      MulMono(1, d, m);
      assert false;
    } else if d < 0 {
      MulMono(d, -1, m);
      assert false;
    }
  }

  lemma DivDiv(v: nat, a: nat, b: nat)
    requires a > 0 && b > 0
    ensures a * b > 0 && v / (a * b) == v / a / b
  {
    var q, r := v / a, v % a;
    var k, t := q / b, q % b;
    MulMono(1, a, b);
    Regrouped(a, b, k, t);
    assert v == (a * b) * k + (a * t + r);
    MulMono(t, b - 1, a);
    assert a * t + r < a * b;
    DivModUnique(v, a * b, k, a * t + r);
  }

  lemma Regrouped(a: int, b: int, k: int, t: int)
    ensures a * (b * k + t) == (a * b) * k + a * t && (b - 1) * a == a * b - a && t * a == a * t
  {
    assert a * (b * k) == (a * b) * k;
  }

  lemma {:induction false} Pow2Add(m: nat, n: nat)
    ensures Pow2(m + n) == Pow2(m) * Pow2(n)
  {
    if m > 0 {
      Pow2Add(m - 1, n);
    }
  }

  /** Exclusive or and inclusive or of the low n bits. */
  function Xor(a: nat, b: nat, n: nat): nat {
    if n == 0 then 0 else (a % 2 + b % 2) % 2 + 2 * Xor(a / 2, b / 2, n - 1)
  }

  function Or(a: nat, b: nat, n: nat): nat {
    if n == 0 then 0 else (if a % 2 + b % 2 > 0 then 1 else 0) + 2 * Or(a / 2, b / 2, n - 1)
  }

  lemma XorFront(a: nat, b: nat, n: nat)
    ensures Xor(a, b, n + 1) == (a % 2 + b % 2) % 2 + 2 * Xor(a / 2, b / 2, n)
  {
  }

  lemma {:induction false} XorZero(a: nat, b: nat, n: nat)
    requires a < Pow2(n) && b < Pow2(n)
    ensures Xor(a, b, n) < Pow2(n)
    ensures Xor(a, b, n) == 0 <==> a == b
  {
    if n > 0 {
      XorZero(a / 2, b / 2, n - 1);
    }
  }

  lemma {:induction false} OrZero(a: nat, b: nat, n: nat)
    requires a < Pow2(n) && b < Pow2(n)
    ensures Or(a, b, n) < Pow2(n)
    ensures Or(a, b, n) == 0 <==> a == 0 && b == 0
  {
    if n > 0 {
      OrZero(a / 2, b / 2, n - 1);
    }
  }

  function And(a: nat, b: nat, n: nat): nat {
    if n == 0 then 0 else (if a % 2 + b % 2 == 2 then 1 else 0) + 2 * And(a / 2, b / 2, n - 1)
  }

  /** A mask of all ones or all zeros keeps or clears a word; ones complement it under exclusive or. */
  lemma Masks(a: nat, n: nat)
    requires a < Pow2(n)
    ensures And(a, Pow2(n) - 1, n) == a && And(a, 0, n) == 0
    ensures Or(a, 0, n) == a && Or(0, a, n) == a
    ensures Xor(a, Pow2(n) - 1, n) == Pow2(n) - 1 - a && Xor(a, 0, n) == a
  {
    AndMasks(a, n);
    OrMasks(a, n);
    XorMasks(a, n);
  }

  lemma {:induction false} AndMasks(a: nat, n: nat)
    requires a < Pow2(n)
    ensures And(a, Pow2(n) - 1, n) == a && And(a, 0, n) == 0
  {
    if n > 0 {
      AndMasks(a / 2, n - 1);
      assert (Pow2(n) - 1) / 2 == Pow2(n - 1) - 1 && (Pow2(n) - 1) % 2 == 1;
    }
  }

  lemma {:induction false} OrMasks(a: nat, n: nat)
    requires a < Pow2(n)
    ensures Or(a, 0, n) == a && Or(0, a, n) == a
  {
    if n > 0 {
      OrMasks(a / 2, n - 1);
    }
  }

  lemma XorMasksStep(a: nat, p: nat, n: nat)
    requires p > 0 && Xor(a / 2, p - 1, n) == p - 1 - a / 2 && Xor(a / 2, 0, n) == a / 2
    ensures Xor(a, 2 * p - 1, n + 1) == 2 * p - 1 - a && Xor(a, 0, n + 1) == a
  {
    hide Xor;
    XorFront(a, 2 * p - 1, n);
    XorFront(a, 0, n);
    assert (2 * p - 1) / 2 == p - 1 && (2 * p - 1) % 2 == 1;
  }

  lemma {:induction false} XorMasks(a: nat, n: nat)
    requires a < Pow2(n)
    ensures Xor(a, Pow2(n) - 1, n) == Pow2(n) - 1 - a && Xor(a, 0, n) == a
  {
    if n > 0 {
      XorMasks(a / 2, n - 1);
      XorMasksStep(a, Pow2(n - 1), n - 1);
    }
  }
}
