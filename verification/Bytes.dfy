/** Little-endian byte strings and the integers they denote. */
module Bytes {
  import opened Words

  function LeValue(s: seq<u8>): nat {
    if s == [] then 0 else s[0] + 256 * LeValue(s[1..])
  }

  function LeBytes(v: nat, n: nat): (s: seq<u8>)
    ensures |s| == n
  {
    if n == 0 then [] else [v % 256] + LeBytes(v / 256, n - 1)
  }

  function Pow256(n: nat): (r: nat)
    ensures r > 0
  {
    if n == 0 then 1 else 256 * Pow256(n - 1)
  }

  lemma {:induction false} LeBytesOfLeValue(s: seq<u8>)
    ensures LeBytes(LeValue(s), |s|) == s
    ensures LeValue(s) < Pow256(|s|)
  {
    if s == [] {
    } else {
      LeBytesOfLeValue(s[1..]);
      assert LeValue(s) / 256 == LeValue(s[1..]) && LeValue(s) % 256 == s[0];
    }
  }

  lemma {:induction false} LeValueOfLeBytes(v: nat, n: nat)
    requires v < Pow256(n)
    ensures LeValue(LeBytes(v, n)) == v
  {
    if n == 0 {
    } else {
      LeValueOfLeBytes(v / 256, n - 1);
      var s := LeBytes(v, n);
      assert s[1..] == LeBytes(v / 256, n - 1);
    }
  }

  /** Byte j of a number. */
  lemma {:induction false} LeByteAt(v: nat, n: nat, j: nat)
    requires j < n
    ensures LeBytes(v, n)[j] == v / Pow256(j) % 256
  {
    if j > 0 {
      LeByteAt(v / 256, n - 1, j - 1);
      DivDiv(v, 256, Pow256(j - 1));
    }
  }

  /** The first n bytes of a number do not see what is beyond them. */
  lemma {:induction false} LeBytesMod(v: nat, n: nat)
    ensures LeBytes(v % Pow256(n), n) == LeBytes(v, n)
  {
    if n > 0 {
      LeBytesMod(v / 256, n - 1);
      LowByte(v, Pow256(n - 1));
    }
  }

  lemma LowByte(v: nat, p: nat)
    requires p > 0
    ensures v % (256 * p) % 256 == v % 256 && v % (256 * p) / 256 == v / 256 % p
  {
    var u := v / 256;
    var r := v % 256 + 256 * (u % p);
    assert v == 256 * (p * (u / p) + u % p) + v % 256;
    DivModUnique(v, 256 * p, u / p, r);
    DivModUnique(r, 256, u % p, v % 256);
  }

  lemma {:induction false} LeValueConcat(s: seq<u8>, t: seq<u8>)
    ensures LeValue(s + t) == LeValue(s) + Pow256(|s|) * LeValue(t)
  {
    if s == [] {
      assert s + t == t;
    } else {
      LeValueConcat(s[1..], t);
      assert (s + t)[1..] == s[1..] + t;
      assert Pow256(|s|) * LeValue(t) == 256 * (Pow256(|s| - 1) * LeValue(t));
    }
  }

  lemma {:induction false} LeValueZeros(s: seq<u8>, n: nat)
    ensures LeValue(s + seq(n, _ => 0)) == LeValue(s)
    decreases |s|, n
  {
    var z := seq(n, _ => 0);
    if s != [] {
      LeValueZeros(s[1..], n);
      assert (s + z)[1..] == s[1..] + z;
    } else if n > 0 {
      LeValueZeros([], n - 1);
      assert (s + z)[1..] == [] + seq(n - 1, _ => 0);
    } else {
      assert s + z == [];
    }
  }

  lemma Pow256At8()
    ensures Pow256(8) == 0x1_0000_0000_0000_0000
  {
    assert Pow256(3) == 0x1000000;
    assert Pow256(6) == 0x1000000000000;
  }

  lemma Pow256At16()
    ensures Pow256(16) == 0x1_0000_0000_0000_0000_0000_0000_0000_0000
  {
    Pow256At8();
    assert Pow256(9) == 256 * Pow256(8);
    assert Pow256(12) == 0x1000000 * Pow256(9);
    assert Pow256(16) == 0x100000000 * Pow256(12);
  }

  /** The eight bytes at p[i..] as a word, least significant byte first. */
  function Load64(p: seq<u8>, i: nat): u64
    requires i + 8 <= |p|
  {
    (p[i] as int) + 0x100 * (p[i + 1] as int) + 0x10000 * (p[i + 2] as int) + 0x1000000 * (p[i + 3] as int)
    + 0x100000000 * (p[i + 4] as int) + 0x10000000000 * (p[i + 5] as int) + 0x1000000000000 * (p[i + 6] as int)
    + 0x100000000000000 * (p[i + 7] as int)
  }

  /** The eight bytes of a word, least significant byte first. */
  function Store64(w: u64): (s: seq<u8>)
    ensures |s| == 8
  {
    [w % 0x100, w / 0x100 % 0x100, w / 0x10000 % 0x100, w / 0x1000000 % 0x100, w / 0x100000000 % 0x100,
     w / 0x10000000000 % 0x100, w / 0x1000000000000 % 0x100, w / 0x100000000000000 % 0x100]
  }

  lemma LeValueCons(s: seq<u8>, i: nat)
    requires i < |s|
    ensures LeValue(s[i..]) == (s[i] as int) + 256 * LeValue(s[i + 1..])
  {
    assert s[i..][1..] == s[i + 1..];
  }

  lemma LeValueOf8(s: seq<u8>)
    requires |s| == 8
    ensures LeValue(s) == Load64(s, 0)
  {
    assert s[0..] == s;
    LeValueCons(s, 0); LeValueCons(s, 1); LeValueCons(s, 2); LeValueCons(s, 3);
    LeValueCons(s, 4); LeValueCons(s, 5); LeValueCons(s, 6); LeValueCons(s, 7);
    hide LeValue;
    assert LeValue(s[8..]) == 0 by {
      assert s[8..] == [];
      EmptyValue();
    }
  }

  lemma EmptyValue()
    ensures LeValue([]) == 0
  {
  }

  lemma StoredWord(w: u64)
    ensures LeValue(Store64(w)) == w
  {
    LeValueOf8(Store64(w));
    hide LeValue;
    assert w / 0x100000000000000 < 0x100;
    var w1 := w / 0x100;
    var w2 := w / 0x10000;
    var w3 := w / 0x1000000;
    var w4 := w / 0x100000000;
    var w5 := w / 0x10000000000;
    var w6 := w / 0x1000000000000;
    var w7 := w / 0x100000000000000;
    DivDiv(w, 0x100, 0x100);
    DivDiv(w, 0x10000, 0x100);
    DivDiv(w, 0x1000000, 0x100);
    DivDiv(w, 0x100000000, 0x100);
    DivDiv(w, 0x10000000000, 0x100);
    DivDiv(w, 0x1000000000000, 0x100);
    WordDigits(w, w1, w2, w3, w4, w5, w6, w7);
  }

  lemma WordDigits(w: int, w1: int, w2: int, w3: int, w4: int, w5: int, w6: int, w7: int)
    requires w1 == w / 0x100 && w2 == w1 / 0x100 && w3 == w2 / 0x100 && w4 == w3 / 0x100
    requires w5 == w4 / 0x100 && w6 == w5 / 0x100 && w7 == w6 / 0x100 && 0 <= w7 < 0x100
    ensures w == w % 0x100 + 0x100 * (w1 % 0x100) + 0x10000 * (w2 % 0x100) + 0x1000000 * (w3 % 0x100)
      + 0x100000000 * (w4 % 0x100)
      + 0x10000000000 * (w5 % 0x100) + 0x1000000000000 * (w6 % 0x100) + 0x100000000000000 * (w7 % 0x100)
  {
  }

  /** A string is its first word plus 2^64 times the rest. */
  lemma FirstWord(p: seq<u8>, i: nat)
    requires i + 8 <= |p|
    ensures LeValue(p[i..]) == Load64(p, i) + 0x1_0000_0000_0000_0000 * LeValue(p[i + 8..])
  {
    var s, t := p[i..i + 8], p[i + 8..];
    assert p[i..] == s + t;
    LeValueConcat(s, t);
    LeValueOf8(s);
    Pow256At8();
  }

  lemma FourWords(p: seq<u8>, i: nat)
    requires i + 32 <= |p|
    ensures LeValue(p[i..]) == Load64(p, i) + 0x1_0000_0000_0000_0000 * Load64(p, i + 8)
      + 0x1_0000_0000_0000_0000_0000_0000_0000_0000 * Load64(p, i + 16)
      + 0x1_0000_0000_0000_0000_0000_0000_0000_0000_0000_0000_0000_0000 * Load64(p, i + 24)
      + 0x1_0000_0000_0000_0000_0000_0000_0000_0000_0000_0000_0000_0000_0000_0000_0000_0000 * LeValue(p[i + 32..])
  {
    FirstWord(p, i);
    FirstWord(p, i + 8);
    FirstWord(p, i + 16);
    FirstWord(p, i + 24);
  }

  /** The value of four 64-bit words. */
  function Words4(x0: int, x1: int, x2: int, x3: int): int {
    x0 + 0x1_0000_0000_0000_0000 * x1 + 0x1_0000_0000_0000_0000_0000_0000_0000_0000 * x2
    + 0x1_0000_0000_0000_0000_0000_0000_0000_0000_0000_0000_0000_0000 * x3
  }

  lemma StoredWords(w0: u64, w1: u64, w2: u64, w3: u64)
    ensures LeValue(Store64(w0) + Store64(w1) + Store64(w2) + Store64(w3)) == Words4(w0, w1, w2, w3)
  {
    hide Store64, LeValue;
    StoredWord(w0);
    StoredWord(w1);
    StoredWord(w2);
    StoredWord(w3);
    Pow256At8();
    LeValueConcat(Store64(w2), Store64(w3));
    LeValueConcat(Store64(w1), Store64(w2) + Store64(w3));
    LeValueConcat(Store64(w0), Store64(w1) + (Store64(w2) + Store64(w3)));
    assert Store64(w0) + Store64(w1) + Store64(w2) + Store64(w3)
      == Store64(w0) + (Store64(w1) + (Store64(w2) + Store64(w3)));
  }

  lemma {:induction false} Pow256Mono(m: nat, n: nat)
    requires m <= n
    ensures Pow256(m) <= Pow256(n)
  {
    if m < n {
      Pow256Mono(m, n - 1);
    }
  }

  lemma Pow256At32()
    ensures Pow256(32) == 0x1_0000_0000_0000_0000_0000_0000_0000_0000_0000_0000_0000_0000_0000_0000_0000_0000
  {
    Pow256At8();
    assert Pow256(12) == 0x1_0000_0000_0000_0000_0000_0000;
    assert Pow256(16) == 0x1_0000_0000_0000_0000_0000_0000_0000_0000;
    assert Pow256(20) == 0x1_0000_0000_0000_0000_0000_0000_0000_0000_0000_0000;
    assert Pow256(24) == 0x1_0000_0000_0000_0000_0000_0000_0000_0000_0000_0000_0000_0000;
    assert Pow256(28) == 0x1_0000_0000_0000_0000_0000_0000_0000_0000_0000_0000_0000_0000_0000_0000;
  }

  /** Comparison in constant time: collects differing bits and tests for none at the end. */
  method Verify(x: seq<u8>, y: seq<u8>, len: nat) returns (equal: bool)
    requires len <= |x| && len <= |y|
    ensures equal == (x[..len] == y[..len])
  {
    hide Or, Xor;
    var differentBits: u64 := 0;
    for i := 0 to len
      invariant differentBits < 256
      invariant differentBits == 0 <==> x[..i] == y[..i]
    {
      OneMoreByte(differentBits, x[i], y[i]);
      assert x[..i + 1] == x[..i] + [x[i]] && y[..i + 1] == y[..i] + [y[i]];
      differentBits := Or(differentBits, Xor(x[i], y[i], 8), 8);
    }
    equal := Sub64(differentBits, 1) / 256 % 2 == 1;
  }

  lemma OneMoreByte(bits: nat, a: u8, b: u8)
    requires bits < 256
    ensures var next := Or(bits, Xor(a, b, 8), 8); next < 256 && (next == 0 <==> bits == 0 && a == b)
  {
    hide Or, Xor;
    assert Pow2(8) == 256;
    XorZero(a, b, 8);
    OrZero(bits, Xor(a, b, 8), 8);
  }

  lemma {:induction false} LeBytesOfZero(n: nat)
    ensures LeBytes(0, n) == seq(n, _ => 0)
  {
    if n > 0 {
      LeBytesOfZero(n - 1);
      assert seq(n, _ => 0) == [0] + seq(n - 1, _ => 0);
    }
  }

  lemma Pow256At31()
    ensures Pow256(31) == 0x100000000000000000000000000000000000000000000000000000000000000
  {
    Pow256At32();
    assert Pow256(32) == 256 * Pow256(31);
  }
}
