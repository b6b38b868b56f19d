/** Conversion between 32-byte strings and limbs of 26 and 25 bits. */
module FieldCodec32 {
  import opened Words
  import opened Bytes
  import opened Field32
  import Field64
  import FieldCodec
  import Fp

  // ----- reading -----

  /** The four bytes at p[i..] as a word, least significant byte first. */
  function Load32(p: seq<u8>, i: nat): u32
    requires i + 4 <= |p|
  {
    (p[i] as int) + 0x100 * (p[i + 1] as int) + 0x10000 * (p[i + 2] as int) + 0x1000000 * (p[i + 3] as int)
  }

  lemma TwoWords(p: seq<u8>, i: nat)
    requires i + 8 <= |p|
    ensures Load64(p, i) == Load32(p, i) + 0x1_0000_0000 * Load32(p, i + 4)
  {
  }

  /** A window that starts in one word, a * b = 2^32, and ends in the next. */
  method Window(lo: u32, hi: u32, a: nat, ghost b: nat, ghost c: nat, mask: nat) returns (r: u32)
    requires a > 0 && b > 0 && c > 0 && a * b == 0x1_0000_0000 && mask == b * c <= 0x4000000
    ensures r == lo / a + b * (hi % c) < mask
  {
    JoinedQuotient(lo, hi, a, b);
    TopPart(lo, a, b);
    LowPart(hi, lo / a, b, c);
    var joined: u64 := 0x1_0000_0000 * hi + lo;
    r := joined / a % mask;
  }

  lemma JoinedQuotient(lo: u32, hi: u32, a: nat, b: nat)
    requires a > 0 && a * b == 0x1_0000_0000
    ensures (0x1_0000_0000 * hi + lo) / a == b * hi + lo / a
  {
    var q := lo / a;
    Regrouped(a, b, hi, q);
    DivModUnique((a * b) * hi + lo, a, b * hi + q, lo % a);
  }

  lemma Regrouped(a: int, b: int, h: int, q: int)
    ensures a * (b * h + q) == (a * b) * h + a * q
  {
    assert a * (b * h) == (a * b) * h;
  }

  lemma TopPart(lo: u32, a: nat, b: nat)
    requires a > 0 && a * b == 0x1_0000_0000
    ensures lo / a < b
  {
    if lo / a >= b {
      MulMono(b, lo / a, a);
    }
  }

  lemma LowPart(hi: nat, x: nat, b: nat, c: nat)
    requires x < b && c > 0
    ensures b * c > 0 && (b * hi + x) % (b * c) == x + b * (hi % c) < b * c
  {
    var q, r := hi / c, hi % c;
    MulMono(1, c, b);
    MulMono(r, c - 1, b);
    assert b * hi + x == (b * c) * q + (x + b * r) by { assert b * (c * q) == (b * c) * q; }
    DivModUnique(b * hi + x, b * c, q, x + b * r);
  }

  lemma ExpandedSum(x0: u32, x1: u32, x2: u32, x3: u32, x4: u32, x5: u32, x6: u32, x7: u32, f: Fe32)
    requires f.l0 == x0 % 0x4000000 && f.l1 == x0 / 0x4000000 + 0x40 * (x1 % 0x80000)
    requires f.l2 == x1 / 0x80000 + 0x2000 * (x2 % 0x2000) && f.l3 == x2 / 0x2000 + 0x80000 * (x3 % 0x40)
    requires f.l4 == x3 / 0x40 && f.l5 == x4 % 0x2000000 && f.l6 == x4 / 0x2000000 + 0x80 * (x5 % 0x80000)
    requires f.l7 == x5 / 0x80000 + 0x2000 * (x6 % 0x1000) && f.l8 == x6 / 0x1000 + 0x100000 * (x7 % 0x40)
    requires f.l9 == x7 / 0x40 % 0x2000000
    ensures Words4(x0 + 0x1_0000_0000 * x1, x2 + 0x1_0000_0000 * x3, x4 + 0x1_0000_0000 * x5, x6 + 0x1_0000_0000 * x7)
      == Value(f) + 0x8000000000000000000000000000000000000000000000000000000000000000 * (x7 / 0x80000000)
  {
    hide Weigh;
    Weights(f.Digits());
    assert x7 / 0x40 % 0x2000000 == x7 / 0x40 - 0x2000000 * (x7 / 0x80000000);
  }

  /** Reads 32 bytes, ignoring the top bit. */
  method Expand(input: seq<u8>) returns (out: Fe32)
    requires |input| == 32
    ensures Digits255(out) && Value(out) == LeValue(input) % FieldCodec.TWO_TO_255
  {
    hide LeValue, Load64, Load32, Weigh, Words4;
    var x0, x1, x2, x3 := Load32(input, 0), Load32(input, 4), Load32(input, 8), Load32(input, 12);
    var x4, x5, x6, x7 := Load32(input, 16), Load32(input, 20), Load32(input, 24), Load32(input, 28);
    var l1 := Window(x0, x1, 0x4000000, 0x40, 0x80000, 0x2000000);
    var l2 := Window(x1, x2, 0x80000, 0x2000, 0x2000, 0x4000000);
    var l3 := Window(x2, x3, 0x2000, 0x80000, 0x40, 0x2000000);
    var l6 := Window(x4, x5, 0x2000000, 0x80, 0x80000, 0x4000000);
    var l7 := Window(x5, x6, 0x80000, 0x2000, 0x1000, 0x2000000);
    var l8 := Window(x6, x7, 0x1000, 0x100000, 0x40, 0x4000000);
    out := Fe32(x0 % 0x4000000, l1, l2, l3, x3 / 0x40, x4 % 0x2000000, l6, l7, l8, x7 / 0x40 % 0x2000000);
    ExpandedSum(x0, x1, x2, x3, x4, x5, x6, x7, out);
    InputWords(input);
    Below255(out);
    DivModUnique(LeValue(input), FieldCodec.TWO_TO_255, x7 / 0x80000000, Value(out));
  }

  lemma InputWords(p: seq<u8>)
    requires |p| == 32
    ensures LeValue(p) == Words4(Load32(p, 0) + 0x1_0000_0000 * Load32(p, 4),
      Load32(p, 8) + 0x1_0000_0000 * Load32(p, 12),
      Load32(p, 16) + 0x1_0000_0000 * Load32(p, 20), Load32(p, 24) + 0x1_0000_0000 * Load32(p, 28))
  {
    hide LeValue, Load64, Load32;
    FourWords(p, 0);
    assert p[0..] == p && p[32..] == [];
    EmptyValue();
    TwoWords(p, 0);
    TwoWords(p, 8);
    TwoWords(p, 16);
    TwoWords(p, 24);
  }

  // ----- full reduction -----

  /** A single excess of at most 57 in the lowest limb disappears in one pass. */
  lemma SecondPass(t: Fe32, out: Fe32, c: int)
    requires 0 <= Value(t) < FieldCodec.TWO_TO_255 + 0x100 && Digits255(out.(l0 := 0)) && out.l0 < 0x4000000 + 19 * c
    requires Value(out) == Value(t) - 0x7fffffffffffffffffffffffffffffffffffffffffffffffffffffffffffffed * c
      && 0x8000000000000000000000000000000000000000000000000000000000000000 * c <= Value(t)
      < 0x8000000000000000000000000000000000000000000000000000000000000000 * (c + 1)
    ensures Digits255(out)
  {
    hide Weigh;
    Weights(out.Digits());
  }

  lemma FirstPass(t: Fe32, out: Fe32, c: int)
    requires Loose(t) && 0x2000000 * c <= t.l9 + 0x40 && 0 <= c
      && 0x8000000000000000000000000000000000000000000000000000000000000000 * c <= Value(t)
        < 0x8000000000000000000000000000000000000000000000000000000000000000 * (c + 1)
    requires Value(out) == Value(t) - 0x7fffffffffffffffffffffffffffffffffffffffffffffffffffffffffffffed * c
    ensures 0 <= Value(out) < FieldCodec.TWO_TO_255 + 0x100
  {
    hide Value;
    assert c <= 3;
  }

  /** Adding 19 with a carry that folds back is adding 19 modulo p, kept above 18. */
  lemma OffsetPass(u: Fe32, v: Fe32, c: int)
    requires Digits255(u) && Digits255(v.(l0 := 0)) && v.l0 < 0x4000000 + 19 * c
    requires Value(v) == Value(u) + 19 - 0x7fffffffffffffffffffffffffffffffffffffffffffffffffffffffffffffed * c
      && 0x8000000000000000000000000000000000000000000000000000000000000000 * c <= Value(u) + 19
      < 0x8000000000000000000000000000000000000000000000000000000000000000 * (c + 1)
    ensures Digits255(v) && Value(v) == Fp.Residue(Value(u)) + 19
  {
    hide Weigh;
    Weights(v.Digits());
    Below255(u);
    Fp.ResidueIsMod(Value(u));
    hide Fp.Residue;
    if c == 0 {
      DivModUnique(Value(u), Fp.P, 0, Value(u));
    } else {
      assert c == 1;
      DivModUnique(Value(u), Fp.P, 1, Value(u) - Fp.P);
    }
  }

  /** The reduction behind Contract: limbs of the residue itself. */
  method Freeze(input: Fe32) returns (out: Fe32)
    requires Loose(input)
    ensures Digits255(out) && Value(out) == Elem(input)
  {
    hide Fp.Residue, Weigh;
    ghost var c1, c2, c3;
    var t;
    t, c1 := CarryFull(input);
    ghost var t1 := t;
    FirstPass(input, t1, c1);
    t, c2 := CarryFull(t);
    SecondPass(t1, t, c2);
    ghost var u := t;
    LowLimb(t, t.(l0 := t.l0 + 19));
    t, c3 := CarryFull(t.(l0 := t.l0 + 19));
    OffsetPass(u, t, c3);
    Fp.ResidueUnique(Value(u), Value(input), -(c1 as int) - c2);
    ghost var v := t;
    t := Fe32(t.l0 + (0x4000000 - 19), t.l1 + (0x2000000 - 1), t.l2 + (0x4000000 - 1), t.l3 + (0x2000000 - 1),
      t.l4 + (0x4000000 - 1), t.l5 + (0x2000000 - 1), t.l6 + (0x4000000 - 1), t.l7 + (0x2000000 - 1),
      t.l8 + (0x4000000 - 1), t.l9 + (0x2000000 - 1));
    AddModulus(v, t);
    var c;
    out, c := Carry(t);
    FinalCarry(t, out, c, Elem(input));
  }

  lemma LowLimb(u: Fe32, t: Fe32)
    requires t == u.(l0 := t.l0) && t.l0 == u.l0 + 19
    ensures Value(t) == Value(u) + 19
  {
    hide Weigh;
    Weights(u.Digits());
    Weights(t.Digits());
  }

  lemma AddModulus(u: Fe32, t: Fe32)
    requires t.l0 == u.l0 + 0x4000000 - 19 && t.l1 == u.l1 + 0x2000000 - 1 && t.l2 == u.l2 + 0x4000000 - 1
      && t.l3 == u.l3 + 0x2000000 - 1 && t.l4 == u.l4 + 0x4000000 - 1 && t.l5 == u.l5 + 0x2000000 - 1
      && t.l6 == u.l6 + 0x4000000 - 1 && t.l7 == u.l7 + 0x2000000 - 1 && t.l8 == u.l8 + 0x4000000 - 1
      && t.l9 == u.l9 + 0x2000000 - 1
    ensures Value(t) == Value(u) + FieldCodec.TWO_TO_255 - 19
  {
    hide Weigh;
    Weights(u.Digits());
    Weights(t.Digits());
  }

  lemma FinalCarry(t: Fe32, out: Fe32, c: int, x: Fp.F)
    requires Digits255(out)
    requires Value(t) == Value(out) + 0x8000000000000000000000000000000000000000000000000000000000000000 * c
      && Value(t) == x + FieldCodec.TWO_TO_255
    ensures Value(out) == x
  {
    Below255(out);
  }

  // ----- writing -----

  /** Numbers that share no bit: their inclusive or is their sum. */
  lemma {:induction false} OrApart(a: nat, b: nat, e: nat, q: nat, n: nat)
    requires a == Pow2(e) * q && b < Pow2(e) && e <= n && a < Pow2(n)
    ensures Or(b, a, n) == b + a
  {
    if e == 0 {
      OrMasks(a, n);
    } else {
      EvenPart(a, e, q);
      OrApart(a / 2, b / 2, e - 1, q, n - 1);
    }
  }

  lemma EvenPart(a: nat, e: nat, q: nat)
    requires e > 0 && a == Pow2(e) * q
    ensures a % 2 == 0 && a / 2 == Pow2(e - 1) * q
  {
    assert a == 2 * (Pow2(e - 1) * q);
  }

  /** out[at] |= w & 0xff, and the next three bytes take the rest of w.  The low e bits of w are
      zero, and out[at] has no others. */
  method Put(out: array<u8>, at: nat, w: u32, ghost e: nat, ghost q: nat)
    requires at + 4 <= out.Length && e <= 8 && w == Pow2(e) * q && out[at] < Pow2(e)
    modifies out
    ensures LeValue(out[..at + 4]) == old(LeValue(out[..at + 1])) + Pow256(at) * w
    ensures out[at + 3] == w / 0x1000000
    ensures forall k :: 0 <= k < out.Length && !(at <= k < at + 4) ==> out[k] == old(out[k])
  {
    hide Or, Pow2, LeValue, Pow256;
    ghost var s := out[..];
    LowByteApart(w, out[at], e, q);
    TopByte(w);
    out[at] := Or(out[at], w % 0x100, 8);
    out[at + 1] := w / 0x100 % 0x100;
    out[at + 2] := w / 0x10000 % 0x100;
    out[at + 3] := w / 0x1000000 % 0x100;
    assert out[..at + 4] == s[..at] + [s[at] + w % 0x100, w / 0x100 % 0x100, w / 0x10000 % 0x100, w / 0x1000000];
    PutValue(s, at, w);
  }

  lemma TopByte(w: u32)
    ensures w / 0x1000000 % 0x100 == w / 0x1000000 < 0x100
  {
  }

  lemma LowByteApart(w: u32, b: u8, e: nat, q: nat)
    requires e <= 8 && w == Pow2(e) * q && b < Pow2(e)
    ensures Or(b, w % 0x100, 8) == b + w % 0x100 < 0x100
  {
    hide Or, Pow2;
    Pow2Add(e, 8 - e);
    EightBits();
    var p, c := Pow2(e), Pow2(8 - e);
    ByteOfMultiple(w, p, c, q);
    OrApart(w % 0x100, b, e, q % c, 8);
    BelowTop(p, c, q % c);
  }

  lemma BelowTop(p: nat, c: nat, r: nat)
    requires p * c == 256 && r < c
    ensures p * r + p <= 256
  {
    MulMono(r + 1, c, p);
  }

  lemma EightBits()
    ensures Pow2(8) == 256
  {
  }

  lemma ByteOfMultiple(w: nat, p: nat, c: nat, q: nat)
    requires p > 0 && c > 0 && p * c == 256 && w == p * q
    ensures w % 256 == p * (q % c)
  {
    LowPart(q, 0, p, c);
  }

  lemma PutValue(s: seq<u8>, at: nat, w: u32)
    requires at < |s| && s[at] + w % 0x100 < 0x100
    ensures LeValue(s[..at] + [s[at] + w % 0x100, w / 0x100 % 0x100, w / 0x10000 % 0x100, w / 0x1000000])
      == LeValue(s[..at + 1]) + Pow256(at) * w
  {
    var t: seq<u8> := [s[at] + w % 0x100, w / 0x100 % 0x100, w / 0x10000 % 0x100, w / 0x1000000];
    hide LeValue, Pow256;
    WordOverByte(s[at], w);
    OneByte(s[at]);
    LeValueConcat(s[..at], t);
    LeValueConcat(s[..at], [s[at]]);
    assert s[..at + 1] == s[..at] + [s[at]];
    Spread(Pow256(at), s[at], w);
  }

  lemma Spread(p: int, a: int, b: int)
    ensures p * (a + b) == p * a + p * b
  {
  }

  lemma WordOverByte(b: u8, w: u32)
    requires b + w % 0x100 < 0x100
    ensures LeValue([b + w % 0x100, w / 0x100 % 0x100, w / 0x10000 % 0x100, w / 0x1000000]) == b + w
  {
    hide LeValue;
    FourBytes([b + w % 0x100, w / 0x100 % 0x100, w / 0x10000 % 0x100, w / 0x1000000]);
    FourDigits(w);
  }

  lemma FourBytes(t: seq<u8>)
    requires |t| == 4
    ensures LeValue(t) == (t[0] as int) + 0x100 * (t[1] as int) + 0x10000 * (t[2] as int) + 0x1000000 * (t[3] as int)
  {
    assert t[0..] == t && t[4..] == [];
    LeValueCons(t, 0); LeValueCons(t, 1); LeValueCons(t, 2); LeValueCons(t, 3);
    EmptyValue();
    hide LeValue;
  }

  lemma FourDigits(w: u32)
    ensures w == w % 0x100 + 0x100 * (w / 0x100 % 0x100) + 0x10000 * (w / 0x10000 % 0x100) + 0x1000000 * (w / 0x1000000)
  {
    DivDiv(w, 0x100, 0x100);
    DivDiv(w, 0x10000, 0x100);
  }

  lemma OneByte(b: u8)
    ensures LeValue([b]) == b
  {
    assert [b][1..] == [];
  }

  lemma BytePowers()
    ensures Pow256(0) == 1 && Pow256(3) == 0x1000000 && Pow256(6) == 0x1000000000000
      && Pow256(9) == 0x1000000000000000000
    ensures Pow256(12) == 0x1000000000000000000000000 && Pow256(16) == 0x100000000000000000000000000000000
      && Pow256(19) == 0x100000000000000000000000000000000000000
    ensures Pow256(22) == 0x100000000000000000000000000000000000000000000
      && Pow256(25) == 0x100000000000000000000000000000000000000000000000000
      && Pow256(28) == 0x100000000000000000000000000000000000000000000000000000000
  {
    ThreeMore(0); ThreeMore(3); ThreeMore(6); ThreeMore(9); ThreeMore(13); ThreeMore(16); ThreeMore(19); ThreeMore(22);
    ThreeMore(25);
    assert Pow256(13) == 0x100 * Pow256(12) && Pow256(0) == 1;
  }

  lemma ThreeMore(n: nat)
    ensures Pow256(n + 3) == 0x1000000 * Pow256(n)
  {
    assert Pow256(n + 3) == 0x100 * Pow256(n + 2) && Pow256(n + 2) == 0x100 * Pow256(n + 1);
  }

  lemma SmallShifts()
    ensures Pow2(0) == 1 && Pow2(1) == 2 && Pow2(2) == 4 && Pow2(3) == 8 && Pow2(4) == 16 && Pow2(5) == 32
      && Pow2(6) == 64
  {
  }

  /** The first sixteen bytes. */
  method PutLow(out: array<u8>, f: Fe32)
    requires out.Length == 32 && Digits255(f) && out[0] == 0 && out[16] == 0
    modifies out
    ensures LeValue(out[..16])
      == f.l0 + 0x1000000 * (4 * f.l1) + 0x1000000000000 * (8 * f.l2) + 0x1000000000000000000 * (32 * f.l3)
      + 0x1000000000000000000000000 * (64 * f.l4)
    ensures out[16] == 0
  {
    hide LeValue, Pow2, Pow256;
    SmallShifts();
    BytePowers();
    OneByte(0);
    assert out[..1] == [0];
    Put(out, 0, f.l0, 0, f.l0);
    Put(out, 3, 4 * f.l1, 2, f.l1);
    Put(out, 6, 8 * f.l2, 3, f.l2);
    Put(out, 9, 32 * f.l3, 5, f.l3);
    Put(out, 12, 64 * f.l4, 6, f.l4);
  }

  /** The others. */
  method PutHigh(out: array<u8>, f: Fe32)
    requires out.Length == 32 && Digits255(f) && out[16] == 0
    modifies out
    ensures LeValue(out[..32])
      == old(LeValue(out[..16])) + 0x100000000000000000000000000000000 * f.l5
      + 0x100000000000000000000000000000000000000 * (2 * f.l6)
      + 0x100000000000000000000000000000000000000000000 * (8 * f.l7)
      + 0x100000000000000000000000000000000000000000000000000 * (16 * f.l8)
        + 0x100000000000000000000000000000000000000000000000000000000 * (64 * f.l9)
  {
    hide LeValue, Pow2, Pow256;
    SmallShifts();
    BytePowers();
    OneMoreZero(out[..17]);
    assert out[..17][..16] == out[..16];
    Put(out, 16, f.l5, 0, f.l5);
    Put(out, 19, 2 * f.l6, 1, f.l6);
    Put(out, 22, 8 * f.l7, 3, f.l7);
    Put(out, 25, 16 * f.l8, 4, f.l8);
    Put(out, 28, 64 * f.l9, 6, f.l9);
  }

  /** Writes the canonical 32 bytes of the element, whatever limbs represent it. */
  method Contract(out: array<u8>, input: Fe32)
    requires out.Length == 32 && Loose(input)
    modifies out
    ensures out[..] == LeBytes(Elem(input), 32)
  {
    hide LeValue, Pow2, Pow256, Fp.Residue, Weigh;
    var f := Freeze(input);
    out[0], out[16] := 0, 0;
    PutLow(out, f);
    PutHigh(out, f);
    assert out[..32] == out[..];
    WrittenValue(f);
    LeBytesOfLeValue(out[..]);
  }

  lemma OneMoreZero(s: seq<u8>)
    requires |s| > 0 && s[|s| - 1] == 0
    ensures LeValue(s) == LeValue(s[..|s| - 1])
  {
    var n := |s| - 1;
    assert s == s[..n] + [s[n]];
    LeValueConcat(s[..n], [s[n]]);
    OneByte(s[n]);
  }

  lemma WrittenValue(f: Fe32)
    ensures Value(f) == f.l0 + 0x1000000 * (4 * f.l1) + 0x1000000000000 * (8 * f.l2)
      + 0x1000000000000000000 * (32 * f.l3) + 0x1000000000000000000000000 * (64 * f.l4)
      + 0x100000000000000000000000000000000 * f.l5
        + 0x100000000000000000000000000000000000000 * (2 * f.l6)
      + 0x100000000000000000000000000000000000000000000 * (8 * f.l7)
        + 0x100000000000000000000000000000000000000000000000000 * (16 * f.l8)
      + 0x100000000000000000000000000000000000000000000000000000000 * (64 * f.l9)
  {
    hide Weigh;
    Weights(f.Digits());
  }

  // ----- the two layouts -----

  /** Both layouts write the same bytes exactly for the same element. */
  lemma LayoutsAgree(a: Field64.Fe, b: Fe32)
    ensures LeBytes(Field64.Elem(a), 32) == LeBytes(Elem(b), 32) <==> Field64.Elem(a) == Elem(b)
  {
    hide Fp.Residue, LeBytes, LeValue;
    Pow256At32();
    LeValueOfLeBytes(Field64.Elem(a), 32);
    LeValueOfLeBytes(Elem(b), 32);
  }
}
