/** Conversion between 32-byte strings and 51-bit limbs. */
module FieldCodec {
  import opened Words
  import opened Bytes
  import opened Field64
  import Fp

  predicate Limbs51(f: Fe) {
    Limit(f, 0x8000000000000)
  }

  const TWO_TO_255: int := 0x8000000000000000000000000000000000000000000000000000000000000000

  lemma Value51(f: Fe)
    requires Limbs51(f)
    ensures 0 <= Value(f) < TWO_TO_255
  {
  }

  /** The limbs of the low 255 bits of four words. */
  function Split51(x0: u64, x1: u64, x2: u64, x3: u64): Fe {
    var y0 := x0 / 0x8000000000000 + Shl64(x1, 0x2000);
    var y1 := x1 / 0x4000000000 + Shl64(x2, 0x4000000);
    var y2 := x2 / 0x2000000 + Shl64(x3, 0x8000000000);
    var y3 := x3 / 0x1000;
    Fe(x0 % 0x8000000000000, y0 % 0x8000000000000, y1 % 0x8000000000000, y2 % 0x8000000000000, y3 % 0x8000000000000)
  }

  /** (hi | (b << k)) & (2^51 - 1), where b << k only brings in bits that hi leaves free. */
  lemma SpliceSum(hi: int, up: int, m: int, r: int)
    requires up == 0x8000000000000 * m + r && 0 <= m
    requires 0 <= hi && 0 <= r && hi + r < 0x8000000000000
    ensures (hi + up % 0x1_0000_0000_0000_0000) % 0x8000000000000 == hi + r
  {
    var h := m / 0x2000;
    DivModUnique(up, 0x1_0000_0000_0000_0000, h, 0x8000000000000 * (m - 0x2000 * h) + r);
    DivModUnique(hi + up % 0x1_0000_0000_0000_0000, 0x8000000000000, m - 0x2000 * h, hi + r);
  }

  lemma SplitValue(x0: u64, x1: u64, x2: u64, x3: u64)
    ensures Limbs51(Split51(x0, x1, x2, x3))
    ensures Value(Split51(x0, x1, x2, x3)) == Words4(x0, x1, x2, x3) % TWO_TO_255
  {
    SpliceSum(x0 / 0x8000000000000, x1 * 0x2000, x1 / 0x4000000000, 0x2000 * (x1 % 0x4000000000));
    SpliceSum(x1 / 0x4000000000, x2 * 0x4000000, x2 / 0x2000000, 0x4000000 * (x2 % 0x2000000));
    SpliceSum(x2 / 0x2000000, x3 * 0x8000000000, x3 / 0x1000, 0x8000000000 * (x3 % 0x1000));
    SplitSum(x0, x1, x2, x3, Split51(x0, x1, x2, x3));
  }

  lemma SplitSum(x0: u64, x1: u64, x2: u64, x3: u64, f: Fe)
    requires Limbs51(f) && f.l0 == x0 % 0x8000000000000
    requires f.l1 == x0 / 0x8000000000000 + 0x2000 * (x1 % 0x4000000000)
    requires f.l2 == x1 / 0x4000000000 + 0x4000000 * (x2 % 0x2000000)
    requires f.l3 == x2 / 0x2000000 + 0x8000000000 * (x3 % 0x1000)
    requires f.l4 == x3 / 0x1000 % 0x8000000000000
    ensures Value(f) == Words4(x0, x1, x2, x3) % TWO_TO_255
  {
    Value51(f);
    var top := x3 / 0x8000000000000000;
    assert x3 / 0x1000 % 0x8000000000000 == x3 / 0x1000 - 0x8000000000000 * top;
    assert Words4(x0, x1, x2, x3) == TWO_TO_255 * top + Value(f);
    DivModUnique(Words4(x0, x1, x2, x3), TWO_TO_255, top, Value(f));
  }

  /** Reads 32 bytes, ignoring the top bit. */
  method Expand(input: seq<u8>) returns (out: Fe)
    requires |input| == 32
    ensures Limbs51(out) && Value(out) == LeValue(input) % TWO_TO_255
  {
    hide LeValue, Load64, Shl64, Value;
    var x0, x1, x2, x3 := Load64(input, 0), Load64(input, 8), Load64(input, 16), Load64(input, 24);
    FourWords(input, 0);
    assert input[0..] == input && input[32..] == [];
    EmptyValue();
    ghost var y := Split51(x0, x1, x2, x3);
    SplitValue(x0, x1, x2, x3);
    SplitWords(x0, x1, x2, x3);
    var o0: u64 := x0 % 0x8000000000000;
    x0 := x0 / 0x8000000000000 + Shl64(x1, 0x2000);
    var o1: u64 := x0 % 0x8000000000000;
    x1 := x1 / 0x4000000000 + Shl64(x2, 0x4000000);
    var o2: u64 := x1 % 0x8000000000000;
    x2 := x2 / 0x2000000 + Shl64(x3, 0x8000000000);
    var o3: u64 := x2 % 0x8000000000000;
    x3 := x3 / 0x1000;
    var o4: u64 := x3 % 0x8000000000000;
    out := Fe(o0, o1, o2, o3, o4);
    assert out == y;
  }

  /** The words that are split fit 64 bits. */
  lemma SplitWords(x0: u64, x1: u64, x2: u64, x3: u64)
    ensures x0 / 0x8000000000000 + Shl64(x1, 0x2000) < 0x1_0000_0000_0000_0000
    ensures x1 / 0x4000000000 + Shl64(x2, 0x4000000) < 0x1_0000_0000_0000_0000
    ensures x2 / 0x2000000 + Shl64(x3, 0x8000000000) < 0x1_0000_0000_0000_0000
  {
    FreeBits(x1, 0x2000, 0x8000000000000);
    FreeBits(x2, 0x4000000, 0x4000000000);
    FreeBits(x3, 0x8000000000, 0x2000000);
  }

  lemma FreeBits(x: u64, up: nat, rest: nat)
    requires up * rest == 0x1_0000_0000_0000_0000
    ensures Shl64(x, up) <= 0x1_0000_0000_0000_0000 - up
  {
    var q, t := x / rest, x % rest;
    assert x * up == 0x1_0000_0000_0000_0000 * q + up * t by {
      assert (rest * q) * up == (up * rest) * q;
    }
    MulMono(t, rest - 1, up);
    assert (rest - 1) * up == up * rest - up;
    DivModUnique(x * up, 0x1_0000_0000_0000_0000, q, up * t);
  }

  /** Carries through the five limbs and returns what leaves the last one. */
  method Carry(t: Fe) returns (out: Fe, c: u64)
    requires Loose(t)
    ensures Limbs51(out) && Value(t) == Value(out) + TWO_TO_255 * c
  {
    var t1: u64 := t.l1 + t.l0 / 0x8000000000000;
    var t2: u64 := t.l2 + t1 / 0x8000000000000;
    var t3: u64 := t.l3 + t2 / 0x8000000000000;
    var t4: u64 := t.l4 + t3 / 0x8000000000000;
    out := Fe(t.l0 % 0x8000000000000, t1 % 0x8000000000000, t2 % 0x8000000000000, t3 % 0x8000000000000,
      t4 % 0x8000000000000);
    c := t4 / 0x8000000000000;
  }

  method CarryFull(t: Fe) returns (out: Fe, ghost c: u64)
    requires Loose(t)
    ensures out.l1 < 0x8000000000000 && out.l2 < 0x8000000000000 && out.l3 < 0x8000000000000 && out.l4 < 0x8000000000000
    ensures out.l0 < 0x8000000000000 + 19 * c
    ensures Value(out) == Value(t) - Fp.P * c && TWO_TO_255 * c <= Value(t) < TWO_TO_255 * (c + 1)
  {
    var low, k := Carry(t);
    Value51(low);
    c := k;
    LooseValue(t, low, k);
    out := low.(l0 := low.l0 + 19 * k);
  }

  lemma LooseValue(t: Fe, low: Fe, c: u64)
    requires Loose(t) && Limbs51(low) && Value(t) == Value(low) + TWO_TO_255 * c
    ensures c <= 8
  {
  }

  /** A single excess of at most 19 * 2^13 in the lowest limb disappears in one pass. */
  lemma SecondPass(t: Fe, out: Fe, c: int)
    requires Loose(t) && 0 <= Value(t) < TWO_TO_255 + 0x4000000
    requires out.l1 < 0x8000000000000 && out.l2 < 0x8000000000000 && out.l3 < 0x8000000000000
      && out.l4 < 0x8000000000000
    requires out.l0 < 0x8000000000000 + 19 * c
    requires Value(out) == Value(t) - Fp.P * c && TWO_TO_255 * c <= Value(t) < TWO_TO_255 * (c + 1)
    ensures Limbs51(out)
  {
  }

  /** Adding 19 with a carry that folds back is adding 19 modulo p, kept above 18. */
  lemma OffsetPass(u: Fe, v: Fe, c: int)
    requires Limbs51(u)
    requires v.l1 < 0x8000000000000 && v.l2 < 0x8000000000000 && v.l3 < 0x8000000000000 && v.l4 < 0x8000000000000
    requires v.l0 < 0x8000000000000 + 19 * c
    requires Value(v) == Value(u) + 19 - Fp.P * c && TWO_TO_255 * c <= Value(u) + 19 < TWO_TO_255 * (c + 1)
    ensures Limbs51(v) && Value(v) == Fp.Residue(Value(u)) + 19
  {
    Value51(u);
    if c == 0 {
      DivModUnique(Value(u), Fp.P, 0, Value(u));
    } else {
      assert c == 1;
      DivModUnique(Value(u), Fp.P, 1, Value(u) - Fp.P);
    }
  }

  /** The reduction behind Contract: limbs of the residue itself. */
  method Freeze(input: Fe) returns (out: Fe)
    requires Loose(input)
    ensures Limbs51(out) && Value(out) == Elem(input)
  {
    hide Fp.Residue;
    ghost var c1, c2, c3;
    var t;
    t, c1 := CarryFull(input);
    ghost var t1 := t;
    LooseFull(input, t1, c1);
    t, c2 := CarryFull(t);
    SecondPass(t1, t, c2);
    ghost var u := t;
    t, c3 := CarryFull(t.(l0 := t.l0 + 19));
    OffsetPass(u, t, c3);
    Fp.ResidueUnique(Value(u), Value(input), -(c1 as int) - c2);
    t := Fe(t.l0 + (0x8000000000000 - 19), t.l1 + (0x8000000000000 - 1), t.l2 + (0x8000000000000 - 1),
            t.l3 + (0x8000000000000 - 1), t.l4 + (0x8000000000000 - 1));
    var c;
    out, c := Carry(t);
    FinalCarry(t, out, c, Elem(input));
  }

  lemma LooseFull(t: Fe, out: Fe, c: int)
    requires Loose(t) && 0 <= c && Value(out) == Value(t) - Fp.P * c
      && TWO_TO_255 * c <= Value(t) < TWO_TO_255 * (c + 1)
    ensures c <= 8 && Value(out) < TWO_TO_255 + 0x4000000
  {
  }

  lemma FinalCarry(t: Fe, out: Fe, c: int, x: Fp.F)
    requires Limbs51(out) && Value(t) == Value(out) + TWO_TO_255 * c
    requires Value(t) == x + TWO_TO_255
    ensures Value(out) == x
  {
    Value51(out);
  }

  /** The words of the output: two limbs each, as ((t[n] >> 13n) | (t[n+1] << (51 - 13n))). */
  lemma JoinedWords(t: Fe)
    requires Limbs51(t)
    ensures var w0, w1 := t.l0 + Shl64(t.l1, 0x8000000000000), t.l1 / 0x2000 + Shl64(t.l2, 0x4000000000);
      var w2, w3 := t.l2 / 0x4000000 + Shl64(t.l3, 0x2000000), t.l3 / 0x8000000000 + Shl64(t.l4, 0x1000);
      w0 < 0x1_0000_0000_0000_0000 && w1 < 0x1_0000_0000_0000_0000
      && w2 < 0x1_0000_0000_0000_0000 && w3 < 0x1_0000_0000_0000_0000
      && Words4(w0, w1, w2, w3) == Value(t)
  {
    DivModUnique(t.l1 * 0x8000000000000, 0x1_0000_0000_0000_0000, t.l1 / 0x2000, 0x8000000000000 * (t.l1 % 0x2000));
    DivModUnique(t.l2 * 0x4000000000, 0x1_0000_0000_0000_0000, t.l2 / 0x4000000, 0x4000000000 * (t.l2 % 0x4000000));
    DivModUnique(t.l3 * 0x2000000, 0x1_0000_0000_0000_0000, t.l3 / 0x8000000000, 0x2000000 * (t.l3 % 0x8000000000));
  }

  /** Writes the canonical 32 bytes of the element, whatever limbs represent it. */
  method Contract(input: Fe) returns (out: seq<u8>)
    requires Loose(input)
    ensures out == LeBytes(Elem(input), 32)
  {
    var t := Freeze(input);
    JoinedWords(t);
    hide Shl64, Value, Words4, Fp.Residue;
    var w0: u64 := t.l0 + Shl64(t.l1, 0x8000000000000);
    var w1: u64 := t.l1 / 0x2000 + Shl64(t.l2, 0x4000000000);
    var w2: u64 := t.l2 / 0x4000000 + Shl64(t.l3, 0x2000000);
    var w3: u64 := t.l3 / 0x8000000000 + Shl64(t.l4, 0x1000);
    out := Store64(w0) + Store64(w1) + Store64(w2) + Store64(w3);
    StoredWords(w0, w1, w2, w3);
    assert LeValue(out) == Elem(input) by { assert Words4(w0, w1, w2, w3) == Value(t); }
    LeBytesOfLeValue(out);
  }

  /** Two elements have the same bytes exactly when they are the same residue. */
  lemma ContractIsCanonical(a: Fe, b: Fe)
    ensures LeBytes(Elem(a), 32) == LeBytes(Elem(b), 32) <==> Elem(a) == Elem(b)
  {
    Pow256At32();
    LeValueOfLeBytes(Elem(a), 32);
    LeValueOfLeBytes(Elem(b), 32);
  }

  /** Expanding and contracting gives back every string that encodes a number below p. */
  lemma ContractOfExpand(s: seq<u8>, f: Fe)
    requires |s| == 32 && LeValue(s) < Fp.P
    requires Value(f) == LeValue(s) % TWO_TO_255
    ensures LeBytes(Elem(f), 32) == s
  {
    LeBytesOfLeValue(s);
    hide LeValue, LeBytes;
    var v := LeValue(s);
    DivModUnique(v, TWO_TO_255, 0, v);
    DivModUnique(v, Fp.P, 0, v);
  }
}
