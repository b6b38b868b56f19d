/** Conversion between byte strings and 56-bit limbs. */
module ModmCodec {
  import opened Words
  import opened Bytes
  import opened Modm64

  /** ((a >> 56) | (b << 8)) & (2^56 - 1); the two words share no bit. */
  function Splice8(a: u64, b: u64): u64 {
    (a / 0x100000000000000 + Shl64(b, 0x100)) % 0x100000000000000
  }

  function Splice16(a: u64, b: u64): u64 {
    (a / 0x1000000000000 + Shl64(b, 0x10000)) % 0x100000000000000
  }

  function Splice24(a: u64, b: u64): u64 {
    (a / 0x10000000000 + Shl64(b, 0x1000000)) % 0x100000000000000
  }

  function Splice32(a: u64, b: u64): u64 {
    (a / 0x100000000 + Shl64(b, 0x100000000)) % 0x100000000000000
  }

  function Splice40(a: u64, b: u64): u64 {
    (a / 0x100000000 + Shl64(b, 0x100000000)) % 0x10000000000
  }

  lemma SpliceSum(hi: int, up: int, m: int, r: int)
    requires up == 0x100000000000000 * m + r && 0 <= m
    requires 0 <= hi && 0 <= r && hi + r < 0x100000000000000
    ensures (hi + up % 0x1_0000_0000_0000_0000) % 0x100000000000000 == hi + r
  {
    var h := m / 0x100;
    assert up == 0x1_0000_0000_0000_0000 * h + (0x100000000000000 * (m - 0x100 * h) + r);
    assert up % 0x1_0000_0000_0000_0000 == 0x100000000000000 * (m - 0x100 * h) + r;
  }

  lemma SpliceValues(a: u64, b: u64)
    ensures Splice8(a, b) == a / 0x100000000000000 + 0x100 * (b % 0x1000000000000)
    ensures Splice16(a, b) == a / 0x1000000000000 + 0x10000 * (b % 0x10000000000)
    ensures Splice24(a, b) == a / 0x10000000000 + 0x1000000 * (b % 0x100000000)
    ensures Splice32(a, b) == a / 0x100000000 + 0x100000000 * (b % 0x1000000)
  {
    SpliceSum(a / 0x100000000000000, b * 0x100, b / 0x1000000000000, 0x100 * (b % 0x1000000000000));
    SpliceSum(a / 0x1000000000000, b * 0x10000, b / 0x10000000000, 0x10000 * (b % 0x10000000000));
    SpliceSum(a / 0x10000000000, b * 0x1000000, b / 0x100000000, 0x1000000 * (b % 0x100000000));
    SpliceSum(a / 0x100000000, b * 0x100000000, b / 0x1000000, 0x100000000 * (b % 0x1000000));
  }

  lemma Splice40Value(a: u64, b: u64)
    ensures Splice40(a, b) == a / 0x100000000 + 0x100000000 * (b % 0x100)
  {
    var up, m := b * 0x100000000, b / 0x100;
    var h := m / 0x1000000;
    assert up == 0x1_0000_0000_0000_0000 * h + (0x10000000000 * (m - 0x1000000 * h) + 0x100000000 * (b % 0x100));
    assert up % 0x1_0000_0000_0000_0000 == 0x10000000000 * (m - 0x1000000 * h) + 0x100000000 * (b % 0x100);
  }

  lemma LowWords(x0: u64, x1: u64, x2: u64, x3: u64)
    ensures x0 % 0x100000000000000 + 0x100000000000000 * Splice8(x0, x1)
      + 0x10000000000000000000000000000 * Splice16(x1, x2)
      + 0x1000000000000000000000000000000000000000000 * Splice24(x2, x3)
      + 0x100000000000000000000000000000000000000000000000000000000 * (x3 / 0x100000000)
      == Words4(x0, x1, x2, x3)
  {
    SpliceValues(x0, x1);
    SpliceValues(x1, x2);
    SpliceValues(x2, x3);
    hide Splice8, Splice16, Splice24;
  }

  /** The words from bit 248 up, in limbs: word i is its low part r plus a multiple q of a power of two. */
  lemma HighWords(h3: int, r4: int, q4: int, r5: int, q5: int, r6: int, q6: int, r7: int, q7: int)
    ensures (h3 + 0x100 * r4) + 0x100000000000000 * (q4 + 0x10000 * r5)
      + 0x10000000000000000000000000000 * (q5 + 0x1000000 * r6)
      + 0x1000000000000000000000000000000000000000000 * (q6 + 0x100000000 * r7)
      + 0x100000000000000000000000000000000000000000000000000000000 * q7
      == h3 + 0x100 * Words4(0x1000000000000 * q4 + r4, 0x10000000000 * q5 + r5, 0x100000000 * q6 + r6,
        0x1000000 * q7 + r7)
  {
  }

  function Words8(x0: int, x1: int, x2: int, x3: int, x4: int, x5: int, x6: int, x7: int): int {
    Words4(x0, x1, x2, x3)
      + 0x1_0000_0000_0000_0000_0000_0000_0000_0000_0000_0000_0000_0000_0000_0000_0000_0000 * Words4(x4, x5, x6, x7)
  }

  lemma AllWords(p: seq<u8>)
    requires |p| == 64
    ensures LeValue(p) == Words8(Load64(p, 0), Load64(p, 8), Load64(p, 16), Load64(p, 24),
                                 Load64(p, 32), Load64(p, 40), Load64(p, 48), Load64(p, 56))
  {
    hide LeValue, Load64;
    FourWords(p, 0);
    FourWords(p, 32);
    assert p[0..] == p && p[64..] == [];
    EmptyValue();
  }

  function LowLimbs(x0: u64, x1: u64, x2: u64, x3: u64, x4: u64): Limbs {
    Limbs(x0 % 0x100000000000000, Splice8(x0, x1), Splice16(x1, x2), Splice24(x2, x3), Splice40(x3, x4))
  }

  lemma LowPart(x0: u64, x1: u64, x2: u64, x3: u64, x4: u64, x5: u64, x6: u64, x7: u64)
    ensures var a := LowLimbs(x0, x1, x2, x3, x4);
      Wide(a)
      && Value(a) == Words8(x0, x1, x2, x3, x4, x5, x6,
        x7) % 0x1000000000000000000000000000000000000000000000000000000000000000000
  {
    var a := LowLimbs(x0, x1, x2, x3, x4);
    assert Wide(a);
    LowWords(x0, x1, x2, x3);
    Splice40Value(x3, x4);
    hide Splice8, Splice16, Splice24, Splice40;
    assert Value(a) == Words4(x0, x1, x2, x3)
        + 0x1_0000_0000_0000_0000_0000_0000_0000_0000_0000_0000_0000_0000_0000_0000_0000_0000 * (x4 % 0x100);
    var k := x4 / 0x100 + 0x100000000000000 * (x5 + 0x1_0000_0000_0000_0000 * x6
      + 0x1_0000_0000_0000_0000_0000_0000_0000_0000 * x7);
    WideBound(a);
    DivModUnique(Words8(x0, x1, x2, x3, x4, x5, x6, x7),
      0x1000000000000000000000000000000000000000000000000000000000000000000,
                 k, Value(a));
  }

  function HighLimbs(x3: u64, x4: u64, x5: u64, x6: u64, x7: u64): Limbs {
    Limbs(Splice8(x3, x4), Splice16(x4, x5), Splice24(x5, x6), Splice32(x6, x7), x7 / 0x1000000)
  }

  lemma HighPart(x0: u64, x1: u64, x2: u64, x3: u64, x4: u64, x5: u64, x6: u64, x7: u64)
    ensures var q := HighLimbs(x3, x4, x5, x6, x7);
      Wide(q)
      && 0 <= Words8(x0, x1, x2, x3, x4, x5, x6, x7)
        - 0x100000000000000000000000000000000000000000000000000000000000000 * Value(q)
           < 0x100000000000000000000000000000000000000000000000000000000000000
  {
    assert Wide(HighLimbs(x3, x4, x5, x6, x7));
    hide Splice8, Splice16, Splice24, Splice32;
    SpliceValues(x3, x4);
    SpliceValues(x4, x5);
    SpliceValues(x5, x6);
    SpliceValues(x6, x7);
    HighWords(x3 / 0x100000000000000, x4 % 0x1000000000000, x4 / 0x1000000000000, x5 % 0x10000000000,
      x5 / 0x10000000000,
      x6 % 0x100000000, x6 / 0x100000000, x7 % 0x1000000, x7 / 0x1000000);
  }

  /** A string of at most 31 bytes is below 2^248. */
  lemma ShortString(s: seq<u8>)
    requires |s| < 32
    ensures var v := LeValue(s);
      v < L && v % L == v && v % 0x1000000000000000000000000000000000000000000000000000000000000000000 == v
  {
    hide LeValue, Pow256;
    LeBytesOfLeValue(s);
    Pow256Mono(|s|, 31);
    Pow256At31();
    DivModUnique(LeValue(s), L, 0, LeValue(s));
    DivModUnique(LeValue(s), 0x1000000000000000000000000000000000000000000000000000000000000000000, 0, LeValue(s));
  }

  /** Reads up to 64 bytes as a scalar modulo L.  Strings shorter than 32 bytes
      are below L already and skip the reduction. */
  method Expand256(out: array<u64>, input: seq<u8>)
    requires out.Length == 5 && |input| <= 64
    modifies out
    ensures Reduced(Read(out)) && Value(Read(out)) == LeValue(input) % L
    ensures |input| < 32 ==> Value(Read(out)) == LeValue(input)
  {
    hide LeValue, Load64, Words8, Value, Splice8, Splice16, Splice24, Splice32, Splice40;
    var work := input + seq(64 - |input|, _ => 0);
    ghost var x := LeValue(work);
    LeValueZeros(input, 64 - |input|);
    var x0, x1, x2, x3 := Load64(work, 0), Load64(work, 8), Load64(work, 16), Load64(work, 24);
    var x4, x5, x6, x7 := Load64(work, 32), Load64(work, 40), Load64(work, 48), Load64(work, 56);
    AllWords(work);
    out[0] := x0 % 0x100000000000000;
    out[1] := Splice8(x0, x1);
    out[2] := Splice16(x1, x2);
    out[3] := Splice24(x2, x3);
    out[4] := Splice40(x3, x4);
    assert Read(out) == LowLimbs(x0, x1, x2, x3, x4);
    var q1 := Limbs(Splice8(x3, x4), Splice16(x4, x5), Splice24(x5, x6), Splice32(x6, x7), x7 / 0x1000000);
    assert q1 == HighLimbs(x3, x4, x5, x6, x7);
    LowPart(x0, x1, x2, x3, x4, x5, x6, x7);
    if |input| < 32 {
      ShortString(input);
      return;
    }
    HighPart(x0, x1, x2, x3, x4, x5, x6, x7);
    BarrettReduce256(out, q1, out, x);
  }

  lemma SpliceBound(x0: u64, x1: u64, x2: u64, x3: u64)
    ensures Splice8(x0, x1) < 0x100000000000000 && Splice16(x1, x2) < 0x100000000000000
      && Splice24(x2, x3) < 0x100000000000000
  {
  }

  /** Reads 32 bytes without reducing. */
  method ExpandRaw256(out: array<u64>, input: seq<u8>)
    requires out.Length == 5 && |input| == 32
    modifies out
    ensures Below256(Read(out)) && Value(Read(out)) == LeValue(input)
  {
    hide LeValue, Load64, Value, Splice8, Splice16, Splice24;
    var x0, x1, x2, x3 := Load64(input, 0), Load64(input, 8), Load64(input, 16), Load64(input, 24);
    FourWords(input, 0);
    assert input[0..] == input && input[32..] == [];
    EmptyValue();
    out[0] := x0 % 0x100000000000000;
    out[1] := Splice8(x0, x1);
    out[2] := Splice16(x1, x2);
    out[3] := Splice24(x2, x3);
    out[4] := x3 / 0x100000000 % 0x100000000;
    SpliceBound(x0, x1, x2, x3);
    LowWords(x0, x1, x2, x3);
    RawLimbs(Read(out), x0, x1, x2, x3);
  }

  lemma RawLimbs(a: Limbs, x0: u64, x1: u64, x2: u64, x3: u64)
    requires a == Limbs(x0 % 0x100000000000000, Splice8(x0, x1), Splice16(x1, x2), Splice24(x2, x3),
      x3 / 0x100000000 % 0x100000000)
    ensures Value(a) == a.l0 + 0x100000000000000 * a.l1 + 0x10000000000000000000000000000 * a.l2
      + 0x1000000000000000000000000000000000000000000 * a.l3
      + 0x100000000000000000000000000000000000000000000000000000000 * (x3 / 0x100000000)
    ensures a.l4 < 0x100000000
  {
    hide Splice8, Splice16, Splice24;
  }

  /** (a >> down) | (b << up) on 64-bit words: the four words of the output. */
  lemma ContractWords(a: Limbs)
    requires Below256(a)
    ensures var w0 := a.l0 + Shl64(a.l1, 0x100000000000000);
      var w1 := a.l1 / 0x100 + Shl64(a.l2, 0x1000000000000);
      var w2 := a.l2 / 0x10000 + Shl64(a.l3, 0x10000000000);
      var w3 := a.l3 / 0x1000000 + Shl64(a.l4, 0x100000000);
      w0 < 0x1_0000_0000_0000_0000 && w1 < 0x1_0000_0000_0000_0000
      && w2 < 0x1_0000_0000_0000_0000 && w3 < 0x1_0000_0000_0000_0000
      && Words4(w0, w1, w2, w3) == Value(a)
  {
    DivModUnique(a.l1 * 0x100000000000000, 0x1_0000_0000_0000_0000, a.l1 / 0x100, 0x100000000000000 * (a.l1 % 0x100));
    DivModUnique(a.l2 * 0x1000000000000, 0x1_0000_0000_0000_0000, a.l2 / 0x10000, 0x1000000000000 * (a.l2 % 0x10000));
    DivModUnique(a.l3 * 0x10000000000, 0x1_0000_0000_0000_0000, a.l3 / 0x1000000, 0x10000000000 * (a.l3 % 0x1000000));
  }

  /** Writes a scalar below 2^256 as its 32 little-endian bytes. */
  method Contract256(input: array<u64>) returns (out: seq<u8>)
    requires input.Length == 5 && Below256(Read(input))
    ensures |out| == 32 && out == LeBytes(Value(Read(input)), 32)
  {
    hide Shl64, Value, Words4, LeBytes, LeValue, Store64;
    ContractWords(Read(input));
    var w0: u64 := input[0] + Shl64(input[1], 0x100000000000000);
    var w1: u64 := input[1] / 0x100 + Shl64(input[2], 0x1000000000000);
    var w2: u64 := input[2] / 0x10000 + Shl64(input[3], 0x10000000000);
    var w3: u64 := input[3] / 0x1000000 + Shl64(input[4], 0x100000000);
    out := Store64(w0) + Store64(w1) + Store64(w2) + Store64(w3);
    StoredWords(w0, w1, w2, w3);
    LeBytesOfLeValue(out);
  }
}
