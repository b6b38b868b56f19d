/** Key generation, signing and verification (sections 5.1.5 to 5.1.7 of RFC 8032). */
module Signature {
  import opened Words
  import opened Bytes
  import opened AbelianGroup
  import opened Edwards
  import opened Points
  import opened PointCodec
  import opened ScalarMult
  import opened BaseMult
  import opened Modm64
  import opened ModmCodec
  import Fp
  import Field64
  import Sha512

  /** A hash function to 64 bytes, given by what it returns. */
  type Hash = seq<u8> -> seq<u8>

  ghost predicate To64Bytes(h: Hash) {
    forall m :: |h(m)| == 64
  }

  /** The base point with its two tables. */
  ghost predicate BaseFacts(b: Point, table: seq<seq<u8>>, sliding: seq<Niels>) {
    CurveFacts() && OnCurve(b) && BaseTable(table, b) && |sliding| == 32 && OddNielsMultiples(sliding, b)
  }

  // ----- what the operations compute -----

  /** Clears the low three bits and the top bit of a scalar and sets bit 254. */
  function Clamp(e: seq<u8>): (c: seq<u8>)
    requires |e| >= 32
    ensures |c| == |e|
  {
    e[0 := And(e[0], 248, 8) % 256][31 := Or(And(e[31], 127, 8), 64, 8) % 256]
  }

  /** The hash of the secret key with the low half clamped. */
  function ExtendedKey(h: Hash, sk: seq<u8>): seq<u8>
    requires |h(sk)| == 64
  {
    Clamp(h(sk))
  }

  function SecretScalar(h: Hash, sk: seq<u8>): nat
    requires |h(sk)| == 64
  {
    LeValue(ExtendedKey(h, sk)[..32]) % L
  }

  ghost function PublicKey(h: Hash, sk: seq<u8>, b: Point): seq<u8>
    requires |h(sk)| == 64
  {
    Encode(Multiple(CURVE, SecretScalar(h, sk), b))
  }

  function Nonce(h: Hash, sk: seq<u8>, m: seq<u8>): nat
    requires |h(sk)| == 64
  {
    LeValue(h(ExtendedKey(h, sk)[32..] + m)) % L
  }

  function Challenge(h: Hash, r: seq<u8>, pk: seq<u8>, m: seq<u8>): nat {
    LeValue(h(r + pk + m)) % L
  }

  ghost function Signed(h: Hash, m: seq<u8>, sk: seq<u8>, pk: seq<u8>, b: Point): seq<u8>
    requires |h(sk)| == 64
  {
    var r := Encode(Multiple(CURVE, Nonce(h, sk, m), b));
    var s := (Challenge(h, r, pk, m) * SecretScalar(h, sk) + Nonce(h, sk, m)) % L;
    r + LeBytes(s, 32)
  }

  /** What verification accepts: the top three bits clear, a key that decodes, and R = [S]B - [h]A. */
  ghost predicate Accepts(h: Hash, m: seq<u8>, pk: seq<u8>, rs: seq<u8>, b: Point)
    requires |pk| == 32 && |rs| == 64
  {
    And(rs[63], 224, 8) == 0
    && match DecodeNegative(pk)
       case None => false
       case Some(a) => Encode(Joint(Challenge(h, rs[..32], pk, m), a, LeValue(rs[32..]) % L, b)) == rs[..32]
  }

  lemma ReducedScalar(a: Limbs)
    requires Reduced(a)
    ensures Below256(a) && Value(a) < 0x8000000000000000000000000000000000000000000000000000000000000000
  {
  }

  // ----- the operations -----

  method ExtSk(h: Hash, sk: seq<u8>) returns (extsk: seq<u8>)
    requires To64Bytes(h)
    ensures |extsk| == 64 && extsk == ExtendedKey(h, sk)
  {
    hide And, Or;
    extsk := h(sk);
    extsk := extsk[0 := And(extsk[0], 248, 8) % 256];
    extsk := extsk[31 := And(extsk[31], 127, 8) % 256];
    ClampByte(h(sk)[31]);
    extsk := extsk[31 := Or(extsk[31], 64, 8) % 256];
  }

  lemma ClampByte(x: u8)
    ensures And(x, 127, 8) < 256
  {
    AndBelow(x, 127, 8);
    PowersOfTwo();
  }

  lemma {:induction false} AndBelow(a: nat, b: nat, n: nat)
    ensures And(a, b, n) < Pow2(n)
  {
    if n > 0 {
      AndBelow(a / 2, b / 2, n - 1);
    }
  }

  /** [s]b for the scalar that a byte string encodes, as an encoded point. */
  method BaseMultiple(s: array<u64>, table: seq<seq<u8>>, ghost b: Point, ghost sliding: seq<Niels>)
      returns (out: seq<u8>)
    requires BaseFacts(b, table, sliding) && s.Length == 5 && Reduced(Read(s))
    ensures out == Encode(Multiple(CURVE, Value(Read(s)), b))
  {
    hide CurveFacts, OnCurve, BaseTable, OddNielsMultiples, Multiple, CURVE, Encode, Value;
    ReducedScalar(Read(s));
    var r := new Ge();
    ScalarMultBase(r, table, Read(s), b);
    out := PackFull(r, Multiple(CURVE, Value(Read(s)), b));
  }

  method PackFull(r: Ge, ghost a: Point) returns (out: seq<u8>)
    requires CurveFacts() && (Partial(r, a) || Full(r, a))
    ensures out == Encode(a)
  {
    hide Encode, OnCurve;
    out := Pack(r, a);
  }

  method MakePublicKey(h: Hash, sk: seq<u8>, table: seq<seq<u8>>, ghost b: Point, ghost sliding: seq<Niels>)
      returns (pk: seq<u8>)
    requires To64Bytes(h) && BaseFacts(b, table, sliding)
    ensures pk == PublicKey(h, sk, b)
  {
    hide BaseFacts, Multiple, CURVE, Encode, Value, LeValue, ExtendedKey;
    var extsk := ExtSk(h, sk);
    var a := new u64[5];
    Expand256(a, extsk[..32]);
    pk := BaseMultiple(a, table, b, sliding);
  }

  method Sign(h: Hash, m: seq<u8>, sk: seq<u8>, pk: seq<u8>, table: seq<seq<u8>>, ghost b: Point,
      ghost sliding: seq<Niels>) returns (rs: seq<u8>)
    requires To64Bytes(h) && BaseFacts(b, table, sliding)
    ensures rs == Signed(h, m, sk, pk, b)
  {
    hide BaseFacts, Multiple, CURVE, Encode, Value, LeValue, LeBytes, ExtendedKey, Reduced;
    var extsk := ExtSk(h, sk);
    // r = H(aExt[32..64], m)
    var r := new u64[5];
    Expand256(r, h(extsk[32..] + m));
    // R = rB
    rs := BaseMultiple(r, table, b, sliding);
    var tail := Response(h(rs + pk + m), extsk[..32], r);
    rs := rs + tail;
  }

  /** S = (r + H(R, A, m) a) mod L, in bytes. */
  method Response(hram: seq<u8>, secret: seq<u8>, r: array<u64>) returns (tail: seq<u8>)
    requires |hram| == 64 && |secret| == 32 && r.Length == 5 && Reduced(Read(r))
    ensures tail == LeBytes((LeValue(hram) % L * (LeValue(secret) % L) + Value(Read(r))) % L, 32)
  {
    hide Value, LeValue, LeBytes, Reduced;
    ghost var n := Value(Read(r));
    // S = H(R, A, m)
    var s := new u64[5];
    Expand256(s, hram);
    // S = H(R, A, m) a
    var a := new u64[5];
    Expand256(a, secret);
    ReducedScalar(Read(s));
    ReducedScalar(Read(a));
    ghost var c, x := Value(Read(s)), Value(Read(a));
    Mul256(s, s, a);
    // S = r + H(R, A, m) a
    Add256(s, s, r);
    ReducedScalar(Read(s));
    tail := Contract256(s);
    AddToRemainder(c, x, n);
  }

  lemma AddToRemainder(c: int, x: int, v: int)
    ensures (c * x % L + v) % L == (c * x + v) % L
  {
    var u := c * x;
    DivModUnique(u + v, L, u / L + (u % L + v) / L, (u % L + v) % L);
  }

  /** Returns 0 for an accepted signature and -1 otherwise. */
  method SignOpen(h: Hash, m: seq<u8>, pk: seq<u8>, rs: seq<u8>, table: seq<seq<u8>>, sliding: seq<Niels>,
      ghost b: Point) returns (result: int)
    requires To64Bytes(h) && BaseFacts(b, table, sliding) && |pk| == 32 && |rs| == 64
    ensures result == if Accepts(h, m, pk, rs, b) then 0 else -1
  {
    hide CurveFacts, OnCurve, BaseTable, OddNielsMultiples, Multiple, CURVE, Encode, Value, LeValue, Joint, And,
      DecodeNegative, Full, Partial;
    if And(rs[63], 224, 8) != 0 {
      return -1;
    }
    var a := new Ge();
    var ok := UnpackNegative(a, pk);
    if !ok {
      return -1;
    }
    ghost var p := DecodeNegative(pk).value;
    UnpackedIsFull(a, pk, p);
    // hram = H(R, A, m)
    var hram := new u64[5];
    Expand256(hram, h(rs[..32] + pk + m));
    // S
    var s := new u64[5];
    Expand256(s, rs[32..]);
    ReducedScalar(Read(hram));
    ReducedScalar(Read(s));
    // SB - H(R, A, m)A
    var r := new Ge();
    DoubleScalarMult(r, a, Read(hram), Read(s), sliding, p, b);
    var checkR := PackFull(r, Joint(Value(Read(hram)), p, Value(Read(s)), b));
    assert |checkR| == 32 by { EncodeLength(Joint(Value(Read(hram)), p, Value(Read(s)), b)); }
    var equal := Verify(rs, checkR, 32);
    assert checkR[..32] == checkR;
    result := if equal then 0 else -1;
  }

  lemma EncodeLength(p: Point)
    ensures |Encode(p)| == 32
  {
  }

  lemma UnpackedIsFull(a: Ge, s: seq<u8>, p: Point)
    requires |s| == 32 && DecodeNegative(s) == Some(p) && CurveFacts()
    requires TightGe(a) && Point(Field64.Elem(a.x), Field64.Elem(a.y)) == p && Field64.Elem(a.z) == 1
      && Field64.Elem(a.t) == Fp.Mul(Field64.Elem(a.x), Field64.Elem(a.y))
    ensures Full(a, p)
  {
    DecodeIsSound(s, p);
    Fp.MulOne(p.x);
    Fp.MulOne(p.y);
    Fp.MulOne(XY(p));
    hide Fp.Mul, OnCurve, DecodeNegative, Field64.Elem;
  }

  // ----- what signing and verification promise -----

  /** L is a multiple of the order of the base point.  The quantifier keeps the solver from
      computing the multiple. */
  ghost predicate OrderDividesL(b: Point) {
    forall n: nat :: n == L ==> Times(CURVE, n, b) == NEUTRAL
  }

  lemma MultipleModL(n: nat, b: Point)
    requires CurveFacts() && OnCurve(b) && OrderDividesL(b)
    ensures Multiple(CURVE, n % L, b) == Multiple(CURVE, n, b)
  {
    hide CurveFacts, OnCurve, Plus, CURVE, Times;
    CurveIsAbelian();
    CurveOps(b, b);
    ReduceMultiple(CURVE, n, L, b);
  }

  lemma ReduceMultiple<T(!new)>(g: Group<T>, n: nat, order: nat, b: T)
    requires Abelian(g) && g.elem(b) && order > 0 && Times(g, order, b) == g.zero
    ensures Multiple(g, n % order, b) == Multiple(g, n, b)
  {
    hide Times;
    var q, r := n / order, n % order;
    TimesTimes(g, q, order, b);
    TimesOfZero(g, q);
    var k := q * order;
    assert n == k + r;
    TimesAdd(g, k, r, b);
    TimesElem(g, r, b);
    Inverse(g, Times(g, r, b));
  }

  /** [c](-[a]b) + [s]b == [n]b when s == c a + n modulo L. */
  lemma VerificationEquation(c: nat, a: nat, n: nat, s: nat, b: Point)
    requires CurveFacts() && OnCurve(b) && OrderDividesL(b) && s == (c * a + n) % L
    ensures OnCurve(Multiple(CURVE, a, b))
    ensures Joint(c, Minus(Multiple(CURVE, a, b)), s, b) == Multiple(CURVE, n, b)
  {
    hide CurveFacts, OnCurve, Plus, CURVE, Minus, Times, Multiple, OrderDividesL;
    assert c * a >= 0;
    MultipleModL(c * a + n, b);
    CurveIsAbelian();
    CurveOps(b, b);
    CurveOps(Multiple(CURVE, a, b), b);
    CancelKey(CURVE, c, a, n, b);
  }

  lemma CancelKey<T(!new)>(g: Group<T>, c: nat, a: nat, n: nat, b: T)
    requires Abelian(g) && g.elem(b)
    ensures g.elem(Multiple(g, a, b))
    ensures Combination(g, c, g.neg(Multiple(g, a, b)), c * a + n, b) == Multiple(g, n, b)
  {
    MultipleElem(g, a, b);
    TimesNeg(g, c, Times(g, a, b));
    TimesTimes(g, c, a, b);
    TimesElem(g, c * a, b);
    TimesElem(g, n, b);
    TimesAdd(g, c * a, n, b);
    var x, y := Times(g, c * a, b), Times(g, n, b);
    Inverse(g, x);
    Inverse(g, y);
    Assoc(g, g.neg(x), x, y);
  }

  /** A reduced scalar leaves the top three bits of its encoding clear. */
  lemma RangeCheckPasses(s: nat)
    requires s < L
    ensures And(LeBytes(s, 32)[31], 224, 8) == 0
  {
    var e := LeBytes(s, 32);
    Pow256At32();
    LeValueOfLeBytes(s, 32);
    assert e == e[..31] + [e[31]];
    Last(e[..31], e, e[31]);
    assert e[31] < 32;
    hide LeValue, LeBytes;
    LowBitsOnly(e[31]);
  }

  lemma LowBitsOnly(x: nat)
    requires x < 32
    ensures And(x, 224, 8) == 0
  {
    AndShift(x, 112, 7);
    AndShift(x / 2, 56, 6);
    AndShift(x / 2 / 2, 28, 5);
    AndShift(x / 2 / 2 / 2, 14, 4);
    AndShift(x / 2 / 2 / 2 / 2, 7, 3);
    hide And;
    AndZero(x / 2 / 2 / 2 / 2 / 2, 7, 3);
  }

  lemma AndShift(a: nat, b: nat, n: nat)
    ensures And(a, 2 * b, n + 1) == 2 * And(a / 2, b, n)
  {
  }

  lemma {:induction false} AndZero(a: nat, b: nat, n: nat)
    requires a == 0
    ensures And(a, b, n) == 0
  {
    if n > 0 {
      AndZero(a / 2, b / 2, n - 1);
    }
  }

  lemma FactsForDecoding(p: Point)
    requires CurveFacts() && OnCurve(p)
    ensures |Encode(p)| == 32 && DecodeNegative(Encode(p)) == Some(Minus(p))
  {
    DecodeOfEncode(p);
  }

  /** Every signature made with the matching public key is accepted. */
  lemma SignatureIsAccepted(h: Hash, m: seq<u8>, sk: seq<u8>, b: Point)
    requires To64Bytes(h) && CurveFacts() && OnCurve(b) && OrderDividesL(b)
    ensures var pk := PublicKey(h, sk, b);
      |pk| == 32 && |Signed(h, m, sk, pk, b)| == 64 && Accepts(h, m, pk, Signed(h, m, sk, pk, b), b)
  {
    hide CurveFacts, OnCurve, Multiple, Joint, Encode, DecodeNegative, LeBytes, LeValue, And, Minus, CURVE, ExtendedKey,
      OrderDividesL;
    var a, n := SecretScalar(h, sk), Nonce(h, sk, m);
    var pk, r := PublicKey(h, sk, b), Encode(Multiple(CURVE, n, b));
    EncodeLength(Multiple(CURVE, a, b));
    EncodeLength(Multiple(CURVE, n, b));
    var c := Challenge(h, r, pk, m);
    assert c * a >= 0;
    var s := (c * a + n) % L;
    var rs := Signed(h, m, sk, pk, b);
    assert rs == r + LeBytes(s, 32) && rs[..32] == r && rs[32..] == LeBytes(s, 32) && rs[63] == LeBytes(s, 32)[31];
    RangeCheckPasses(s);
    VerificationEquation(c, a, n, s, b);
    FactsForDecoding(Multiple(CURVE, a, b));
    assert LeValue(rs[32..]) % L == s by {
      Pow256At32();
      LeValueOfLeBytes(s, 32);
    }
  }

  /** Signing and verification fit together with the reference SHA-512, whatever its step is. */
  lemma WithReferenceHash(f: Sha512.Step, m: seq<u8>, sk: seq<u8>, b: Point)
    requires CurveFacts() && OnCurve(b) && OrderDividesL(b)
    ensures var h: Hash := x => Sha512.Digest(f, x);
      |h(sk)| == 64 && var pk := PublicKey(h, sk, b);
      |pk| == 32 && |Signed(h, m, sk, pk, b)| == 64 && Accepts(h, m, pk, Signed(h, m, sk, pk, b), b)
  {
    hide CurveFacts, OnCurve, OrderDividesL, Accepts, Signed, PublicKey;
    var h: Hash := x => Sha512.Digest(f, x);
    SignatureIsAccepted(h, m, sk, b);
  }

  // ----- the range of S -----

  /** The check of the top three bits admits exactly the values of 253 bits. */
  lemma RangeCheckIs253Bits(rs: seq<u8>)
    requires |rs| == 64
    ensures And(rs[63], 224, 8) == 0 <==>
      LeValue(rs[32..]) < 0x2000000000000000000000000000000000000000000000000000000000000000
  {
    hide LeValue, And;
    var s, lo := rs[32..], rs[32..63];
    assert s == lo + [rs[63]];
    Last(lo, s, rs[63]);
    LowBytes(lo);
    TopThreeBits(rs[63]);
  }

  lemma TopThreeBits(x: u8)
    ensures And(x, 224, 8) == 32 * (x / 32)
  {
    hide And, Pow2;
    FiveHalves(x);
    ThreeBits();
    AndShift(x, 112, 7);
    AndShift(x / 2, 56, 6);
    AndShift(x / 2 / 2, 28, 5);
    AndShift(x / 2 / 2 / 2, 14, 4);
    AndShift(x / 2 / 2 / 2 / 2, 7, 3);
    AndMasks(x / 32, 3);
  }

  lemma FiveHalves(x: nat)
    ensures x / 2 / 2 / 2 / 2 / 2 == x / 32
  {
    DivDiv(x, 2, 2);
    DivDiv(x, 4, 2);
    DivDiv(x, 8, 2);
    DivDiv(x, 16, 2);
  }

  lemma ThreeBits()
    ensures Pow2(3) == 8
  {
  }

  /** The rule of section 5.1.7 of RFC 8032, which also demands S < L. */
  ghost predicate AcceptsStrictly(h: Hash, m: seq<u8>, pk: seq<u8>, rs: seq<u8>, b: Point)
    requires |pk| == 32 && |rs| == 64
  {
    LeValue(rs[32..]) < L && Accepts(h, m, pk, rs, b)
  }

  /** A signature is accepted exactly if S has at most 253 bits and the signature with S reduced
      modulo L is accepted under the strict rule. */
  lemma AcceptedExactlyModL(h: Hash, m: seq<u8>, pk: seq<u8>, rs: seq<u8>, b: Point)
    requires |pk| == 32 && |rs| == 64
    ensures var strict := rs[..32] + LeBytes(LeValue(rs[32..]) % L, 32);
      Accepts(h, m, pk, rs, b) <==>
        && LeValue(rs[32..]) < 0x2000000000000000000000000000000000000000000000000000000000000000
        && AcceptsStrictly(h, m, pk, strict, b)
  {
    hide LeValue, LeBytes, And, DecodeNegative, Encode, Joint;
    var s := LeValue(rs[32..]) % L;
    var strict := rs[..32] + LeBytes(s, 32);
    assert strict[..32] == rs[..32] && strict[32..] == LeBytes(s, 32);
    ReducedBytes(s);
    RangeCheckIs253Bits(rs);
    RangeCheckIs253Bits(strict);
  }

  lemma ReducedBytes(s: nat)
    requires s < L
    ensures LeValue(LeBytes(s, 32)) == s == s % L
  {
    hide LeValue, LeBytes;
    Pow256At32();
    LeValueOfLeBytes(s, 32);
  }

  /** So S + L stands for S wherever it still has at most 253 bits. */
  lemma ShiftedResponse(h: Hash, m: seq<u8>, pk: seq<u8>, rs: seq<u8>, b: Point)
    requires |pk| == 32 && |rs| == 64
    requires LeValue(rs[32..]) + L < 0x2000000000000000000000000000000000000000000000000000000000000000
    ensures Accepts(h, m, pk, rs[..32] + LeBytes(LeValue(rs[32..]) + L, 32), b) == Accepts(h, m, pk, rs, b)
  {
    hide LeValue, LeBytes, Accepts, AcceptsStrictly;
    var v := LeValue(rs[32..]);
    var shifted := rs[..32] + LeBytes(v + L, 32);
    assert shifted[..32] == rs[..32] && shifted[32..] == LeBytes(v + L, 32);
    Pow256At32();
    LeValueOfLeBytes(v + L, 32);
    DivModUnique(v + L, L, v / L + 1, v % L);
    AcceptedExactlyModL(h, m, pk, rs, b);
    AcceptedExactlyModL(h, m, pk, shifted, b);
  }
}
