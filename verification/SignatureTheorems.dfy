/** What signing and verification promise, said of the very strings that are hashed. */
module SignatureTheorems {
  import opened Words
  import opened Bytes
  import opened AbelianGroup
  import opened Edwards
  import opened PointCodec
  import opened FinalStage
  import opened Signature
  import opened Modm64
  import Fp
  import ScalarMult
  import BosCosterSpec
  import BlockFold
  import Curved25519

  // ----- equal multiples -----

  /** In a group of prime exponent, multiples of a point that is not neutral are equal exactly
      if their factors are equal modulo that prime. */
  lemma EqualMultiples<T(!new)>(g: Group<T>, order: nat, m: nat, n: nat, p: T)
    requires Abelian(g) && g.elem(p) && Prime(order) && Times(g, order, p) == g.zero && p != g.zero
    ensures Times(g, m, p) == Times(g, n, p) <==> m % order == n % order
  {
    hide Abelian, Times, Prime;
    assert order > 0 by { PrimeIsPositive(order); }
    var u, v := m % order, n % order;
    ReduceMultiple(g, m, order, p);
    ReduceMultiple(g, n, order, p);
    if u != v && Times(g, u, p) == Times(g, v, p) {
      DifferenceOrder(g, order, u, v, p);
      TimesSub(g, u, v, p);
      TimesElem(g, v, p);
      Inverse(g, Times(g, v, p));
      assert false;
    }
  }

  lemma PrimeIsPositive(n: nat)
    requires Prime(n)
    ensures n > 0
  {
  }

  /** The same for points of the curve and L. */
  lemma EqualMultiplesModL(m: nat, n: nat, p: Point)
    requires CurveFacts() && Prime(L) && OnCurve(p) && Times(CURVE, L, p) == NEUTRAL && p != NEUTRAL
    ensures Times(CURVE, m, p) == Times(CURVE, n, p) <==> m % L == n % L
  {
    hide CurveFacts, OnCurve, Prime, Times, CURVE;
    CurveIsAbelian();
    ScalarMult.CurveOps(p, p);
    EqualMultiples(CURVE, L, m, n, p);
  }

  /** Different points of the curve have different encodings. */
  lemma EncodeIsInjective(p: Point, q: Point)
    requires CurveFacts() && OnCurve(p) && OnCurve(q) && Encode(p) == Encode(q)
    ensures p == q
  {
    hide CurveFacts, OnCurve, Encode, DecodeNegative, Minus;
    FactsForDecoding(p);
    FactsForDecoding(q);
    MinusTwice(p);
    MinusTwice(q);
  }

  lemma {:induction false} MinusTwice(p: Point)
    ensures Minus(Minus(p)) == p
  {
    hide Fp.Neg;
    Edwards.NegNeg(p.x);
  }

  // ----- verification -----

  /** A decoded key and the range check aside, acceptance is one equation. */
  lemma AcceptedByEncoding(h: Hash, m: seq<u8>, pk: seq<u8>, rs: seq<u8>, b: Point, a: Point)
    requires |pk| == 32 && |rs| == 64 && DecodeNegative(pk) == Some(a)
    ensures Accepts(h, m, pk, rs, b) <==>
      && LeValue(rs[32..]) < 0x2000000000000000000000000000000000000000000000000000000000000000
      && Encode(CURVE.add(Times(CURVE, LeValue(h(rs[..32] + pk + m)) % L, a), Times(CURVE, LeValue(rs[32..]) % L, b)))
        == rs[..32]
  {
    hide LeValue, And, DecodeNegative, Encode, Times, CURVE;
    RangeCheckIs253Bits(rs);
  }

  /** Verification asks the hash for one string: R, the key and the message. */
  lemma AcceptsReads(h: Hash, g: Hash, m: seq<u8>, pk: seq<u8>, rs: seq<u8>, b: Point)
    requires |pk| == 32 && |rs| == 64 && h(rs[..32] + pk + m) == g(rs[..32] + pk + m)
    ensures Accepts(h, m, pk, rs, b) == Accepts(g, m, pk, rs, b)
  {
    hide LeValue, And, DecodeNegative, Encode, ScalarMult.Joint;
  }

  /** [c](-a) + [s]b == r exactly if [s]b == r + [c]a. */
  lemma MoveKey<T(!new)>(g: Group<T>, c: nat, a: T, s: nat, b: T, r: T)
    requires Abelian(g) && g.elem(a) && g.elem(b) && g.elem(r)
    ensures g.add(Times(g, c, g.neg(a)), Times(g, s, b)) == r <==> Times(g, s, b) == g.add(r, Times(g, c, a))
  {
    hide Abelian, Times;
    var x, y := Times(g, c, a), Times(g, s, b);
    TimesNeg(g, c, a);
    TimesElem(g, c, a);
    TimesElem(g, s, b);
    Inverse(g, x);
    Inverse(g, y);
    Inverse(g, r);
    Sum(g, g.neg(x), y);
    Assoc(g, y, g.neg(x), x);
    Assoc(g, r, x, g.neg(x));
  }

  lemma MoveKeyOnCurve(c: nat, a: Point, s: nat, b: Point, r: Point)
    requires CurveFacts() && OnCurve(a) && OnCurve(b) && OrderDividesL(b) && OnCurve(r)
    ensures CURVE.add(Times(CURVE, c, Minus(a)), Times(CURVE, s % L, b)) == r
      <==> Times(CURVE, s, b) == Plus(r, Times(CURVE, c, a))
  {
    hide CurveFacts, OnCurve, Times, CURVE, Minus, Plus;
    CurveIsAbelian();
    ScalarMult.CurveOps(a, b);
    ScalarMult.CurveOps(b, a);
    ScalarMult.CurveOps(r, Times(CURVE, c, a));
    ReduceMultiple(CURVE, s, L, b);
    MoveKey(CURVE, c, a, s, b, r);
  }

  lemma SumOnCurve(c: nat, a: Point, s: nat, b: Point)
    requires CurveFacts() && OnCurve(a) && OnCurve(b)
    ensures OnCurve(CURVE.add(Times(CURVE, c, a), Times(CURVE, s, b)))
  {
    hide CurveFacts, OnCurve, Times, CURVE;
    CurveIsAbelian();
    ScalarMult.CurveOps(a, b);
    ScalarMult.CurveOps(b, a);
    TimesElem(CURVE, c, a);
    TimesElem(CURVE, s, b);
    Sum(CURVE, Times(CURVE, c, a), Times(CURVE, s, b));
    ScalarMult.CurveOps(CURVE.add(Times(CURVE, c, a), Times(CURVE, s, b)), b);
  }

  /** A key that decodes is the negation of what is decoded. */
  lemma KeyOf(pk: seq<u8>, p: Point)
    requires |pk| == 32 && DecodeNegative(pk) == Some(p)
    ensures OnCurve(p) && OnCurve(Minus(p)) && Minus(Minus(p)) == p
  {
    hide OnCurve, DecodeNegative, Minus;
    DecodeIsSound(pk, p);
    MinusOnCurve(p);
    MinusTwice(p);
  }

  /** A signature is accepted exactly if S has at most 253 bits, the key is one of a point A of
      the curve, R is the encoding of a point, and [S]B = R + [H(R, A, M)]A. */
  lemma AcceptedByEquation(h: Hash, m: seq<u8>, pk: seq<u8>, rs: seq<u8>, b: Point)
    requires CurveFacts() && OnCurve(b) && OrderDividesL(b) && |pk| == 32 && |rs| == 64
    ensures Accepts(h, m, pk, rs, b) <==>
      && LeValue(rs[32..]) < 0x2000000000000000000000000000000000000000000000000000000000000000
      && exists a: Point, r: Point ::
        && OnCurve(a) && DecodeNegative(pk) == Some(Minus(a)) && OnCurve(r) && Encode(r) == rs[..32]
        && Times(CURVE, LeValue(rs[32..]), b) == Plus(r, Times(CURVE, LeValue(h(rs[..32] + pk + m)) % L, a))
  {
    hide CurveFacts, OnCurve, OrderDividesL, Accepts, DecodeNegative, Encode, Minus, Plus, Times, CURVE, LeValue;
    var c, s := LeValue(h(rs[..32] + pk + m)) % L, LeValue(rs[32..]);
    if DecodeNegative(pk).Some? {
      var p := DecodeNegative(pk).value;
      var a, sum := Minus(p), CURVE.add(Times(CURVE, c, p), Times(CURVE, s % L, b));
      KeyOf(pk, p);
      AcceptedByEncoding(h, m, pk, rs, b, p);
      SumOnCurve(c, p, s % L, b);
      MoveKeyOnCurve(c, a, s, b, sum);
      forall a': Point, r: Point | OnCurve(a') && Minus(a') == p && OnCurve(r)
        && Times(CURVE, s, b) == Plus(r, Times(CURVE, c, a'))
        ensures r == sum
      {
        MoveKeyOnCurve(c, a', s, b, r);
      }
    } else {
      UndecodableIsRejected(h, m, pk, rs, b);
    }
  }

  lemma UndecodableIsRejected(h: Hash, m: seq<u8>, pk: seq<u8>, rs: seq<u8>, b: Point)
    requires |pk| == 32 && |rs| == 64 && DecodeNegative(pk).None?
    ensures !Accepts(h, m, pk, rs, b)
  {
    hide DecodeNegative, LeValue, And, Encode;
  }

  // ----- one signature, two messages -----

  /** With a key of exponent L, for a prime L, a signature that is accepted for one message is
      accepted for another exactly if R, key and message hash to the same number modulo L, unless
      the key is neutral. */
  lemma OtherMessage(h: Hash, m: seq<u8>, m': seq<u8>, pk: seq<u8>, rs: seq<u8>, b: Point, a: Point)
    requires CurveFacts() && OnCurve(b) && Prime(L) && |pk| == 32 && |rs| == 64
    requires DecodeNegative(pk) == Some(a) && Times(CURVE, L, a) == NEUTRAL && Accepts(h, m, pk, rs, b)
    ensures Accepts(h, m', pk, rs, b) <==>
      a == NEUTRAL || LeValue(h(rs[..32] + pk + m')) % L == LeValue(h(rs[..32] + pk + m)) % L
  {
    hide CurveFacts, OnCurve, Accepts, DecodeNegative, Encode, Times, CURVE, LeValue, Prime, Minus;
    var c, c', s := LeValue(h(rs[..32] + pk + m)) % L, LeValue(h(rs[..32] + pk + m')) % L, LeValue(rs[32..]) % L;
    AcceptedByEncoding(h, m, pk, rs, b, a);
    AcceptedByEncoding(h, m', pk, rs, b, a);
    KeyOf(pk, a);
    SameEncodedSum(c, c', a, s, b);
  }

  lemma EqualSums<T(!new)>(g: Group<T>, order: nat, c: nat, c': nat, a: T, y: T)
    requires Abelian(g) && g.elem(a) && g.elem(y) && Prime(order) && Times(g, order, a) == g.zero
    requires c < order && c' < order
    ensures g.add(Times(g, c, a), y) == g.add(Times(g, c', a), y) <==> a == g.zero || c == c'
  {
    hide Abelian, Times, Prime;
    TimesElem(g, c, a);
    TimesElem(g, c', a);
    if g.add(Times(g, c, a), y) == g.add(Times(g, c', a), y) {
      BosCosterSpec.CancelRight(g, Times(g, c, a), Times(g, c', a), y);
    }
    if a == g.zero {
      TimesOfZero(g, c);
      TimesOfZero(g, c');
    } else if c != c' {
      EqualMultiples(g, order, c, c', a);
      BlockFold.SmallMod(c, order);
      BlockFold.SmallMod(c', order);
    }
  }

  /** [c]a + [s]b and [c']a + [s]b have one encoding exactly if a is neutral or c == c'. */
  lemma SameEncodedSum(c: nat, c': nat, a: Point, s: nat, b: Point)
    requires CurveFacts() && OnCurve(b) && OnCurve(a) && Prime(L) && Times(CURVE, L, a) == NEUTRAL && c < L && c' < L
    ensures Encode(CURVE.add(Times(CURVE, c, a), Times(CURVE, s, b)))
        == Encode(CURVE.add(Times(CURVE, c', a), Times(CURVE, s, b)))
      <==> a == NEUTRAL || c == c'
  {
    hide CurveFacts, OnCurve, Encode, Times, CURVE, Prime;
    CurveIsAbelian();
    ScalarMult.CurveOps(a, b);
    ScalarMult.CurveOps(b, a);
    var y := Times(CURVE, s, b);
    TimesElem(CURVE, s, b);
    EqualSums(CURVE, L, c, c', a, y);
    SumOnCurve(c, a, s, b);
    SumOnCurve(c', a, s, b);
    if Encode(CURVE.add(Times(CURVE, c, a), y)) == Encode(CURVE.add(Times(CURVE, c', a), y)) {
      EncodeIsInjective(CURVE.add(Times(CURVE, c, a), y), CURVE.add(Times(CURVE, c', a), y));
    }
  }

  // ----- one R, two responses -----

  /** For a prime L, only the responses that are equal modulo L and below 2^253 are accepted with
      the R of an accepted signature. */
  lemma OneResponse(h: Hash, m: seq<u8>, pk: seq<u8>, rs: seq<u8>, rs': seq<u8>, b: Point)
    requires CurveFacts() && OnCurve(b) && OrderDividesL(b) && Prime(L) && b != NEUTRAL
    requires |pk| == 32 && |rs| == 64 == |rs'| && rs[..32] == rs'[..32] && Accepts(h, m, pk, rs, b)
    ensures Accepts(h, m, pk, rs', b) <==>
      && LeValue(rs'[32..]) < 0x2000000000000000000000000000000000000000000000000000000000000000
      && LeValue(rs'[32..]) % L == LeValue(rs[32..]) % L
  {
    hide CurveFacts, OnCurve, Accepts, DecodeNegative, Encode, Times, CURVE, LeValue, Prime, Minus;
    var c, s, s' := LeValue(h(rs[..32] + pk + m)) % L, LeValue(rs[32..]) % L, LeValue(rs'[32..]) % L;
    if DecodeNegative(pk).None? {
      UndecodableIsRejected(h, m, pk, rs, b);
      assert false;
    }
    var a := DecodeNegative(pk).value;
    KeyOf(pk, a);
    AcceptedByEncoding(h, m, pk, rs, b, a);
    AcceptedByEncoding(h, m, pk, rs', b, a);
    SwapSum(c, a, s, b);
    SwapSum(c, a, s', b);
    SameEncodedSum(s, s', b, c, a);
  }

  lemma SwapSum(c: nat, a: Point, s: nat, b: Point)
    requires CurveFacts() && OnCurve(a) && OnCurve(b)
    ensures CURVE.add(Times(CURVE, c, a), Times(CURVE, s, b)) == CURVE.add(Times(CURVE, s, b), Times(CURVE, c, a))
  {
    hide CurveFacts, OnCurve, Times, CURVE;
    CurveIsAbelian();
    ScalarMult.CurveOps(a, b);
    ScalarMult.CurveOps(b, a);
    TimesElem(CURVE, c, a);
    TimesElem(CURVE, s, b);
    Sum(CURVE, Times(CURVE, c, a), Times(CURVE, s, b));
  }

  // ----- keys -----

  /** The public key of sk is the encoding of [a]B for the clamped low half a of its hash. */
  lemma PublicKeyValue(h: Hash, sk: seq<u8>, b: Point)
    requires CurveFacts() && OnCurve(b) && OrderDividesL(b) && |h(sk)| == 64
    ensures var v := LeValue(h(sk)[..32]);
      PublicKey(h, sk, b) == Encode(Times(CURVE, 0x4000000000000000000000000000000000000000000000000000000000000000
        + v % 0x4000000000000000000000000000000000000000000000000000000000000000 - v % 8, b))
  {
    hide CurveFacts, OnCurve, OrderDividesL, Encode, Times, CURVE, LeValue, And, Or, Clamp;
    Curved25519.ClampedHalf(h(sk));
    Curved25519.ClampedValue(h(sk)[..32]);
    MultipleModL(LeValue(Clamp(h(sk)[..32])), b);
  }

  /** The Ed25519 key of sk and the Curve25519 key of the low half of its hash belong to one point:
      the u-coordinate of the one is the other. */
  lemma KeysAgree(h: Hash, sk: seq<u8>, b: Point)
    requires CurveFacts() && OnCurve(b) && OrderDividesL(b) && |h(sk)| == 64
    ensures var pk := PublicKey(h, sk, b);
      |pk| == 32 && DecodeNegative(pk).Some? && Curved25519.MontgomeryU(DecodeNegative(pk).value)
        == Curved25519.MontgomeryU(Multiple(CURVE, LeValue(Clamp(h(sk)[..32])), b))
  {
    hide CurveFacts, OnCurve, OrderDividesL, Encode, DecodeNegative, Multiple, CURVE, LeValue, Clamp;
    var v := LeValue(Clamp(h(sk)[..32]));
    Curved25519.ClampedHalf(h(sk));
    MultipleModL(v, b);
    CurveIsAbelian();
    ScalarMult.CurveOps(b, b);
    ScalarMult.CurveOps(Multiple(CURVE, v, b), b);
    MultipleElem(CURVE, v, b);
    FactsForDecoding(Multiple(CURVE, v, b));
  }

  // ----- signing -----

  /** A signature consists of R = [n]B and S = c a + n modulo L, where n is what the upper half of
      the hashed key and the message hash to, c what R, public key and message hash to, and a the
      clamped lower half of the hashed key. */
  lemma SignatureParts(h: Hash, m: seq<u8>, sk: seq<u8>, pk: seq<u8>, b: Point)
    requires CurveFacts() && OnCurve(b) && OrderDividesL(b) && |h(sk)| == 64
    ensures var rs := Signed(h, m, sk, pk, b);
      && |rs| == 64
      && rs[..32] == Encode(Times(CURVE, LeValue(h(h(sk)[32..] + m)), b))
      && LeValue(rs[32..]) ==
        (LeValue(h(rs[..32] + pk + m))
          * (0x4000000000000000000000000000000000000000000000000000000000000000
            + LeValue(h(sk)[..32]) % 0x4000000000000000000000000000000000000000000000000000000000000000
            - LeValue(h(sk)[..32]) % 8)
          + LeValue(h(h(sk)[32..] + m))) % L
  {
    hide CurveFacts, OnCurve, OrderDividesL, Encode, Multiple, Times, CURVE, LeValue, LeBytes, Clamp, Signed;
    var n, a := LeValue(h(h(sk)[32..] + m)), LeValue(Clamp(h(sk)[..32]));
    Curved25519.ClampedValue(h(sk)[..32]);
    MultipleModL(n, b);
    var r := Encode(Multiple(CURVE, n, b));
    EncodeLength(Multiple(CURVE, n, b));
    var c := LeValue(h(r + pk + m));
    SignedAsComputed(h, m, sk, pk, b);
    ReducedOperands(c, a, n);
    assert c * a >= 0;
    SignatureHalves(Signed(h, m, sk, pk, b), r, (c * a + n) % L);
    NatMultiple(n, b);
  }

  lemma SignatureHalves(rs: seq<u8>, r: seq<u8>, s: nat)
    requires |r| == 32 && s < L && rs == r + LeBytes(s, 32)
    ensures |rs| == 64 && rs[..32] == r && LeValue(rs[32..]) == s
  {
    hide LeValue, LeBytes;
    assert rs[32..] == LeBytes(s, 32);
    ReducedBytes(s);
  }

  lemma NatMultiple(n: nat, b: Point)
    ensures Multiple(CURVE, n, b) == Times(CURVE, n, b)
  {
    hide Times, CURVE;
  }

  lemma SignedAsComputed(h: Hash, m: seq<u8>, sk: seq<u8>, pk: seq<u8>, b: Point)
    requires |h(sk)| == 64
    ensures var n, a := LeValue(h(h(sk)[32..] + m)), LeValue(Clamp(h(sk)[..32]));
      var r := Encode(Multiple(CURVE, n % L, b));
      Signed(h, m, sk, pk, b) == r + LeBytes((LeValue(h(r + pk + m)) % L * (a % L) + n % L) % L, 32)
  {
    hide Encode, Multiple, CURVE, LeValue, LeBytes, Clamp;
    Curved25519.ClampedHalf(h(sk));
  }

  lemma ReducedOperands(c: nat, a: nat, n: nat)
    ensures (c % L * (a % L) + n % L) % L == (c * a + n) % L
  {
    var p, q, t := c / L, a / L, n / L;
    var u, v, w := c % L, a % L, n % L;
    var x := u * v + w;
    ProductOfSums(p, u, q, v);
    DivModUnique(c * a + n, L, p * a + u * q + t + x / L, x % L);
  }

  lemma ProductOfSums(p: int, u: int, q: int, v: int)
    ensures (L * p + u) * (L * q + v) == L * (p * (L * q + v) + u * q) + u * v
  {
  }

  /** Signing asks the hash for three strings: the key, the upper half of the hashed key with the
      message, and R with the public key and the message. */
  lemma SignedReads(h: Hash, g: Hash, m: seq<u8>, sk: seq<u8>, pk: seq<u8>, b: Point)
    requires |h(sk)| == 64 && h(sk) == g(sk) && h(h(sk)[32..] + m) == g(h(sk)[32..] + m)
    requires var r := Encode(Multiple(CURVE, LeValue(h(h(sk)[32..] + m)) % L, b)); h(r + pk + m) == g(r + pk + m)
    ensures Signed(h, m, sk, pk, b) == Signed(g, m, sk, pk, b)
  {
    hide Encode, Multiple, CURVE, LeValue, LeBytes, Clamp;
    Curved25519.ClampedHalf(h(sk));
  }

  /** For a prime L, two messages signed with one key share R exactly if the hashes that begin with
      the upper half of the hashed key are equal modulo L. */
  lemma SameNonce(h: Hash, m: seq<u8>, m': seq<u8>, sk: seq<u8>, pk: seq<u8>, b: Point)
    requires CurveFacts() && OnCurve(b) && OrderDividesL(b) && Prime(L) && b != NEUTRAL && |h(sk)| == 64
    ensures |Signed(h, m, sk, pk, b)| == 64 == |Signed(h, m', sk, pk, b)|
    ensures Signed(h, m, sk, pk, b)[..32] == Signed(h, m', sk, pk, b)[..32]
      <==> LeValue(h(h(sk)[32..] + m)) % L == LeValue(h(h(sk)[32..] + m')) % L
  {
    hide CurveFacts, OnCurve, Encode, Times, CURVE, LeValue, Prime, Signed;
    var n, n' := LeValue(h(h(sk)[32..] + m)), LeValue(h(h(sk)[32..] + m'));
    SignatureParts(h, m, sk, pk, b);
    SignatureParts(h, m', sk, pk, b);
    EqualMultiplesModL(n, n', b);
    MultipleOnCurve(n, b);
    MultipleOnCurve(n', b);
    if Encode(Times(CURVE, n, b)) == Encode(Times(CURVE, n', b)) {
      EncodeIsInjective(Times(CURVE, n, b), Times(CURVE, n', b));
    }
  }

  lemma MultipleOnCurve(n: nat, b: Point)
    requires CurveFacts() && OnCurve(b)
    ensures OnCurve(Times(CURVE, n, b))
  {
    hide CurveFacts, OnCurve, Times, CURVE;
    CurveIsAbelian();
    ScalarMult.CurveOps(b, b);
    TimesElem(CURVE, n, b);
    ScalarMult.CurveOps(Times(CURVE, n, b), b);
  }
}
