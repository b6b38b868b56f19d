/** What batch verification promises about valid signatures, and exactly when a batch of them
    is accepted. */
module BatchTheorems {
  import opened Words
  import opened Bytes
  import opened AbelianGroup
  import opened Edwards
  import opened PointCodec
  import opened ModmBatch
  import opened BatchSpec
  import opened BosCosterRun
  import opened FinalStage
  import opened Signature
  import opened Modm64
  import opened BatchVerify
  import ScalarMult
  import SignatureTheorems
  import BosCosterSpec

  /** The signatures of the batch are each valid. */
  ghost predicate EachValid(h: Hash, b: Inputs, base: Point)
    requires b.Valid()
  {
    forall i :: 0 <= i < |b.m| ==> OneValid(h, b, i, base)
  }

  /** The keys lie in the group of exponent L. */
  ghost predicate KeysHaveExponent(b: Inputs)
    requires AllDecode(b.pk)
  {
    Annihilates(CURVE, L, Decoded(b.pk))
  }

  /** A valid signature decodes and satisfies its verification equation with negated key and R. */
  lemma ValidIsBalanced(h: Hash, b: Inputs, i: nat, base: Point)
    requires CurveFacts() && OnCurve(base) && b.Valid() && i < |b.m| && OneValid(h, b, i, base)
    ensures DecodeNegative(b.pk[i][..32]).Some? && DecodeNegative(b.rs[i][..32]).Some?
    ensures Balanced(CURVE, base, Responses(b)[i], Challenges(h, b)[i], DecodeNegative(b.pk[i][..32]).value,
      DecodeNegative(b.rs[i][..32]).value)
  {
    hide CurveFacts, OnCurve, DecodeNegative, Accepts, Challenge, LeValue;
    assert b.pk[i][..32] == b.pk[i];
    AcceptedIsBalanced(h, b.m[i], b.pk[i], b.rs[i], base);
  }

  lemma AcceptedIsBalanced(h: Hash, m: seq<u8>, pk: seq<u8>, rs: seq<u8>, base: Point)
    requires CurveFacts() && OnCurve(base) && |pk| == 32 && |rs| == 64 && Accepts(h, m, pk, rs, base)
    ensures DecodeNegative(pk).Some? && DecodeNegative(rs[..32]).Some?
    ensures Balanced(CURVE, base, LeValue(rs[32..]) % L, Challenge(h, rs[..32], pk, m), DecodeNegative(pk).value,
      DecodeNegative(rs[..32]).value)
  {
    hide CurveFacts, OnCurve, DecodeNegative, Encode, LeValue, And, Challenge, ScalarMult.Joint, Balanced, CURVE;
    DecodeIsSound(pk, DecodeNegative(pk).value);
    EquationBalances(Challenge(h, rs[..32], pk, m), DecodeNegative(pk).value, LeValue(rs[32..]) % L, base);
  }

  lemma EquationBalances(c: nat, key: Point, s: nat, base: Point)
    requires CurveFacts() && OnCurve(key) && OnCurve(base)
    ensures var r := Encode(ScalarMult.Joint(c, key, s, base));
      |r| == 32 && DecodeNegative(r).Some? && Balanced(CURVE, base, s, c, key, DecodeNegative(r).value)
  {
    hide CurveFacts, OnCurve, DecodeNegative, Encode, ScalarMult.Joint, Balanced, CURVE, Minus;
    JointBalances(c, key, s, base);
    FactsForDecoding(ScalarMult.Joint(c, key, s, base));
  }

  lemma JointBalances(c: nat, key: Point, s: nat, base: Point)
    requires CurveFacts() && OnCurve(key) && OnCurve(base)
    ensures OnCurve(ScalarMult.Joint(c, key, s, base))
    ensures Balanced(CURVE, base, s, c, key, Minus(ScalarMult.Joint(c, key, s, base)))
  {
    hide CurveFacts, OnCurve, Times, CURVE;
    CurveIsAbelian();
    ScalarMult.CurveOps(key, base);
    ScalarMult.CurveOps(base, ScalarMult.Joint(c, key, s, base));
    ScalarMult.CurveOps(ScalarMult.Joint(c, key, s, base), base);
    CombinationBalances(CURVE, c, key, s, base);
  }

  lemma CombinationBalances<T(!new)>(g: Group<T>, c: nat, key: T, s: nat, base: T)
    requires Abelian(g) && g.elem(key) && g.elem(base)
    ensures g.elem(Combination(g, c, key, s, base))
    ensures Balanced(g, base, s, c, key, g.neg(Combination(g, c, key, s, base)))
  {
    hide Abelian, Times;
    CombinationElem(g, c, key, s, base);
    TimesElem(g, c, key);
    TimesElem(g, s, base);
    Sum(g, Times(g, s, base), Times(g, c, key));
    Inverse(g, Combination(g, c, key, s, base));
  }

  /** Valid signatures whose keys have exponent L satisfy the batch equation, whatever the
      random scalars are. */
  lemma ValidBatchEquation(h: Hash, b: Inputs, base: Point)
    requires CurveFacts() && OnCurve(base) && OrderDividesL(base) && b.Valid() && EachValid(h, b, base)
    ensures AllDecode(b.pk) && AllDecode(b.rs)
    ensures KeysHaveExponent(b) ==> BosCosterSpec.SumOf(CURVE, Scalars(h, b), GroupPoints(b, base)) == NEUTRAL
  {
    hide CurveFacts, OnCurve, EachValid, AllDecode, KeysHaveExponent, Times, BosCosterSpec.SumOf, CURVE, AllBalanced,
      BatchScalars, BatchPoints, Randoms, Responses, Challenges, Decoded;
    EachIsBalanced(h, b, base);
    if KeysHaveExponent(b) {
      CurveIsAbelian();
      ScalarMult.CurveOps(base, base);
      ValidBatchIsNeutral(CURVE, base, Randoms(b), Responses(b), Challenges(h, b), Decoded(b.pk), Decoded(b.rs));
    }
  }

  lemma EachIsBalanced(h: Hash, b: Inputs, base: Point)
    requires CurveFacts() && OnCurve(base) && OrderDividesL(base) && b.Valid() && EachValid(h, b, base)
    ensures AllDecode(b.pk) && AllDecode(b.rs)
    ensures KeysHaveExponent(b) ==>
      AllBalanced(CURVE, base, Responses(b), Challenges(h, b), Decoded(b.pk), Decoded(b.rs))
  {
    hide CurveFacts, OnCurve, DecodeNegative, OneValid, Times, CURVE, Balanced, Responses, Challenges, OrderDividesL;
    forall i | 0 <= i < |b.m|
      ensures DecodeNegative(b.pk[i][..32]).Some? && DecodeNegative(b.rs[i][..32]).Some?
      ensures Balanced(CURVE, base, Responses(b)[i], Challenges(h, b)[i], DecodeNegative(b.pk[i][..32]).value,
        DecodeNegative(b.rs[i][..32]).value)
    {
      ValidIsBalanced(h, b, i, base);
    }
    BaseElem(base);
  }

  lemma BaseElem(base: Point)
    requires OnCurve(base) && OrderDividesL(base)
    ensures CURVE.elem(base) && HasExponent(CURVE, base)
  {
    hide Times, OnCurve;
    ScalarMult.CurveOps(base, base);
  }

  // ----- the verdict on a batch -----

  /** The R's lie in the group of exponent L. */
  ghost predicate CommitmentsHaveExponent(b: Inputs)
    requires AllDecode(b.rs)
  {
    Annihilates(CURVE, L, Decoded(b.rs))
  }

  /** If L is prime and annihilates the base point, the keys and the R's, a batch is accepted
      exactly if its run stays in range and the multiples of the scalars that took part sum to
      the neutral element. */
  lemma VerdictIsExact(h: Hash, b: Inputs, base: Point, verdict: Verdict)
    requires CurveFacts() && OnCurve(base) && OrderDividesL(base) && Prime(L) && b.Valid() && |b.m| >= 2
    requires AllDecode(b.pk) && AllDecode(b.rs) && KeysHaveExponent(b) && CommitmentsHaveExponent(b)
    requires VerdictFor(h, b, base, verdict)
    ensures verdict == Accepted <==>
      ScanStays(Scalars(h, b)) && ActiveSum(CURVE, Scalars(h, b), GroupPoints(b, base)) == NEUTRAL
  {
    hide CurveFacts, OnCurve, AllDecode, KeysHaveExponent, CommitmentsHaveExponent, Scalars, GroupPoints, ActiveSum,
      Active, CURVE, Prime, RunResult, Times, Annihilates, VerdictFor, ScanStays, Weight;
    if !ScanStays(Scalars(h, b)) {
      OutOfRangeIsRejected(h, b, base, verdict);
      return;
    }
    var s, points := Scalars(h, b), GroupPoints(b, base);
    var r := RunOf(h, b, base, verdict);
    LIsLarge();
    CurveIsAbelian();
    ScalarMult.CurveOps(base, base);
    PointsAnnihilated(b, base);
    ScalarsBelow(h, b);
    NeutralResult(CURVE, L, s, points, r);
  }

  lemma OutOfRangeIsRejected(h: Hash, b: Inputs, base: Point, verdict: Verdict)
    requires b.Valid() && |b.m| >= 2 && AllDecode(b.pk) && AllDecode(b.rs) && VerdictFor(h, b, base, verdict)
    requires !ScanStays(Scalars(h, b))
    ensures verdict == OutOfRange
  {
    hide RunResult, Scalars, GroupPoints, CURVE, AllDecode, ScanStays;
  }

  /** The result of the run behind a verdict. */
  lemma RunOf(h: Hash, b: Inputs, base: Point, verdict: Verdict) returns (r: Point)
    requires b.Valid() && |b.m| >= 2 && AllDecode(b.pk) && AllDecode(b.rs) && VerdictFor(h, b, base, verdict)
    requires ScanStays(Scalars(h, b))
    ensures RunResult(CURVE, Scalars(h, b), GroupPoints(b, base), r) && (verdict == Accepted <==> r == NEUTRAL)
  {
    hide RunResult, Scalars, GroupPoints, CURVE, AllDecode, ScanStays;
    r :| RunResult(CURVE, Scalars(h, b), GroupPoints(b, base), r) && (verdict == Accepted <==> r == NEUTRAL);
  }

  lemma LIsLarge()
    ensures L > Weight(4) * 2
  {
  }

  lemma PointsAnnihilated(b: Inputs, base: Point)
    requires b.Valid() && OrderDividesL(base) && AllDecode(b.pk) && AllDecode(b.rs) && KeysHaveExponent(b)
      && CommitmentsHaveExponent(b)
    ensures Annihilates(CURVE, L, GroupPoints(b, base))
  {
    hide CURVE, Times, AllDecode, Decoded, Annihilates;
    ScalarMult.CurveOps(base, base);
    PartsAnnihilated(CURVE, L, base, Decoded(b.pk), Decoded(b.rs));
  }

  lemma PartsAnnihilated<T>(g: Group<T>, k: nat, b: T, keys: seq<T>, rs: seq<T>)
    requires |keys| == |rs| && Times(g, k, b) == g.zero && Annihilates(g, k, keys) && Annihilates(g, k, rs)
    ensures Annihilates(g, k, BatchPoints(b, keys, rs))
  {
    hide Times;
  }

  lemma ScalarsBelow(h: Hash, b: Inputs)
    requires b.Valid()
    ensures forall i :: 0 <= i < |Scalars(h, b)| ==> Scalars(h, b)[i] < L
  {
    hide LeValue;
    WeightedBelow(Randoms(b), Responses(b));
  }

  lemma WeightedBelow(r: seq<nat>, s: seq<nat>)
    requires |r| == |s|
    ensures WeightedSum(r, s) < L
  {
  }

  /** What satisfies the verification equation with a base point and a key of exponent L has
      exponent L. */
  lemma BalancedExponent<T(!new)>(g: Group<T>, b: T, s: nat, h: nat, key: T, r: T)
    requires Abelian(g) && g.elem(b) && HasExponent(g, b) && HasExponent(g, key) && Balanced(g, b, s, h, key, r)
    ensures HasExponent(g, r)
  {
    hide Abelian, Times;
    TimesElem(g, s, b);
    TimesElem(g, h, key);
    var a := g.add(Times(g, s, b), Times(g, h, key));
    Sum(g, Times(g, s, b), Times(g, h, key));
    MultipleAnnihilated(g, L, s, b);
    MultipleAnnihilated(g, L, h, key);
    TimesOfSum(g, L, Times(g, s, b), Times(g, h, key));
    TimesOfSum(g, L, a, r);
    TimesOfZero(g, L);
    Zero(g);
    Inverse(g, g.zero);
    TimesElem(g, L, r);
    Inverse(g, Times(g, L, r));
  }

  lemma CommitmentsInherit(h: Hash, b: Inputs, base: Point)
    requires CurveFacts() && b.Valid() && AllDecode(b.pk) && AllDecode(b.rs)
    requires AllBalanced(CURVE, base, Responses(b), Challenges(h, b), Decoded(b.pk), Decoded(b.rs))
    ensures CommitmentsHaveExponent(b)
  {
    hide CurveFacts, CURVE, Times, AllDecode, Decoded, Balanced, Abelian, Responses, Challenges;
    CurveIsAbelian();
    forall i | 0 <= i < |b.rs|
      ensures HasExponent(CURVE, Decoded(b.rs)[i])
    {
      BalancedExponent(CURVE, base, Responses(b)[i], Challenges(h, b)[i], Decoded(b.pk)[i], Decoded(b.rs)[i]);
    }
  }

  /** The heap is extended, or the first scalars stay in range and sum to the neutral element. */
  ghost predicate Holds(s: seq<nat>, points: seq<Point>)
    requires |s| == |points| >= 5 && |s| % 2 == 1
  {
    BosCosterSpec.WillExtend(First(s)) || (EndsInRange(First(s)) && FirstSum(CURVE, s, points) == NEUTRAL)
  }

  /** A batch of valid signatures with keys of exponent L, for a prime L, is accepted exactly if
      the heap is extended, or its first scalars alone sum to the neutral element and are not
      all multiples of 2^224 with one of them nonzero. */
  lemma ValidBatchIsAccepted(h: Hash, b: Inputs, base: Point, verdict: Verdict)
    requires CurveFacts() && OnCurve(base) && OrderDividesL(base) && Prime(L) && b.Valid() && |b.m| >= 2
      && EachValid(h, b, base)
    requires AllDecode(b.pk) ==> KeysHaveExponent(b)
    requires VerdictFor(h, b, base, verdict)
    ensures AllDecode(b.pk) && AllDecode(b.rs)
    ensures verdict == Accepted <==> Holds(Scalars(h, b), GroupPoints(b, base))
  {
    hide CurveFacts, OnCurve, EachValid, AllDecode, KeysHaveExponent, CommitmentsHaveExponent, BosCosterSpec.SumOf,
      Scalars, GroupPoints, BosCosterSpec.WillExtend, EndsInRange, CURVE, VerdictFor, AllBalanced, Prime, OrderDividesL;
    ValidBatchEquation(h, b, base);
    EachIsBalanced(h, b, base);
    CommitmentsInherit(h, b, base);
    VerdictIsExact(h, b, base, verdict);
    var s, points := Scalars(h, b), GroupPoints(b, base);
    assert s[..|s|] == s && points[..|s|] == points;
  }

  // ----- all batches -----

  /** The keys of batch k, where they decode, lie in the group of exponent L. */
  ghost predicate BatchKeys(b: Inputs, k: nat)
    requires 64 * k <= |b.m| == |b.pk| == |b.rs| == |b.random|
  {
    AllDecode(BatchAt(b, k).pk) ==> KeysHaveExponent(BatchAt(b, k))
  }

  /** Batch k decodes and is extended or balanced by its first scalars. */
  ghost predicate BatchHolds(h: Hash, b: Inputs, base: Point, k: nat)
    requires b.Valid() && 64 * k + 3 < |b.m|
  {
    SliceValid(b, k);
    var c := BatchAt(b, k);
    && AllDecode(c.pk) && AllDecode(c.rs)
    && Holds(Scalars(h, c), GroupPoints(c, base))
  }

  lemma SliceIsValid(h: Hash, b: Inputs, base: Point, k: nat)
    requires b.Valid() && EachValid(h, b, base) && 64 * k <= |b.m|
    ensures BatchAt(b, k).Valid() && EachValid(h, BatchAt(b, k), base)
  {
    hide OneValid, BatchAt;
    SliceValid(b, k);
    forall i | 0 <= i < |BatchAt(b, k).m|
      ensures OneValid(h, BatchAt(b, k), i, base)
    {
      SameSignature(h, b, base, k, i);
    }
  }

  lemma SameSignature(h: Hash, b: Inputs, base: Point, k: nat, i: nat)
    requires b.Valid() && 64 * k <= |b.m| && BatchAt(b, k).Valid() && i < |BatchAt(b, k).m|
    ensures 64 * k + i < |b.m| && OneValid(h, BatchAt(b, k), i, base) == OneValid(h, b, 64 * k + i, base)
  {
    hide Accepts;
  }

  /** If all signatures are valid, all entries are 1; and with keys of exponent L, for a prime L,
      the result is 0 exactly if every batch is extended or balanced by its first scalars. */
  lemma AllValid(h: Hash, b: Inputs, base: Point, verdicts: seq<Verdict>, valid: seq<int>, ret: nat)
    requires CurveFacts() && OnCurve(base) && OrderDividesL(base) && Prime(L) && b.Valid() && |b.m| <= |valid|
      && EachValid(h, b, base)
    requires |verdicts| == BatchCount(|b.m|) && RightVerdicts(h, b, base, verdicts) && OutOfRange !in verdicts
    requires RightEntries(h, b, base, verdicts, valid, |b.m|)
    requires ret == (if exists i :: 0 <= i < |b.m| && valid[i] == 0 then 1 else 0)
      + (if Failed in verdicts then 2 else 0)
    ensures forall i :: 0 <= i < |b.m| ==> valid[i] == 1
    ensures (forall k: nat :: 64 * k + 3 < |b.m| ==> BatchKeys(b, k)) ==>
      (ret == 0 <==> forall k: nat :: 64 * k + 3 < |b.m| ==> BatchHolds(h, b, base, k))
  {
    hide CurveFacts, OnCurve, OneValid, OrderDividesL, Prime, BatchKeys, BatchHolds, RightVerdict;
    EntriesTell(h, b, base, verdicts, valid);
    BatchesCovered(|b.m|);
    if forall k: nat :: 64 * k + 3 < |b.m| ==> BatchKeys(b, k) {
      forall k | 0 <= k < |verdicts|
        ensures verdicts[k] == Failed <==> !BatchHolds(h, b, base, k)
      {
        ValidBatchHolds(h, b, base, k, verdicts[k]);
      }
    }
  }

  lemma ValidBatchHolds(h: Hash, b: Inputs, base: Point, k: nat, verdict: Verdict)
    requires CurveFacts() && OnCurve(base) && OrderDividesL(base) && Prime(L) && b.Valid() && EachValid(h, b, base)
    requires 64 * k + 3 < |b.m| && RightVerdict(h, b, base, k, verdict) && BatchKeys(b, k) && verdict != OutOfRange
    ensures verdict == Failed <==> !BatchHolds(h, b, base, k)
  {
    hide CurveFacts, OnCurve, EachValid, KeysHaveExponent, AllDecode, OrderDividesL, Prime, BatchAt, Scalars,
      GroupPoints, Holds, ScanStays, RunResult;
    SliceIsValid(h, b, base, k);
    ValidBatchIsAccepted(h, BatchAt(b, k), base, verdict);
  }

  // ----- single signatures in an accepted batch -----

  /** The signature is balanced, with the negated key and R that its strings decode to. */
  ghost predicate BalancedSignature(h: Hash, m: seq<u8>, pk: seq<u8>, rs: seq<u8>, base: Point)
    requires |pk| == 32 && |rs| == 64
  {
    && DecodeNegative(pk).Some? && DecodeNegative(rs[..32]).Some?
    && Balanced(CURVE, base, LeValue(rs[32..]) % L, LeValue(h(rs[..32] + pk + m)) % L, DecodeNegative(pk).value,
         DecodeNegative(rs[..32]).value)
  }

  /** A signature is valid exactly if it is balanced, S has at most 253 bits, and R is the encoding
      of its point. */
  lemma ValidExactlyIfBalanced(h: Hash, m: seq<u8>, pk: seq<u8>, rs: seq<u8>, base: Point)
    requires CurveFacts() && OnCurve(base) && |pk| == 32 && |rs| == 64
    ensures Accepts(h, m, pk, rs, base) <==>
      && BalancedSignature(h, m, pk, rs, base)
      && LeValue(rs[32..]) < 0x2000000000000000000000000000000000000000000000000000000000000000
      && rs[..32] == Encode(Minus(DecodeNegative(rs[..32]).value))
  {
    hide CurveFacts, OnCurve, DecodeNegative, Encode, LeValue, Accepts, Balanced, CURVE, Minus, Times;
    if DecodeNegative(pk).None? {
      SignatureTheorems.UndecodableIsRejected(h, m, pk, rs, base);
    } else {
      var a, c, s := DecodeNegative(pk).value, LeValue(h(rs[..32] + pk + m)) % L, LeValue(rs[32..]) % L;
      SignatureTheorems.KeyOf(pk, a);
      SignatureTheorems.AcceptedByEncoding(h, m, pk, rs, base, a);
      JointParts(c, a, s, base);
      EquationBalances(c, a, s, base);
      JointBalances(c, a, s, base);
      FactsForDecoding(ScalarMult.Joint(c, a, s, base));
      SignatureTheorems.MinusTwice(ScalarMult.Joint(c, a, s, base));
      if DecodeNegative(rs[..32]).Some? {
        var r := DecodeNegative(rs[..32]).value;
        SignatureTheorems.KeyOf(rs[..32], r);
        if Balanced(CURVE, base, s, c, a, r) {
          BalancedOnce(c, a, s, base, r);
        }
      }
    }
  }

  lemma JointParts(c: nat, a: Point, s: nat, base: Point)
    ensures ScalarMult.Joint(c, a, s, base) == CURVE.add(Times(CURVE, c, a), Times(CURVE, s, base))
  {
    hide CURVE, Times;
  }

  /** What balances is the negation of the joint multiple. */
  lemma BalancedOnce(c: nat, a: Point, s: nat, base: Point, r: Point)
    requires CurveFacts() && OnCurve(a) && OnCurve(base) && OnCurve(r) && Balanced(CURVE, base, s, c, a, r)
    ensures Minus(r) == ScalarMult.Joint(c, a, s, base)
  {
    hide CurveFacts, OnCurve, CURVE, Times, Minus;
    CurveIsAbelian();
    ScalarMult.CurveOps(a, base);
    ScalarMult.CurveOps(base, r);
    ScalarMult.CurveOps(r, base);
    BalancedByNegation(CURVE, c, a, s, base, r);
  }

  lemma BalancedByNegation<T(!new)>(g: Group<T>, c: nat, a: T, s: nat, base: T, r: T)
    requires Abelian(g) && g.elem(a) && g.elem(base) && g.elem(r) && Balanced(g, base, s, c, a, r)
    ensures g.neg(r) == Combination(g, c, a, s, base)
  {
    hide Abelian, Times;
    CombinationElem(g, c, a, s, base);
    TimesElem(g, c, a);
    TimesElem(g, s, base);
    Sum(g, Times(g, s, base), Times(g, c, a));
    Zero(g);
    Cancel(g, Combination(g, c, a, s, base), r, g.zero);
    Inverse(g, r);
    Inverse(g, g.neg(r));
  }

  /** Changing one weight changes the sum, unless the weights are equal modulo the order or the
      element is neutral. */
  lemma OneWeight<T(!new)>(g: Group<T>, order: nat, r: seq<nat>, d: seq<T>, i: nat, x: nat)
    requires Abelian(g) && Prime(order) && |r| == |d| && i < |r| && BosCosterSpec.Elements(g, d)
    requires Times(g, order, d[i]) == g.zero
    ensures BosCosterSpec.SumOf(g, r, d) == BosCosterSpec.SumOf(g, r[i := x], d)
      <==> r[i] % order == x % order || d[i] == g.zero
  {
    hide Abelian, Prime, Times, BosCosterSpec.SumOf;
    var u, v := Times(g, r[i], d[i]), Times(g, x, d[i]);
    var sum, sum' := BosCosterSpec.SumOf(g, r, d), BosCosterSpec.SumOf(g, r[i := x], d);
    SignatureTheorems.PrimeIsPositive(order);
    assert d[i := d[i]] == d;
    BosCosterSpec.SumUpdate(g, r, d, i, x, d[i]);
    BosCosterSpec.SumElem(g, r, d);
    BosCosterSpec.SumElem(g, r[i := x], d);
    TimesElem(g, r[i], d[i]);
    TimesElem(g, x, d[i]);
    if u == v {
      BosCosterSpec.CancelRight(g, sum', sum, u);
    }
    if sum == sum' {
      Sum(g, sum, u);
      Sum(g, sum, v);
      BosCosterSpec.CancelRight(g, u, v, sum);
    }
    if d[i] == g.zero {
      TimesOfZero(g, r[i]);
      TimesOfZero(g, x);
    } else {
      SignatureTheorems.EqualMultiples(g, order, r[i], x, d[i]);
    }
  }

  /** The scalars of a batch: the random numbers weigh the responses, the challenges and the R's. */
  lemma ScalarEntries(h: Hash, b: Inputs, i: nat)
    requires b.Valid() && i < |b.m|
    ensures Scalars(h, b)[i + 1]
      == LeValue(b.random[i]) % L * (LeValue(h(b.rs[i][..32] + b.pk[i] + b.m[i])) % L) % L
    ensures Scalars(h, b)[|b.m| + 1 + i] == LeValue(b.random[i]) % L
  {
    hide LeValue, WeightedSum;
  }

  /** The points of a batch: the base point, and what keys and R's decode to. */
  lemma PointEntries(b: Inputs, base: Point, i: nat)
    requires b.Valid() && AllDecode(b.pk) && AllDecode(b.rs) && i < |b.m|
    ensures GroupPoints(b, base)[0] == base
    ensures DecodeNegative(b.pk[i]) == Some(GroupPoints(b, base)[i + 1])
    ensures DecodeNegative(b.rs[i][..32]) == Some(GroupPoints(b, base)[|b.m| + 1 + i])
  {
    hide DecodeNegative;
    assert b.pk[i][..32] == b.pk[i];
  }

  /** The first scalar sums up the weighted responses: with one more signature, one more product. */
  lemma FirstScalar(h: Hash, b: Inputs, k: nat)
    requires b.Valid() && k < |b.m|
    ensures Scalars(h, b.Slice(0, 0))[0] == 0
    ensures Scalars(h, b.Slice(0, k + 1))[0]
      == (Scalars(h, b.Slice(0, k))[0] + LeValue(b.random[k]) % L * (LeValue(b.rs[k][32..]) % L) % L) % L
  {
    hide LeValue, Scalars, WeightedSum;
    var none, before, c := b.Slice(0, 0), b.Slice(0, k), b.Slice(0, k + 1);
    FirstIsWeighted(h, none);
    FirstIsWeighted(h, before);
    FirstIsWeighted(h, c);
    NothingWeighted(Randoms(none), Responses(none));
    WeightedLast(Randoms(c), Responses(c));
    assert Randoms(c)[..k] == Randoms(before) && Responses(c)[..k] == Responses(before);
  }

  lemma FirstIsWeighted(h: Hash, b: Inputs)
    requires b.Valid()
    ensures Scalars(h, b)[0] == WeightedSum(Randoms(b), Responses(b))
  {
    hide WeightedSum, Randoms, Responses, Challenges, Products;
  }

  lemma NothingWeighted(r: seq<nat>, s: seq<nat>)
    requires |r| == |s| == 0
    ensures WeightedSum(r, s) == 0
  {
  }

  /** The batches differ in random number i and in nothing else. */
  ghost predicate DifferAt(b: Inputs, c: Inputs, i: nat) {
    && b.Valid() && c.Valid() && i < |b.m| && b.m == c.m && b.pk == c.pk && b.rs == c.rs
    && b.random[i] != c.random[i] && b.random[i := c.random[i]] == c.random
  }

  /** The sum of all multiples. */
  ghost function BatchSum(h: Hash, b: Inputs, base: Point): Point
    requires b.Valid() && AllDecode(b.pk) && AllDecode(b.rs)
  {
    BosCosterSpec.SumOf(CURVE, Scalars(h, b), GroupPoints(b, base))
  }

  ghost predicate InGroup(b: Inputs, base: Point) {
    && OnCurve(base) && OrderDividesL(base) && b.Valid()
    && AllDecode(b.pk) && AllDecode(b.rs) && KeysHaveExponent(b) && CommitmentsHaveExponent(b)
  }

  /** With base point, keys and R's of exponent L, for a prime L: two batches that differ in one
      random number have the same sum exactly if that signature is balanced. */
  lemma OneRandomNumber(h: Hash, b: Inputs, c: Inputs, base: Point, i: nat)
    requires CurveFacts() && Prime(L) && InGroup(b, base) && DifferAt(b, c, i)
    ensures BatchSum(h, b, base) == BatchSum(h, c, base)
      <==> BalancedSignature(h, b.m[i], b.pk[i], b.rs[i], base)
  {
    hide CurveFacts, CURVE, Prime, HaveExponent, BosCosterSpec.SumOf, BatchSum, BalancedSignature, OnCurve, AllDecode,
      BosCosterSpec.Elements, Randoms, DefectsOf, Times, OrderDividesL, KeysHaveExponent, CommitmentsHaveExponent;
    var d := DefectsOf(h, b, base);
    CurveIsAbelian();
    DefectsElements(h, b, base);
    SumOfDefects(h, b, base);
    SameGroup(b, c, base);
    SumOfDefects(h, c, base);
    OtherRandoms(b, c, i);
    SameDefects(h, b, c, base);
    DefectHasExponent(h, b, base, i);
    ScalarMult.CurveOps(base, base);
    OneWeight(CURVE, L, Randoms(b), d, i, Randoms(c)[i]);
    DefectEntry(h, b, base, i);
  }

  ghost function DefectsOf(h: Hash, b: Inputs, base: Point): (d: seq<Point>)
    requires b.Valid() && AllDecode(b.pk) && AllDecode(b.rs)
    ensures |d| == |b.m|
  {
    Defects(CURVE, base, Responses(b), Challenges(h, b), Decoded(b.pk), Decoded(b.rs))
  }

  lemma BatchExponents(b: Inputs, base: Point)
    requires CurveFacts() && InGroup(b, base)
    ensures HaveExponent(CURVE, base, Decoded(b.pk), Decoded(b.rs))
  {
    hide CurveFacts, OnCurve, CURVE, Times, AllDecode, Decoded;
    BaseElem(base);
    DecodedElements(b.pk);
    DecodedElements(b.rs);
    forall i | 0 <= i < |b.pk|
      ensures HasExponent(CURVE, Decoded(b.pk)[i])
    {
      ScalarMult.CurveOps(base, base);
    }
  }

  lemma SumOfDefects(h: Hash, b: Inputs, base: Point)
    requires CurveFacts() && InGroup(b, base)
    ensures BatchSum(h, b, base) == BosCosterSpec.SumOf(CURVE, Randoms(b), DefectsOf(h, b, base))
  {
    hide CurveFacts, OnCurve, CURVE, AllDecode, HaveExponent, BosCosterSpec.SumOf, Randoms, Responses, Challenges,
      Decoded,
      Defects, BatchScalars, BatchPoints, OrderDividesL, KeysHaveExponent, CommitmentsHaveExponent;
    CurveIsAbelian();
    BatchExponents(b, base);
    SumIsCombination(CURVE, base, Randoms(b), Responses(b), Challenges(h, b), Decoded(b.pk), Decoded(b.rs));
  }

  /** The random numbers of the other batch: another residue at i, because 128 bits are below L. */
  lemma OtherRandoms(b: Inputs, c: Inputs, i: nat)
    requires DifferAt(b, c, i)
    ensures |Randoms(b)| == |Randoms(c)| == |b.m| && Randoms(c) == Randoms(b)[i := Randoms(c)[i]]
    ensures Randoms(b)[i] % L != Randoms(c)[i] % L
  {
    hide LeValue, LeBytes;
    DifferentRandoms(b.random[i], c.random[i]);
  }

  lemma DifferentRandoms(s: seq<u8>, t: seq<u8>)
    requires |s| == |t| == 16 && s != t
    ensures LeValue(s) % L % L != LeValue(t) % L % L
  {
    hide LeValue, LeBytes;
    LeBytesOfLeValue(s);
    LeBytesOfLeValue(t);
    RandomIsBelow(s);
    RandomIsBelow(t);
  }

  lemma RandomIsBelow(s: seq<u8>)
    requires |s| == 16
    ensures LeValue(s) < L && LeValue(s) % L == LeValue(s)
  {
    hide LeValue;
    LeBytesOfLeValue(s);
    Pow256At16();
  }

  lemma SameGroup(b: Inputs, c: Inputs, base: Point)
    requires InGroup(b, base) && c.Valid() && b.pk == c.pk && b.rs == c.rs
    ensures InGroup(c, base)
  {
    hide AllDecode, OnCurve, OrderDividesL, Annihilates, Decoded, CURVE;
  }

  lemma SameDefects(h: Hash, b: Inputs, c: Inputs, base: Point)
    requires InGroup(b, base) && c.Valid() && b.m == c.m && b.pk == c.pk && b.rs == c.rs
    ensures DefectsOf(h, b, base) == DefectsOf(h, c, base)
  {
    hide CURVE, AllDecode, Decoded, Defects, OnCurve, OrderDividesL, KeysHaveExponent, CommitmentsHaveExponent,
      Challenge, LeValue;
  }

  lemma DefectsElements(h: Hash, b: Inputs, base: Point)
    requires CurveFacts() && InGroup(b, base)
    ensures BosCosterSpec.Elements(CURVE, DefectsOf(h, b, base))
  {
    hide CurveFacts, CURVE, AllDecode, Decoded, Defects, OnCurve, OrderDividesL, KeysHaveExponent, HaveExponent,
      CommitmentsHaveExponent, Responses, Challenges, BosCosterSpec.Elements;
    CurveIsAbelian();
    BatchExponents(b, base);
    DefectElements(CURVE, base, Responses(b), Challenges(h, b), Decoded(b.pk), Decoded(b.rs));
  }

  lemma DefectEntry(h: Hash, b: Inputs, base: Point, i: nat)
    requires CurveFacts() && InGroup(b, base) && i < |b.m|
    ensures DefectsOf(h, b, base)[i] == NEUTRAL <==> BalancedSignature(h, b.m[i], b.pk[i], b.rs[i], base)
  {
    hide CurveFacts, OnCurve, CURVE, Defect, DecodeNegative, LeValue, OrderDividesL, KeysHaveExponent,
      CommitmentsHaveExponent;
    assert b.pk[i][..32] == b.pk[i];
    DecodedElements(b.pk);
    DecodedElements(b.rs);
    ScalarMult.CurveOps(base, base);
  }

  lemma DefectHasExponent(h: Hash, b: Inputs, base: Point, i: nat)
    requires CurveFacts() && InGroup(b, base) && i < |b.m|
    ensures Times(CURVE, L, DefectsOf(h, b, base)[i]) == NEUTRAL
  {
    hide CurveFacts, OnCurve, CURVE, Times, AllDecode, Defect, Responses, Challenges;
    CurveIsAbelian();
    BatchExponents(b, base);
    ScalarMult.CurveOps(base, base);
    DefectExponent(CURVE, base, Responses(b)[i], Challenges(h, b)[i], Decoded(b.pk)[i], Decoded(b.rs)[i]);
  }

  lemma DefectExponent<T(!new)>(g: Group<T>, b: T, s: nat, h: nat, key: T, r: T)
    requires Abelian(g) && g.elem(b) && g.elem(key) && g.elem(r)
    requires HasExponent(g, b) && HasExponent(g, key) && HasExponent(g, r)
    ensures HasExponent(g, Defect(g, b, s, h, key, r))
  {
    hide Abelian, Times;
    TimesElem(g, s, b);
    TimesElem(g, h, key);
    Sum(g, Times(g, s, b), Times(g, h, key));
    MultipleAnnihilated(g, L, s, b);
    MultipleAnnihilated(g, L, h, key);
    TimesOfSum(g, L, Times(g, s, b), Times(g, h, key));
    TimesOfSum(g, L, g.add(Times(g, s, b), Times(g, h, key)), r);
    Zero(g);
    Inverse(g, g.zero);
  }

  /** The verdict on a batch: without a verdict exactly if some string does not decode, and never
      accepted then. */
  lemma UndecodableVerdict(h: Hash, b: Inputs, base: Point, verdict: Verdict)
    requires b.Valid() && |b.m| >= 2 && VerdictFor(h, b, base, verdict)
    ensures verdict == Undecodable
      <==> exists i :: 0 <= i < |b.m| && (DecodeNegative(b.pk[i]).None? || DecodeNegative(b.rs[i][..32]).None?)
  {
    hide DecodeNegative, ScanStays, Scalars, RunResult, GroupPoints;
    assert forall i :: 0 <= i < |b.m| ==> b.pk[i][..32] == b.pk[i];
  }

  /** Signature j of batch k is signature 64 k + j, with its own random number. */
  lemma BatchEntries(b: Inputs, k: nat, j: nat)
    requires b.Valid() && 64 * k + j < |b.m| && j < 64
    ensures var c := BatchAt(b, k);
      && |c.m| == |c.pk| == |c.rs| == |c.random| == (if |b.m| - 64 * k > 64 then 64 else |b.m| - 64 * k)
      && c.m[j] == b.m[64 * k + j] && c.pk[j] == b.pk[64 * k + j] && c.rs[j] == b.rs[64 * k + j]
      && c.random[j] == b.random[64 * k + j]
  {
  }

  /** So two batches that are accepted after an extension of the heap, and that differ in one random
      number, show that this signature is balanced: at most one random number lets an
      unbalanced signature through. */
  lemma AcceptedTwice(h: Hash, b: Inputs, c: Inputs, base: Point, i: nat)
    requires CurveFacts() && Prime(L) && InGroup(b, base) && DifferAt(b, c, i) && |b.m| >= 2
    requires VerdictFor(h, b, base, Accepted) && VerdictFor(h, c, base, Accepted)
    requires BosCosterSpec.WillExtend(First(Scalars(h, b))) && BosCosterSpec.WillExtend(First(Scalars(h, c)))
    ensures BalancedSignature(h, b.m[i], b.pk[i], b.rs[i], base)
  {
    hide CurveFacts, CURVE, Prime, BatchSum, BalancedSignature, OnCurve, AllDecode, VerdictFor, Scalars,
      OrderDividesL, KeysHaveExponent, CommitmentsHaveExponent, BosCosterSpec.WillExtend;
    AcceptedSum(h, b, base);
    SameGroup(b, c, base);
    AcceptedSum(h, c, base);
    OneRandomNumber(h, b, c, base, i);
  }

  /** An accepted batch whose heap is extended has a neutral sum. */
  lemma AcceptedSum(h: Hash, b: Inputs, base: Point)
    requires CurveFacts() && Prime(L) && InGroup(b, base) && |b.m| >= 2
    requires VerdictFor(h, b, base, Accepted) && BosCosterSpec.WillExtend(First(Scalars(h, b)))
    ensures BatchSum(h, b, base) == NEUTRAL
  {
    hide CurveFacts, CURVE, Prime, OnCurve, AllDecode, VerdictFor, Scalars, GroupPoints, BosCosterSpec.SumOf,
      OrderDividesL, KeysHaveExponent, CommitmentsHaveExponent, BosCosterSpec.WillExtend;
    VerdictIsExact(h, b, base, Accepted);
    var s, points := Scalars(h, b), GroupPoints(b, base);
    assert s[..|s|] == s && points[..|s|] == points;
  }
}
