/** Batch verification: the batch equation for up to 64 signatures at a time, with single
    verification where it fails. */
module BatchVerify {
  import opened Words
  import opened Bytes
  import opened AbelianGroup
  import opened Edwards
  import opened Points
  import opened PointCodec
  import opened ModmBatch
  import opened ModmCodec
  import opened BatchHeap
  import opened BatchSpec
  import opened BosCosterRun
  import BosCoster
  import FinalStage
  import opened Signature
  import opened Modm64
  import ScalarMult
  import BosCosterSpec
  import Field64
  import FieldCodec
  import Fp
  import Coordinates

  // ----- the inputs -----

  /** Messages, keys, signatures and 16 random bytes for each. */
  datatype Inputs = Inputs(m: seq<seq<u8>>, pk: seq<seq<u8>>, rs: seq<seq<u8>>, random: seq<seq<u8>>) {
    ghost predicate Valid() {
      && |m| == |pk| == |rs| == |random|
      && (forall i :: 0 <= i < |pk| ==> |pk[i]| == 32)
      && (forall i :: 0 <= i < |rs| ==> |rs[i]| == 64)
      && (forall i :: 0 <= i < |random| ==> |random[i]| == 16)
    }

    /** The signatures from index i up to j. */
    function Slice(i: nat, j: nat): (s: Inputs)
      requires i <= j <= |m| == |pk| == |rs| == |random|
      ensures |s.m| == |s.pk| == |s.rs| == |s.random| == j - i
    {
      Inputs(m[i..j], pk[i..j], rs[i..j], random[i..j])
    }
  }

  /** The stored base point and the tables of its multiples. */
  datatype Precomputed = Precomputed(basepoint: GeLimbs, table: seq<seq<u8>>, sliding: seq<Niels>) {
    ghost predicate StandsFor(base: Point) {
      BaseFacts(base, table, sliding) && ScalarMult.Stands(basepoint, base)
    }
  }

  function Randoms(b: Inputs): (r: seq<nat>)
    ensures |r| == |b.random|
  {
    seq(|b.random|, i requires 0 <= i < |b.random| => LeValue(b.random[i]) % L)
  }

  ghost function Responses(b: Inputs): (r: seq<nat>)
    requires b.Valid()
    ensures |r| == |b.rs|
  {
    seq(|b.rs|, i requires 0 <= i < |b.rs| => LeValue(b.rs[i][32..]) % L)
  }

  ghost function Challenges(h: Hash, b: Inputs): (r: seq<nat>)
    requires b.Valid()
    ensures |r| == |b.rs|
  {
    seq(|b.rs|, i requires 0 <= i < |b.rs| => Challenge(h, b.rs[i][..32], b.pk[i], b.m[i]))
  }

  ghost function Scalars(h: Hash, b: Inputs): (s: seq<nat>)
    requires b.Valid()
    ensures |s| == 2 * |b.m| + 1 && |s| % 2 == 1
  {
    BatchScalars(Randoms(b), Responses(b), Challenges(h, b))
  }

  ghost predicate AllDecode(s: seq<seq<u8>>) {
    forall i :: 0 <= i < |s| ==> |s[i]| >= 32 && DecodeNegative(s[i][..32]).Some?
  }

  ghost function Decoded(s: seq<seq<u8>>): (p: seq<Point>)
    requires AllDecode(s)
    ensures |p| == |s|
  {
    seq(|s|, i requires 0 <= i < |s| => DecodeNegative(s[i][..32]).value)
  }

  ghost function GroupPoints(b: Inputs, base: Point): (p: seq<Point>)
    requires b.Valid() && AllDecode(b.pk) && AllDecode(b.rs)
    ensures |p| == 2 * |b.m| + 1
  {
    BatchPoints(base, Decoded(b.pk), Decoded(b.rs))
  }

  // ----- scalars -----

  method ExpandScalar(bytes: seq<u8>) returns (x: Limbs)
    requires |bytes| <= 64
    ensures Modm64.Reduced(x) && Value(x) == LeValue(bytes) % L
  {
    var a := new u64[5];
    Expand256(a, bytes);
    x := Read(a);
  }

  /** x * y, in place of x as the callers have it. */
  method MulScalar(x: Limbs, y: Limbs) returns (z: Limbs)
    requires Modm64.Reduced(x) && Modm64.Reduced(y)
    ensures Modm64.Reduced(z) && Value(x) >= 0 && Value(y) >= 0 && Value(z) == MulModL(Value(x), Value(y))
  {
    hide Value;
    ReducedScalar(x);
    ReducedScalar(y);
    FinalStage.Nonnegative(x);
    FinalStage.Nonnegative(y);
    var a, b := new u64[5], new u64[5];
    a[0], a[1], a[2], a[3], a[4] := x.l0, x.l1, x.l2, x.l3, x.l4;
    b[0], b[1], b[2], b[3], b[4] := y.l0, y.l1, y.l2, y.l3, y.l4;
    assert Read(a) == x && Read(b) == y;
    Mul256(a, a, b);
    z := Read(a);
  }

  method AddScalar(x: Limbs, y: Limbs) returns (z: Limbs)
    requires Modm64.Reduced(x) && Modm64.Reduced(y)
    ensures Modm64.Reduced(z) && Value(x) >= 0 && Value(y) >= 0 && Value(z) == AddModL(Value(x), Value(y))
  {
    hide Value;
    ReducedScalar(x);
    ReducedScalar(y);
    FinalStage.Nonnegative(x);
    FinalStage.Nonnegative(y);
    var a, b := new u64[5], new u64[5];
    a[0], a[1], a[2], a[3], a[4] := x.l0, x.l1, x.l2, x.l3, x.l4;
    b[0], b[1], b[2], b[3], b[4] := y.l0, y.l1, y.l2, y.l3, y.l4;
    assert Read(a) == x && Read(b) == y;
    Add256(a, a, b);
    z := Read(a);
  }

  /** The scalars from index at on are reduced and have the values v. */
  ghost predicate HoldsFrom(s: seq<Limbs>, at: nat, v: seq<nat>) {
    at + |v| <= |s| && forall k :: at <= k < at + |v| ==> Modm64.Reduced(s[k]) && Value(s[k]) == v[k - at]
  }

  lemma HoldsElsewhere(s: seq<Limbs>, at: nat, v: seq<nat>, i: nat, x: Limbs)
    requires HoldsFrom(s, at, v) && i < |s| && (i < at || i >= at + |v|)
    ensures HoldsFrom(s[i := x], at, v)
  {
  }

  lemma HoldsNext(s: seq<Limbs>, at: nat, v: seq<nat>, n: nat, x: Limbs)
    requires n < |v| && HoldsFrom(s, at, v[..n]) && at + n < |s| && Modm64.Reduced(x) && Value(x) == v[n]
    ensures HoldsFrom(s[at + n := x], at, v[..n + 1])
  {
  }

  lemma ProperUpdate(s: seq<Limbs>, i: nat, x: Limbs)
    requires BosCoster.AllProper(s) && i < |s| && Modm64.Reduced(x)
    ensures BosCoster.AllProper(s[i := x])
  {
  }

  /** r_scalars[i] = r[i]. */
  method ExpandRandoms(scalars: array<Limbs>, b: Inputs)
    requires b.Valid() && 2 * |b.m| + 1 <= scalars.Length && BosCoster.AllProper(scalars[..])
    modifies scalars
    ensures BosCoster.AllProper(scalars[..]) && HoldsFrom(scalars[..], |b.m| + 1, Randoms(b))
  {
    hide Value, LeValue, Modm64.Reduced, BosCoster.AllProper, HoldsFrom;
    var i, n := 0, |b.m|;
    NothingHeld(scalars[..], n + 1, Randoms(b));
    while i < n
      invariant 0 <= i <= n && BosCoster.AllProper(scalars[..]) && HoldsFrom(scalars[..], n + 1, Randoms(b)[..i])
    {
      var x := ExpandScalar(b.random[i]);
      HoldsNext(scalars[..], n + 1, Randoms(b), i, x);
      ProperUpdate(scalars[..], n + 1 + i, x);
      ghost var s := scalars[..];
      scalars[n + 1 + i] := x;
      assert scalars[..] == s[n + 1 + i := x];
      i := i + 1;
    }
    assert Randoms(b)[..n] == Randoms(b);
  }

  lemma NothingHeld(s: seq<Limbs>, at: nat, v: seq<nat>)
    requires at <= |s|
    ensures HoldsFrom(s, at, v[..0])
  {
  }

  lemma HeldAt(s: seq<Limbs>, at: nat, v: seq<nat>, k: nat)
    requires HoldsFrom(s, at, v) && k < |v|
    ensures at + k < |s| && Modm64.Reduced(s[at + k]) && Value(s[at + k]) == v[k]
  {
  }

  /** scalars[i] = S[i] r[i]. */
  method MultiplyResponses(scalars: array<Limbs>, b: Inputs)
    requires b.Valid() && 2 * |b.m| + 1 <= scalars.Length && BosCoster.AllProper(scalars[..])
    requires HoldsFrom(scalars[..], |b.m| + 1, Randoms(b))
    modifies scalars
    ensures BosCoster.AllProper(scalars[..]) && HoldsFrom(scalars[..], |b.m| + 1, Randoms(b))
    ensures HoldsFrom(scalars[..], 0, Products(Randoms(b), Responses(b)))
  {
    hide Value, LeValue, Modm64.Reduced, BosCoster.AllProper, HoldsFrom, Products, MulModL;
    var i, n := 0, |b.m|;
    ghost var v := Products(Randoms(b), Responses(b));
    NothingHeld(scalars[..], 0, v);
    while i < n
      invariant 0 <= i <= n && BosCoster.AllProper(scalars[..]) && HoldsFrom(scalars[..], n + 1, Randoms(b))
      invariant HoldsFrom(scalars[..], 0, v[..i])
    {
      ghost var s := scalars[..];
      HeldAt(s, n + 1, Randoms(b), i);
      var x := ExpandScalar(b.rs[i][32..]);
      x := MulScalar(x, scalars[n + 1 + i]);
      ProductAt(Randoms(b), Responses(b), i);
      HoldsNext(s, 0, v, i, x);
      HoldsElsewhere(s, n + 1, Randoms(b), i, x);
      ProperUpdate(s, i, x);
      scalars[i] := x;
      assert scalars[..] == s[i := x];
      i := i + 1;
    }
    assert v[..n] == v;
  }

  lemma ProductAt(r: seq<nat>, h: seq<nat>, i: nat)
    requires |r| == |h| && i < |r|
    ensures Products(r, h)[i] == MulModL(r[i], h[i]) == MulModL(h[i], r[i])
  {
  }

  /** scalars[0] = S[0] r[0] + S[1] r[1] + ... */
  method AddResponses(scalars: array<Limbs>, b: Inputs)
    requires b.Valid() && |b.m| > 0 && 2 * |b.m| + 1 <= scalars.Length && BosCoster.AllProper(scalars[..])
    requires HoldsFrom(scalars[..], |b.m| + 1, Randoms(b))
      && HoldsFrom(scalars[..], 0, Products(Randoms(b), Responses(b)))
    modifies scalars
    ensures BosCoster.AllProper(scalars[..]) && HoldsFrom(scalars[..], |b.m| + 1, Randoms(b))
    ensures HoldsFrom(scalars[..], 0, [WeightedSum(Randoms(b), Responses(b))])
  {
    hide Value, LeValue, Modm64.Reduced, BosCoster.AllProper, HoldsFrom, Products, MulModL, AddModL, WeightedSum,
      Randoms, Responses;
    ghost var r, t := Randoms(b), Responses(b);
    ghost var v := Products(r, t);
    var i, n := 1, |b.m|;
    FirstTerm(scalars[..], r, t);
    while i < n
      invariant 1 <= i <= n && BosCoster.AllProper(scalars[..]) && HoldsFrom(scalars[..], n + 1, r)
      invariant HoldsFrom(scalars[..], 0, [WeightedSum(r[..i], t[..i])]) && HoldsFrom(scalars[..], i, v[i..])
    {
      ghost var s := scalars[..];
      HeldAt(s, 0, [WeightedSum(r[..i], t[..i])], 0);
      HeldAt(s, i, v[i..], 0);
      var x := AddScalar(scalars[0], scalars[i]);
      NextSum(r, t, i);
      HoldsElsewhere(s, n + 1, r, 0, x);
      HoldsElsewhere(s, i, v[i..], 0, x);
      ProperUpdate(s, 0, x);
      OneHeld(s, x, WeightedSum(r[..i + 1], t[..i + 1]));
      scalars[0] := x;
      assert scalars[..] == s[0 := x];
      HoldsTail(scalars[..], i, v[i..]);
      assert v[i..][1..] == v[i + 1..];
      i := i + 1;
    }
    assert r[..n] == r && t[..n] == t;
  }

  lemma OneHeld(s: seq<Limbs>, x: Limbs, v: nat)
    requires |s| > 0 && Modm64.Reduced(x) && Value(x) == v
    ensures HoldsFrom(s[0 := x], 0, [v])
  {
  }

  lemma HoldsTail(s: seq<Limbs>, at: nat, v: seq<nat>)
    requires HoldsFrom(s, at, v) && |v| > 0
    ensures HoldsFrom(s, at + 1, v[1..])
  {
  }

  lemma FirstTerm(s: seq<Limbs>, r: seq<nat>, t: seq<nat>)
    requires |r| == |t| > 0 && HoldsFrom(s, 0, Products(r, t))
    ensures HoldsFrom(s, 0, [WeightedSum(r[..1], t[..1])]) && HoldsFrom(s, 1, Products(r, t)[1..])
  {
    hide Value, Modm64.Reduced;
    HeldAt(s, 0, Products(r, t), 0);
    assert WeightedSum(r[..1], t[..1]) == Products(r, t)[0] by {
      ProductAt(r, t, 0);
      assert WeightedSum(r[..1][..0], t[..1][..0]) == 0;
      ModLTwice(r[0], t[0]);
    }
    HoldsTail(s, 0, Products(r, t));
  }

  lemma ModLTwice(x: nat, y: nat)
    ensures AddModL(0, MulModL(x, y)) == MulModL(x, y)
  {
  }

  lemma NextSum(r: seq<nat>, t: seq<nat>, i: nat)
    requires |r| == |t| && i < |r|
    ensures WeightedSum(r[..i + 1], t[..i + 1]) == AddModL(WeightedSum(r[..i], t[..i]), Products(r, t)[i])
  {
    WeightedLast(r[..i + 1], t[..i + 1]);
    assert r[..i + 1][..i] == r[..i] && t[..i + 1][..i] == t[..i];
    ProductAt(r, t, i);
  }

  /** scalars[i + 1] = H(R, A, m)[i] r[i]. */
  method MultiplyChallenges(h: Hash, scalars: array<Limbs>, b: Inputs)
    requires To64Bytes(h) && b.Valid() && 2 * |b.m| + 1 <= scalars.Length && BosCoster.AllProper(scalars[..])
    requires HoldsFrom(scalars[..], |b.m| + 1, Randoms(b))
      && HoldsFrom(scalars[..], 0, [WeightedSum(Randoms(b), Responses(b))])
    modifies scalars
    ensures BosCoster.AllProper(scalars[..]) && HoldsFrom(scalars[..], |b.m| + 1, Randoms(b))
    ensures HoldsFrom(scalars[..], 0, [WeightedSum(Randoms(b), Responses(b))])
    ensures HoldsFrom(scalars[..], 1, Products(Randoms(b), Challenges(h, b)))
  {
    hide Value, LeValue, Modm64.Reduced, BosCoster.AllProper, HoldsFrom, Products, MulModL, WeightedSum;
    var i, n := 0, |b.m|;
    ghost var v, w := Products(Randoms(b), Challenges(h, b)), WeightedSum(Randoms(b), Responses(b));
    NothingHeld(scalars[..], 1, v);
    while i < n
      invariant 0 <= i <= n && BosCoster.AllProper(scalars[..]) && HoldsFrom(scalars[..], n + 1, Randoms(b))
      invariant HoldsFrom(scalars[..], 0, [w]) && HoldsFrom(scalars[..], 1, v[..i])
    {
      ghost var s := scalars[..];
      HeldAt(s, n + 1, Randoms(b), i);
      var hram := h(b.rs[i][..32] + b.pk[i] + b.m[i]);
      var x := ExpandScalar(hram);
      x := MulScalar(x, scalars[n + 1 + i]);
      ProductAt(Randoms(b), Challenges(h, b), i);
      HoldsNext(s, 1, v, i, x);
      HoldsElsewhere(s, n + 1, Randoms(b), 1 + i, x);
      HoldsElsewhere(s, 0, [w], 1 + i, x);
      ProperUpdate(s, 1 + i, x);
      scalars[i + 1] := x;
      assert scalars[..] == s[1 + i := x];
      i := i + 1;
    }
    assert v[..n] == v;
  }

  /** All scalars of a batch. */
  method ComputeScalars(h: Hash, scalars: array<Limbs>, b: Inputs)
    requires To64Bytes(h) && b.Valid() && |b.m| > 0 && 2 * |b.m| + 1 <= scalars.Length
      && BosCoster.AllProper(scalars[..])
    modifies scalars
    ensures BosCoster.AllProper(scalars[..]) && BosCoster.Holds(scalars[..], Scalars(h, b))
  {
    hide Value, BosCoster.AllProper, HoldsFrom, Products, WeightedSum, Randoms, Responses, Challenges;
    ExpandRandoms(scalars, b);
    MultiplyResponses(scalars, b);
    AddResponses(scalars, b);
    MultiplyChallenges(h, scalars, b);
    HeldTogether(scalars[..], WeightedSum(Randoms(b), Responses(b)), Products(Randoms(b), Challenges(h, b)),
      Randoms(b));
  }

  lemma HeldTogether(s: seq<Limbs>, w: nat, p: seq<nat>, r: seq<nat>)
    requires BosCoster.AllProper(s) && |p| == |r| && HoldsFrom(s, 0, [w]) && HoldsFrom(s, 1, p)
      && HoldsFrom(s, |p| + 1, r)
    ensures BosCoster.Holds(s, [w] + p + r)
  {
    hide Value, Modm64.Reduced;
    HeldAt(s, 0, [w], 0);
    var t, n := [w] + p + r, |p|;
    forall i | 0 <= i < 2 * n + 1
      ensures Value(s[i]) == t[i]
    {
      if 1 <= i <= n {
        HeldAt(s, 1, p, i - 1);
      } else if i > n {
        HeldAt(s, n + 1, r, i - n - 1);
      }
    }
  }

  // ----- points -----

  /** Decompresses one string after the other to the negated points; stops at the first that
      does not decode. */
  method UnpackAll(points: array<GeLimbs>, at: nat, s: seq<seq<u8>>) returns (ok: bool)
    requires CurveFacts() && at + |s| <= points.Length && forall i :: 0 <= i < |s| ==> |s[i]| >= 32
    modifies points
    ensures ok == AllDecode(s)
    ensures ok ==> Standing(points[..], at, Decoded(s))
    ensures points[..at] == old(points[..at])
  {
    hide DecodeNegative, AllDecode, Decoded, Standing, CurveFacts, ScalarMult.Stands;
    var i := 0;
    NothingDecoded(s);
    NothingStands(points[..], at);
    while i < |s|
      invariant 0 <= i <= |s| && points[..at] == old(points[..at])
      invariant AllDecode(s[..i]) && Standing(points[..], at, Decoded(s[..i]))
    {
      var decoded, p := Unpack(s[i][..32]);
      DecodeNext(s, i);
      if !decoded {
        return false;
      }
      ghost var c := points[..];
      NextStands(c, at, Decoded(s[..i]), p, DecodeNegative(s[i][..32]).value);
      points[at + i] := p;
      assert points[..] == c[at + i := p];
      assert points[..at] == c[..at];
      i := i + 1;
    }
    assert s[..|s|] == s;
    ok := true;
  }

  /** One string. */
  method Unpack(s: seq<u8>) returns (ok: bool, v: GeLimbs)
    requires CurveFacts() && |s| == 32
    ensures ok == DecodeNegative(s).Some?
    ensures ok ==> ScalarMult.Stands(v, DecodeNegative(s).value)
  {
    hide DecodeNegative, CurveFacts, ScalarMult.Full, ScalarMult.Stands, Field64.Elem;
    var p := new Ge();
    ok := UnpackNegative(p, s);
    if ok {
      UnpackedIsFull(p, s, DecodeNegative(s).value);
      ScalarMult.StandsIsFull(p, DecodeNegative(s).value);
    }
    v := p.Limbs();
  }

  /** The coordinates from index at on stand for the points p. */
  ghost predicate Standing(c: seq<GeLimbs>, at: nat, p: seq<Point>) {
    at + |p| <= |c| && forall k :: at <= k < at + |p| ==> ScalarMult.Stands(c[k], p[k - at])
  }

  lemma NothingStands(c: seq<GeLimbs>, at: nat)
    requires at <= |c|
    ensures Standing(c, at, [])
  {
  }

  lemma NextStands(c: seq<GeLimbs>, at: nat, p: seq<Point>, v: GeLimbs, q: Point)
    requires Standing(c, at, p) && at + |p| < |c|
    ensures ScalarMult.Stands(v, q) ==> Standing(c[at + |p| := v], at, p + [q])
  {
    hide ScalarMult.Stands;
  }

  /** The base point, the keys and the R's, one after the other. */
  lemma StandTogether(c: seq<GeLimbs>, base: Point, keys: seq<Point>, rs: seq<Point>)
    requires Standing(c, 0, [base]) && Standing(c, 1, keys) && |keys| == |rs| && Standing(c, |rs| + 1, rs)
    ensures BosCoster.AllStand(c, BatchPoints(base, keys, rs))
  {
    hide ScalarMult.Stands;
    forall i | 0 <= i < 2 * |rs| + 1
      ensures ScalarMult.Stands(c[i], BatchPoints(base, keys, rs)[i])
    {
    }
  }

  /** Later entries do not matter. */
  lemma StandBefore(c: seq<GeLimbs>, d: seq<GeLimbs>, at: nat, p: seq<Point>, n: nat)
    requires Standing(c, at, p) && at + |p| <= n <= |c| && n <= |d| && d[..n] == c[..n]
    ensures Standing(d, at, p)
  {
    hide ScalarMult.Stands;
    assert forall k :: at <= k < at + |p| ==> d[k] == d[..n][k] == c[..n][k] == c[k];
  }

  lemma NothingDecoded(s: seq<seq<u8>>)
    ensures AllDecode(s[..0]) && Decoded(s[..0]) == []
  {
  }

  lemma DecodeNext(s: seq<seq<u8>>, i: nat)
    requires i < |s| && |s[i]| >= 32 && AllDecode(s[..i])
    ensures DecodeNegative(s[i][..32]).None? ==> !AllDecode(s)
    ensures DecodeNegative(s[i][..32]).Some? ==>
      AllDecode(s[..i + 1]) && Decoded(s[..i + 1]) == Decoded(s[..i]) + [DecodeNegative(s[i][..32]).value]
  {
    hide DecodeNegative;
    if DecodeNegative(s[i][..32]).Some? {
      assert AllDecode(s[..i + 1]);
    }
  }

  /** Is a the neutral point?  Compares the encoded coordinates x with 0 and y with z. */
  method IsNeutral(p: Ge, ghost a: Point) returns (neutral: bool)
    requires CurveFacts() && ScalarMult.Partial(p, a)
    ensures neutral == (a == NEUTRAL)
  {
    hide OnCurve, Field64.Elem, LeBytes, Fp.Mul, Fermat, NonSquareD, PlusAssociates;
    var x := FieldCodec.Contract(p.x);
    var y := FieldCodec.Contract(p.y);
    var z := FieldCodec.Contract(p.z);
    LeBytesOfZero(32);
    Pow256At32();
    LeValueOfLeBytes(0, 32);
    LeValueOfLeBytes(Field64.Elem(p.x), 32);
    FieldCodec.ContractIsCanonical(p.y, p.z);
    NeutralCoordinates(Coord(p), a);
    neutral := x == seq(32, _ => 0) && y == z;
  }

  lemma NeutralCoordinates(e: Coordinates.Ext, a: Point)
    requires Fermat() && Coordinates.PartlyFor(e, a)
    ensures a == NEUTRAL <==> e.x == 0 && e.y == e.z
  {
    hide Fp.Mul, Fp.Residue, Fermat;
    ZeroProduct(e.z);
    Fp.MulOne(e.z);
    Fp.MulCommutes(a.x, e.z);
    Fp.MulCommutes(a.y, e.z);
    if e.x == 0 {
      NoZeroDivisors(e.z, a.x);
    }
    if e.y == e.z {
      CancelFactor(e.z, a.y, 1);
    }
  }

  // ----- one batch -----

  datatype Verdict = Accepted | Failed | Undecodable | OutOfRange

  /** What the verdict on a batch says. */
  ghost predicate VerdictFor(h: Hash, b: Inputs, base: Point, verdict: Verdict)
    requires b.Valid() && |b.m| >= 2
  {
    if !(AllDecode(b.pk) && AllDecode(b.rs)) then
      verdict == Undecodable
    else if !ScanStays(Scalars(h, b)) then
      verdict == OutOfRange
    else
      && (verdict == Accepted || verdict == Failed)
      && exists r: Point ::
        RunResult(CURVE, Scalars(h, b), GroupPoints(b, base), r) && (verdict == Accepted <==> r == NEUTRAL)
  }

  ghost predicate HeapReady(heap: Heap<GeLimbs>)
    reads heap.scalars
  {
    heap.scalars.Length == heap.points.Length == heap.heap.Length == 129 && BosCoster.AllProper(heap.scalars[..])
  }

  /** The random scalars are the only ones brought in late, and they have 128 bits. */
  lemma SuitableScalars(h: Hash, b: Inputs)
    requires b.Valid() && |b.m| >= 2
    ensures Suitable(Scalars(h, b))
  {
    hide WeightedSum, Products, LeValue, BosCosterSpec.WillExtend, BosCosterSpec.ExtendLimb;
    var s, n := Scalars(h, b), |b.m|;
    forall i | Half(|s|) <= i < |s|
      ensures s[i] < Weight(3)
    {
      assert s[i] == Randoms(b)[i - n - 1];
      RandomBound(b.random[i - n - 1]);
    }
    LateScalarsOf168Bits(s);
  }

  lemma RandomBound(s: seq<u8>)
    requires |s| == 16
    ensures LeValue(s) % L < 0x1_0000_0000_0000_0000_0000_0000_0000_0000
  {
    hide LeValue;
    LeBytesOfLeValue(s);
    Pow256At16();
  }

  method OneBatch(h: Hash, heap: Heap<GeLimbs>, b: Inputs, basepoint: GeLimbs, ghost base: Point)
      returns (verdict: Verdict)
    requires To64Bytes(h) && CurveFacts() && ScalarMult.Stands(basepoint, base) && b.Valid() && 4 <= |b.m| <= 64
    requires HeapReady(heap)
    modifies heap, heap.scalars, heap.points, heap.heap
    ensures HeapReady(heap) && VerdictFor(h, b, base, verdict)
  {
    hide CurveFacts, OnCurve, CURVE, BosCoster.AllProper, BosCoster.Holds, BosCoster.AllStand, RunResult, Scalars,
      Suitable, ScanStays, AllDecode, DecodeNegative, ScalarMult.Stands, ScalarMult.Full, ScalarMult.Partial,
      VerdictFor, GroupPoints;
    ComputeScalars(h, heap.scalars, b);
    var ok := LoadPoints(heap.points, b, basepoint, base);
    if !ok {
      NoVerdict(h, b, base);
      return Undecodable;
    }
    FinalStage.StandsOnCurve(basepoint, base);
    PointsOfBatch(b, base);
    SuitableScalars(h, b);
    var p := new Ge();
    var inRange;
    ghost var a;
    inRange, a := BosCoster.MultiScalarMult(p, heap, 2 * |b.m| + 1, Scalars(h, b), GroupPoints(b, base));
    if !inRange {
      ScanOutOfRange(h, b, base);
      return OutOfRange;
    }
    ScalarMult.FullIsPartial(p, a);
    var neutral := IsNeutral(p, a);
    verdict := if neutral then Accepted else Failed;
    VerdictOfRun(h, b, base, a, verdict);
  }

  lemma NoVerdict(h: Hash, b: Inputs, base: Point)
    requires b.Valid() && |b.m| >= 2 && !(AllDecode(b.pk) && AllDecode(b.rs))
    ensures VerdictFor(h, b, base, Undecodable)
  {
    hide AllDecode;
  }

  lemma ScanOutOfRange(h: Hash, b: Inputs, base: Point)
    requires b.Valid() && |b.m| >= 2 && AllDecode(b.pk) && AllDecode(b.rs) && !ScanStays(Scalars(h, b))
    ensures VerdictFor(h, b, base, OutOfRange)
  {
    hide AllDecode, Scalars, ScanStays;
  }

  lemma VerdictOfRun(h: Hash, b: Inputs, base: Point, r: Point, verdict: Verdict)
    requires b.Valid() && |b.m| >= 2 && AllDecode(b.pk) && AllDecode(b.rs) && ScanStays(Scalars(h, b))
    requires RunResult(CURVE, Scalars(h, b), GroupPoints(b, base), r)
    requires verdict == if r == NEUTRAL then Accepted else Failed
    ensures VerdictFor(h, b, base, verdict)
  {
    hide RunResult, Scalars, GroupPoints, AllDecode, CURVE;
  }

  /** The points of a batch, unless some string does not decode. */
  method LoadPoints(points: array<GeLimbs>, b: Inputs, basepoint: GeLimbs, ghost base: Point) returns (ok: bool)
    requires CurveFacts() && ScalarMult.Stands(basepoint, base) && b.Valid() && 2 * |b.m| + 1 <= points.Length
    modifies points
    ensures ok == (AllDecode(b.pk) && AllDecode(b.rs))
    ensures ok ==> BosCoster.AllStand(points[..], GroupPoints(b, base))
  {
    hide CurveFacts, BosCoster.AllStand, AllDecode, Decoded, Standing;
    var n := |b.m|;
    points[0] := basepoint;
    NothingStands(points[..], 0);
    BaseStands(points[..], base);
    ghost var c := points[..];
    ok := UnpackAll(points, 1, b.pk);
    if !ok {
      return;
    }
    StandBefore(c, points[..], 0, [base], 1);
    c := points[..];
    ok := UnpackAll(points, n + 1, b.rs);
    if !ok {
      return;
    }
    StandBefore(c, points[..], 0, [base], n + 1);
    StandBefore(c, points[..], 1, Decoded(b.pk), n + 1);
    StandTogether(points[..], base, Decoded(b.pk), Decoded(b.rs));
  }

  lemma BaseStands(c: seq<GeLimbs>, base: Point)
    requires |c| > 0 && ScalarMult.Stands(c[0], base)
    ensures Standing(c, 0, [base])
  {
  }

  lemma PointsOfBatch(b: Inputs, base: Point)
    requires b.Valid() && AllDecode(b.pk) && AllDecode(b.rs) && CurveFacts() && OnCurve(base)
    ensures BosCosterSpec.Elements(CURVE, GroupPoints(b, base))
  {
    hide CurveFacts, OnCurve, AllDecode, Decoded, CURVE, BosCosterSpec.Elements;
    ScalarMult.CurveOps(base, base);
    DecodedElements(b.pk);
    DecodedElements(b.rs);
    PartsElements(CURVE, base, Decoded(b.pk), Decoded(b.rs));
  }

  lemma DecodedElements(s: seq<seq<u8>>)
    requires CurveFacts() && AllDecode(s)
    ensures BosCosterSpec.Elements(CURVE, Decoded(s))
  {
    hide CurveFacts, OnCurve, DecodeNegative, CURVE;
    forall i | 0 <= i < |s|
      ensures CURVE.elem(Decoded(s)[i])
    {
      DecodeIsSound(s[i][..32], Decoded(s)[i]);
      ScalarMult.CurveOps(Decoded(s)[i], NEUTRAL);
    }
  }

  lemma PartsElements<T>(g: Group<T>, b: T, keys: seq<T>, rs: seq<T>)
    requires |keys| == |rs| && g.elem(b) && BosCosterSpec.Elements(g, keys) && BosCosterSpec.Elements(g, rs)
    ensures BosCosterSpec.Elements(g, BatchPoints(b, keys, rs))
  {
  }

  // ----- the driver -----

  /** Bit 0: some signature is invalid; bit 1: some batch equation failed. */
  function Result(invalid: bool, failed: bool): nat {
    (if invalid then 1 else 0) + (if failed then 2 else 0)
  }

  lemma ResultBits(invalid: bool, failed: bool)
    ensures Or(Result(invalid, failed), 2, 8) == Result(invalid, true)
    ensures Or(Result(invalid, failed), Xor(0, 1, 8), 8) == Result(true, failed)
    ensures Or(Result(invalid, failed), Xor(1, 1, 8), 8) == Result(invalid, failed)
  {
    hide Or, Xor;
    XorOne();
    OrLow(Result(invalid, failed), 2);
    OrLow(Result(invalid, failed), 1);
    OrLow(Result(invalid, failed), 0);
  }

  lemma XorOne()
    ensures Xor(0, 1, 8) == 1 && Xor(1, 1, 8) == 0
  {
    hide Xor;
    XorFront(0, 1, 7);
    XorFront(1, 1, 7);
    XorZero(0, 0, 7);
  }

  lemma OrLow(a: nat, b: nat)
    requires a < 4 && b < 4
    ensures Or(a, b, 8) == (if a % 2 + b % 2 > 0 then 1 else 0) + (if a / 2 + b / 2 > 0 then 2 else 0)
  {
    OrStep(a, b);
    OrZero(0, 0, 6);
    hide Or;
    assert a / 2 / 2 == 0 && b / 2 / 2 == 0;
  }

  lemma OrStep(a: nat, b: nat)
    ensures Or(a, b, 8) == (if a % 2 + b % 2 > 0 then 1 else 0)
      + 2 * ((if a / 2 % 2 + b / 2 % 2 > 0 then 1 else 0) + 2 * Or(a / 2 / 2, b / 2 / 2, 6))
  {
    assert Or(a / 2, b / 2, 7) == (if a / 2 % 2 + b / 2 % 2 > 0 then 1 else 0) + 2 * Or(a / 2 / 2, b / 2 / 2, 6);
  }

  ghost predicate OneValid(h: Hash, b: Inputs, i: nat, base: Point)
    requires b.Valid() && i < |b.m|
  {
    Accepts(h, b.m[i], b.pk[i], b.rs[i], base)
  }

  /** How many batches num signatures make. */
  function BatchCount(num: nat): nat {
    if num <= 3 then 0 else 1 + BatchCount(if num > 64 then num - 64 else 0)
  }

  /** Batch k: 64 signatures, or those that are left. */
  function BatchAt(b: Inputs, k: nat): (s: Inputs)
    requires 64 * k <= |b.m| == |b.pk| == |b.rs| == |b.random|
    ensures |s.m| == if |b.m| - 64 * k > 64 then 64 else |b.m| - 64 * k
  {
    b.Slice(64 * k, if |b.m| - 64 * k > 64 then 64 * k + 64 else |b.m|)
  }

  lemma SliceValid(b: Inputs, k: nat)
    requires b.Valid() && 64 * k <= |b.m|
    ensures BatchAt(b, k).Valid()
  {
  }

  /** The entry that belongs to signature i: 1 in an accepted batch, and otherwise the verdict
      of single verification. */
  ghost predicate RightEntry(h: Hash, b: Inputs, base: Point, verdicts: seq<Verdict>, i: nat, entry: int)
    requires b.Valid() && i < |b.m|
  {
    entry == if (i / 64 < |verdicts| && verdicts[i / 64] == Accepted) || OneValid(h, b, i, base) then 1 else 0
  }

  ghost predicate RightVerdict(h: Hash, b: Inputs, base: Point, k: nat, verdict: Verdict)
    requires b.Valid() && 64 * k + 3 < |b.m|
  {
    SliceValid(b, k);
    VerdictFor(h, BatchAt(b, k), base, verdict)
  }

  /** Some entry from index at up to end is 0. */
  ghost predicate SomeInvalid(valid: seq<int>, at: nat, end: nat) {
    exists i :: at <= i < end <= |valid| && valid[i] == 0
  }

  ghost predicate SomeFailed(verdicts: seq<Verdict>) {
    Failed in verdicts
  }

  /** Entries up to end are right. */
  ghost predicate RightEntries(h: Hash, b: Inputs, base: Point, verdicts: seq<Verdict>, valid: seq<int>, end: nat)
    requires b.Valid() && end <= |b.m| <= |valid|
  {
    forall i :: 0 <= i < end ==> RightEntry(h, b, base, verdicts, i, valid[i])
  }

  /** Verifies the signatures from index at up to end one by one. */
  method VerifySingly(h: Hash, b: Inputs, at: nat, end: nat, valid: array<int>, ret: nat, t: Precomputed,
      ghost base: Point,
      ghost invalid: bool, ghost failed: bool) returns (out: nat)
    requires To64Bytes(h) && t.StandsFor(base) && b.Valid() && at <= end <= |b.m| <= valid.Length
    requires ret == Result(invalid, failed)
    modifies valid
    ensures forall i :: at <= i < end ==> valid[i] == if OneValid(h, b, i, base) then 1 else 0
    ensures forall i :: 0 <= i < valid.Length && !(at <= i < end) ==> valid[i] == old(valid[i])
    ensures out == Result(invalid || SomeInvalid(valid[..], at, end), failed)
  {
    hide Precomputed.StandsFor, OneValid, Or, Xor;
    out := ret;
    var i := at;
    while i < end
      invariant at <= i <= end
      invariant forall k :: at <= k < i ==> valid[k] == if OneValid(h, b, k, base) then 1 else 0
      invariant forall k :: 0 <= k < valid.Length && !(at <= k < i) ==> valid[k] == old(valid[k])
      invariant out == Result(invalid || SomeInvalid(valid[..], at, i), failed)
    {
      ghost var before := invalid || SomeInvalid(valid[..], at, i);
      var outcome := VerifyOne(h, b, i, t, base);
      valid[i] := if outcome != 0 then 0 else 1;
      ResultBits(before, failed);
      out := Or(out, Xor(valid[i], 1, 8), 8);
      i := i + 1;
    }
  }

  method VerifyOne(h: Hash, b: Inputs, i: nat, t: Precomputed, ghost base: Point) returns (outcome: int)
    requires To64Bytes(h) && t.StandsFor(base) && b.Valid() && i < |b.m|
    ensures outcome == if OneValid(h, b, i, base) then 0 else -1
  {
    hide BaseFacts, Accepts, ScalarMult.Stands;
    outcome := SignOpen(h, b.m[i], b.pk[i], b.rs[i], t.table, t.sliding, base);
  }

  lemma FactsOf(t: Precomputed, base: Point)
    requires t.StandsFor(base)
    ensures CurveFacts() && ScalarMult.Stands(t.basepoint, base)
  {
    hide CurveFacts, ScalarMult.Stands;
  }

  /** One batch, with single verification where its points do not decode or its equation fails.
      Nothing is said of the entries if the run leaves its range. */
  method BatchOrFallback(h: Hash, heap: Heap<GeLimbs>, b: Inputs, at: nat, end: nat, valid: array<int>, ret: nat,
      t: Precomputed, ghost base: Point, ghost invalid: bool, ghost failed: bool) returns (out: nat, verdict: Verdict)
    requires To64Bytes(h) && t.StandsFor(base) && b.Valid() && 4 <= end - at <= 64 && end <= |b.m| <= valid.Length
    requires b.Slice(at, end).Valid()
    requires HeapReady(heap) && (heap.points as object) != valid && (heap.heap as object) != valid
      && (heap.scalars as object) != valid
    requires ret == Result(invalid, failed) && forall i :: at <= i < end ==> valid[i] == 1
    modifies heap, heap.scalars, heap.points, heap.heap, valid
    ensures HeapReady(heap) && VerdictFor(h, b.Slice(at, end), base, verdict)
    ensures verdict != OutOfRange ==>
      forall i :: at <= i < end ==> valid[i] == if verdict == Accepted || OneValid(h, b, i, base) then 1 else 0
    ensures forall i :: 0 <= i < valid.Length && !(at <= i < end) ==> valid[i] == old(valid[i])
    ensures verdict != OutOfRange ==>
      out == Result(invalid || SomeInvalid(valid[..], at, end), failed || verdict == Failed)
  {
    hide OneValid, Or, Xor, HeapReady, VerdictFor, CurveFacts, ScalarMult.Stands, Precomputed.StandsFor,
      Inputs.Slice;
    FactsOf(t, base);
    verdict := OneBatch(h, heap, b.Slice(at, end), t.basepoint, base);
    out := ret;
    if verdict == Failed {
      ResultBits(invalid, failed);
      out := Or(out, 2, 8);
    }
    if verdict == Failed || verdict == Undecodable {
      out := VerifySingly(h, b, at, end, valid, out, t, base, invalid, failed || verdict == Failed);
    }
  }

  /** The entries of one more batch. */
  lemma OneMoreBatch(h: Hash, b: Inputs, base: Point, verdicts: seq<Verdict>, verdict: Verdict, was: seq<int>,
      valid: seq<int>, at: nat, end: nat)
    requires b.Valid() && at == 64 * |verdicts| <= end <= |b.m| <= |valid| == |was| && end - at <= 64
    requires RightEntries(h, b, base, verdicts, was, at) && valid[..at] == was[..at]
    requires forall i :: at <= i < end ==> valid[i] == if verdict == Accepted || OneValid(h, b, i, base) then 1 else 0
    ensures RightEntries(h, b, base, verdicts + [verdict], valid, end)
  {
    hide OneValid;
    forall i | 0 <= i < end
      ensures RightEntry(h, b, base, verdicts + [verdict], i, valid[i])
    {
      if i < at {
        assert valid[..at][i] == was[..at][i] && RightEntry(h, b, base, verdicts, i, was[i]);
        assert i / 64 < |verdicts|;
      } else {
        assert i / 64 == |verdicts|;
      }
    }
  }

  lemma SomeInvalidSplit(was: seq<int>, valid: seq<int>, at: nat, end: nat)
    requires at <= end <= |valid| == |was| && valid[..at] == was[..at]
    ensures SomeInvalid(was, 0, at) || SomeInvalid(valid, at, end) <==> SomeInvalid(valid, 0, end)
  {
    assert forall i :: 0 <= i < at ==> valid[i] == valid[..at][i] == was[..at][i] == was[i];
  }

  /** Every verdict so far says what VerdictFor demands of it. */
  ghost predicate RightVerdicts(h: Hash, b: Inputs, base: Point, verdicts: seq<Verdict>)
    requires b.Valid()
  {
    forall k :: 0 <= k < |verdicts| ==> 64 * k + 3 < |b.m| && RightVerdict(h, b, base, k, verdicts[k])
  }

  /** Batch k does not decode, or its run stays in its range. */
  ghost predicate BatchInRange(h: Hash, b: Inputs, k: nat)
    requires b.Valid() && 64 * k + 3 < |b.m|
  {
    SliceValid(b, k);
    var c := BatchAt(b, k);
    AllDecode(c.pk) && AllDecode(c.rs) ==> ScanStays(Scalars(h, c))
  }

  ghost predicate AllInRange(h: Hash, b: Inputs)
    requires b.Valid()
  {
    forall k: nat :: 64 * k + 3 < |b.m| ==> BatchInRange(h, b, k)
  }

  lemma RangeOfVerdict(h: Hash, b: Inputs, base: Point, k: nat, verdict: Verdict)
    requires b.Valid() && 64 * k + 3 < |b.m| && RightVerdict(h, b, base, k, verdict)
    ensures verdict == OutOfRange <==> !BatchInRange(h, b, k)
  {
    hide AllDecode, ScanStays, Scalars, RunResult, BatchAt;
    SliceValid(b, k);
  }

  /** With a verdict on every batch: all are in range exactly if no verdict says otherwise. */
  lemma RangeOfVerdicts(h: Hash, b: Inputs, base: Point, verdicts: seq<Verdict>)
    requires b.Valid() && RightVerdicts(h, b, base, verdicts)
    ensures OutOfRange in verdicts ==> !AllInRange(h, b)
    ensures |verdicts| == BatchCount(|b.m|) && OutOfRange !in verdicts ==> AllInRange(h, b)
  {
    hide BatchInRange, RightVerdict;
    BatchesCovered(|b.m|);
    forall k | 0 <= k < |verdicts|
      ensures verdicts[k] == OutOfRange <==> !BatchInRange(h, b, k)
    {
      RangeOfVerdict(h, b, base, k, verdicts[k]);
    }
  }

  /** The batches are exactly those that start with more than three signatures left. */
  lemma {:induction false} BatchesCovered(num: nat)
    ensures forall k: nat :: k < BatchCount(num) <==> 64 * k + 3 < num
  {
    if num > 3 {
      var rest := if num > 64 then num - 64 else 0;
      BatchesCovered(rest);
      forall k: nat
        ensures k < BatchCount(num) <==> 64 * k + 3 < num
      {
        if k > 0 {
          assert k - 1 < BatchCount(rest) <==> 64 * (k - 1) + 3 < rest;
        }
      }
    }
  }

  lemma NextBatch(b: Inputs, k: nat)
    requires b.Valid() && 64 * k + 3 < |b.m|
    ensures BatchAt(b, k).Valid() && b.Slice(64 * k, 64 * k + |BatchAt(b, k).m|) == BatchAt(b, k)
  {
  }

  lemma OneMoreVerdict(h: Hash, b: Inputs, base: Point, verdicts: seq<Verdict>, verdict: Verdict)
    requires b.Valid() && 64 * |verdicts| + 3 < |b.m| && RightVerdicts(h, b, base, verdicts)
    requires BatchAt(b, |verdicts|).Valid() && VerdictFor(h, BatchAt(b, |verdicts|), base, verdict)
    ensures RightVerdicts(h, b, base, verdicts + [verdict])
  {
    hide VerdictFor, BatchAt;
  }

  /** Takes batches of up to 64 signatures while more than 3 are left. */
  method Batches(h: Hash, heap: Heap<GeLimbs>, b: Inputs, valid: array<int>, t: Precomputed, ghost base: Point)
    returns (inRange: bool, at: nat, ret: nat, ghost verdicts: seq<Verdict>)
    requires To64Bytes(h) && t.StandsFor(base) && b.Valid() && |b.m| <= valid.Length
    requires HeapReady(heap) && (heap.points as object) != valid && (heap.heap as object) != valid
      && (heap.scalars as object) != valid
    requires forall k :: 0 <= k < |b.m| ==> valid[k] == 1
    modifies heap, heap.scalars, heap.points, heap.heap, valid
    ensures inRange <==> OutOfRange !in verdicts
    ensures RightVerdicts(h, b, base, verdicts) && at <= |b.m|
    ensures inRange ==> |b.m| - 3 <= at && (at == 64 * |verdicts| || at == |b.m|) && |verdicts| == BatchCount(|b.m|)
    ensures inRange ==> RightEntries(h, b, base, verdicts, valid[..], at)
    ensures forall k :: |b.m| <= k < valid.Length ==> valid[k] == old(valid[k])
    ensures inRange ==> ret == Result(SomeInvalid(valid[..], 0, at), SomeFailed(verdicts))
  {
    hide Precomputed.StandsFor, OneValid, HeapReady, VerdictFor, SomeInvalid, RightVerdicts, RightEntries, Result,
      Inputs.Slice;
    var num := |b.m|;
    var left := num;
    inRange, ret, verdicts, at := true, 0, [], 0;
    NothingYet(h, b, base, valid[..]);
    while left > 3
      invariant at + left == num && at == (if 64 * |verdicts| <= num then 64 * |verdicts| else num)
      invariant |verdicts| + BatchCount(left) == BatchCount(num)
      invariant HeapReady(heap) && OutOfRange !in verdicts
      invariant RightVerdicts(h, b, base, verdicts) && RightEntries(h, b, base, verdicts, valid[..], at)
      invariant forall k :: at <= k < num ==> valid[k] == 1
      invariant forall k :: num <= k < valid.Length ==> valid[k] == old(valid[k])
      invariant ret == Result(SomeInvalid(valid[..], 0, at), SomeFailed(verdicts))
    {
      var batchSize := if left > 64 then 64 else left;
      ghost var was := valid[..];
      NextBatch(b, |verdicts|);
      var verdict;
      ret, verdict := BatchOrFallback(h, heap, b, at, at + batchSize, valid, ret, t, base, SomeInvalid(was, 0, at),
        SomeFailed(verdicts));
      OneMoreVerdict(h, b, base, verdicts, verdict);
      if verdict == OutOfRange {
        verdicts := verdicts + [verdict];
        return false, at, ret, verdicts;
      }
      OneMoreBatch(h, b, base, verdicts, verdict, was, valid[..], at, at + batchSize);
      SomeInvalidSplit(was, valid[..], at, at + batchSize);
      verdicts := verdicts + [verdict];
      at := at + batchSize;
      left := left - batchSize;
    }
  }

  /** Verifies all signatures of b.  valid[i] tells whether signature i is valid.  If the run on
      some batch leaves its range, the source has no defined behaviour and nothing is said. */
  method SignOpenBatch(h: Hash, b: Inputs, valid: array<int>, t: Precomputed, ghost base: Point)
    returns (inRange: bool, ret: nat, ghost verdicts: seq<Verdict>)
    requires To64Bytes(h) && t.StandsFor(base) && b.Valid() && |b.m| <= valid.Length
    modifies valid
    ensures inRange <==> AllInRange(h, b)
    ensures RightVerdicts(h, b, base, verdicts)
      && (inRange ==> |verdicts| == BatchCount(|b.m|) && OutOfRange !in verdicts)
    ensures inRange ==> RightEntries(h, b, base, verdicts, valid[..], |b.m|)
    ensures inRange ==> forall i :: 0 <= i < |b.m| && OneValid(h, b, i, base) ==> valid[i] == 1
    ensures inRange ==> forall i :: 0 <= i < |b.m| && !OneValid(h, b, i, base) ==>
      valid[i] == if i / 64 < |verdicts| && verdicts[i / 64] == Accepted then 1 else 0
    ensures forall i :: |b.m| <= i < valid.Length ==> valid[i] == old(valid[i])
    ensures inRange ==>
      ret == (if exists i :: 0 <= i < |b.m| && valid[i] == 0 then 1 else 0) + (if Failed in verdicts then 2 else 0)
  {
    hide Precomputed.StandsFor, OneValid, BosCoster.AllProper, AllInRange, SomeInvalid, RightVerdicts, RightEntries,
      Result;
    var num := |b.m|;
    var i := 0;
    while i < num
      invariant 0 <= i <= num && forall k :: 0 <= k < i ==> valid[k] == 1
      invariant forall k :: i <= k < valid.Length ==> valid[k] == old(valid[k])
    {
      valid[i] := 1;
      i := i + 1;
    }
    var heap := NewHeap();
    var at;
    inRange, at, ret, verdicts := Batches(h, heap, b, valid, t, base);
    RangeOfVerdicts(h, b, base, verdicts);
    if !inRange {
      return;
    }
    ghost var was := valid[..];
    ret := VerifySingly(h, b, at, num, valid, ret, t, base, SomeInvalid(was, 0, at), SomeFailed(verdicts));
    SomeInvalidSplit(was, valid[..], at, num);
    LastEntries(h, b, base, verdicts, was, valid[..], at);
    EntriesTell(h, b, base, verdicts, valid[..]);
    ResultBoth(valid[..], num, verdicts);
  }

  /** The two bits of the result. */
  lemma ResultBoth(valid: seq<int>, num: nat, verdicts: seq<Verdict>)
    requires num <= |valid|
    ensures Result(SomeInvalid(valid, 0, num), SomeFailed(verdicts))
      == (if exists i :: 0 <= i < num && valid[i] == 0 then 1 else 0) + (if Failed in verdicts then 2 else 0)
  {
  }

  lemma NothingYet(h: Hash, b: Inputs, base: Point, valid: seq<int>)
    requires b.Valid() && |b.m| <= |valid|
    ensures RightVerdicts(h, b, base, []) && RightEntries(h, b, base, [], valid, 0)
      && 0 == Result(SomeInvalid(valid, 0, 0), SomeFailed([]))
  {
  }

  /** The entries of the at most three signatures after the last batch. */
  lemma LastEntries(h: Hash, b: Inputs, base: Point, verdicts: seq<Verdict>, was: seq<int>, valid: seq<int>, at: nat)
    requires b.Valid() && at <= |b.m| <= |valid| == |was| && (64 * |verdicts| == at || at == |b.m|)
    requires RightEntries(h, b, base, verdicts, was, at) && valid[..at] == was[..at]
    requires forall i :: at <= i < |b.m| ==> valid[i] == if OneValid(h, b, i, base) then 1 else 0
    ensures RightEntries(h, b, base, verdicts, valid, |b.m|)
  {
    hide OneValid;
    forall i | 0 <= i < |b.m|
      ensures RightEntry(h, b, base, verdicts, i, valid[i])
    {
      if i < at {
        assert valid[..at][i] == was[..at][i] && RightEntry(h, b, base, verdicts, i, was[i]);
      }
    }
  }

  lemma EntriesTell(h: Hash, b: Inputs, base: Point, verdicts: seq<Verdict>, valid: seq<int>)
    requires b.Valid() && |b.m| <= |valid| && RightEntries(h, b, base, verdicts, valid, |b.m|)
    ensures forall i :: 0 <= i < |b.m| ==> valid[i] == 0 || valid[i] == 1
    ensures forall i :: 0 <= i < |b.m| && OneValid(h, b, i, base) ==> valid[i] == 1
    ensures forall i :: 0 <= i < |b.m| && !OneValid(h, b, i, base) ==>
      valid[i] == if i / 64 < |verdicts| && verdicts[i / 64] == Accepted then 1 else 0
  {
    hide OneValid;
    assert forall i :: 0 <= i < |b.m| ==> RightEntry(h, b, base, verdicts, i, valid[i]);
  }

  method NewHeap() returns (heap: Heap<GeLimbs>)
    ensures HeapReady(heap) && fresh(heap) && fresh(heap.scalars) && fresh(heap.points) && fresh(heap.heap)
  {
    var scalars := new Limbs[129](_ => Limbs(0, 0, 0, 0, 0));
    var points := new GeLimbs[129](_ => GeLimbs(Small(0), Small(1), Small(1), Small(0)));
    var indices := new nat[129](_ => 0);
    heap := new Heap(scalars, points, indices);
  }
}
