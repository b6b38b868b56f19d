/** The batch equation: a random combination of the verification equations. */
module BatchSpec {
  import opened AbelianGroup
  import opened BosCosterSpec
  import opened Modm64
  import Signature

  function MulModL(x: nat, y: nat): nat {
    x * y % L
  }

  function AddModL(x: nat, y: nat): nat {
    (x + y) % L
  }

  /** r0 s0 + r1 s1 + ... modulo L, as it is accumulated. */
  function WeightedSum(r: seq<nat>, s: seq<nat>): nat
    requires |r| == |s|
  {
    if r == [] then 0 else AddModL(WeightedSum(r[..|r| - 1], s[..|r| - 1]), MulModL(r[|r| - 1], s[|r| - 1]))
  }

  function Products(r: seq<nat>, h: seq<nat>): (p: seq<nat>)
    requires |r| == |h|
    ensures |p| == |r|
  {
    seq(|r|, i requires 0 <= i < |r| => MulModL(r[i], h[i]))
  }

  /** The scalars of the base point, of the negated keys and of the negated R's. */
  function BatchScalars(r: seq<nat>, s: seq<nat>, h: seq<nat>): (b: seq<nat>)
    requires |r| == |s| == |h|
    ensures |b| == 2 * |r| + 1
  {
    [WeightedSum(r, s)] + Products(r, h) + r
  }

  function BatchPoints<T>(b: T, keys: seq<T>, rs: seq<T>): (p: seq<T>)
    requires |keys| == |rs|
    ensures |p| == 2 * |rs| + 1
  {
    [b] + keys + rs
  }

  /** [s]b + [h]key + r, for the negated key and R. */
  function Defect<T>(g: Group<T>, b: T, s: nat, h: nat, key: T, r: T): T {
    g.add(g.add(Times(g, s, b), Times(g, h, key)), r)
  }

  /** The verification equation: the defect is neutral. */
  ghost predicate Balanced<T>(g: Group<T>, b: T, s: nat, h: nat, key: T, r: T) {
    g.elem(key) && g.elem(r) && Defect(g, b, s, h, key, r) == g.zero
  }

  function Defects<T>(g: Group<T>, b: T, s: seq<nat>, h: seq<nat>, keys: seq<T>, rs: seq<T>): (d: seq<T>)
    requires |s| == |h| == |keys| == |rs|
    ensures |d| == |s|
  {
    seq(|s|, i requires 0 <= i < |s| => Defect(g, b, s[i], h[i], keys[i], rs[i]))
  }

  ghost predicate HasExponent<T>(g: Group<T>, a: T) {
    Times(g, L, a) == g.zero
  }

  /** The batch equation in three parts. */
  function ThreeSums<T>(g: Group<T>, b: T, r: seq<nat>, s: seq<nat>, h: seq<nat>, keys: seq<T>, rs: seq<T>): T
    requires |r| == |s| == |h| == |keys| == |rs|
  {
    g.add(g.add(Times(g, WeightedSum(r, s), b), SumOf(g, Products(r, h), keys)), SumOf(g, r, rs))
  }

  /** Base point and keys have exponent L. */
  ghost predicate HaveExponent<T>(g: Group<T>, b: T, keys: seq<T>, rs: seq<T>) {
    && g.elem(b) && HasExponent(g, b) && Elements(g, keys) && Elements(g, rs)
    && forall i :: 0 <= i < |keys| ==> HasExponent(g, keys[i])
  }

  ghost predicate AllBalanced<T>(g: Group<T>, b: T, s: seq<nat>, h: seq<nat>, keys: seq<T>, rs: seq<T>)
    requires |s| == |h| == |keys| == |rs|
  {
    && g.elem(b) && HasExponent(g, b)
    && (forall i :: 0 <= i < |s| ==> HasExponent(g, keys[i]))
    && (forall i :: 0 <= i < |s| ==> Balanced(g, b, s[i], h[i], keys[i], rs[i]))
  }

  /** ((a + u) + (c + v)) + (e + w) == ((a + c) + e) + ((u + v) + w). */
  lemma SixTerms<T(!new)>(g: Group<T>, a: T, c: T, e: T, u: T, v: T, w: T)
    requires Abelian(g) && g.elem(a) && g.elem(c) && g.elem(e) && g.elem(u) && g.elem(v) && g.elem(w)
    ensures g.add(g.add(g.add(a, u), g.add(c, v)), g.add(e, w)) == g.add(g.add(g.add(a, c), e), g.add(g.add(u, v), w))
  {
    hide Abelian;
    Shuffle(g, a, u, c, v);
    Sum(g, a, c);
    Sum(g, u, v);
    Shuffle(g, g.add(a, c), g.add(u, v), e, w);
  }

  /** One term of the combination: [rs]b + [rh]key + [r]R, with the products modulo L, is [r] of
      the defect. */
  lemma OneTerm<T(!new)>(g: Group<T>, b: T, r: nat, s: nat, h: nat, key: T, rr: T)
    requires Abelian(g) && g.elem(b) && HasExponent(g, b) && g.elem(key) && HasExponent(g, key) && g.elem(rr)
    ensures g.add(g.add(Times(g, MulModL(r, s), b), Times(g, MulModL(r, h), key)), Times(g, r, rr))
      == Times(g, r, Defect(g, b, s, h, key, rr))
  {
    hide Abelian, Times;
    assert r * s >= 0 && r * h >= 0;
    Signature.ReduceMultiple(g, r * s, L, b);
    Signature.ReduceMultiple(g, r * h, L, key);
    TimesTimes(g, r, s, b);
    TimesTimes(g, r, h, key);
    TimesElem(g, s, b);
    TimesElem(g, h, key);
    Sum(g, Times(g, s, b), Times(g, h, key));
    TimesOfSum(g, r, Times(g, s, b), Times(g, h, key));
    TimesOfSum(g, r, g.add(Times(g, s, b), Times(g, h, key)), rr);
  }

  lemma {:induction false} ThreeSumsCombine<T(!new)>(g: Group<T>, b: T, r: seq<nat>, s: seq<nat>, h: seq<nat>,
      keys: seq<T>, rs: seq<T>)
    requires Abelian(g) && |r| == |s| == |h| == |keys| == |rs| && HaveExponent(g, b, keys, rs)
    ensures ThreeSums(g, b, r, s, h, keys, rs) == SumOf(g, r, Defects(g, b, s, h, keys, rs))
  {
    hide Abelian, Times, HasExponent, MulModL, ThreeSums, Defect;
    var n := |r| - 1;
    if n < 0 {
      NoTerms(g, b);
      assert r == [] && s == [] && h == [] && keys == [] && rs == [];
    } else {
      var r', s', h', keys', rs' := r[..n], s[..n], h[..n], keys[..n], rs[..n];
      ThreeSumsCombine(g, b, r', s', h', keys', rs');
      OneTerm(g, b, r[n], s[n], h[n], keys[n], rs[n]);
      LastTerm(g, b, r, s, h, keys, rs);
      assert Defects(g, b, s, h, keys, rs)[..n] == Defects(g, b, s', h', keys', rs');
    }
  }

  lemma NoTerms<T(!new)>(g: Group<T>, b: T)
    requires Abelian(g)
    ensures ThreeSums(g, b, [], [], [], [], []) == g.zero
  {
    Zero(g);
    Inverse(g, g.zero);
  }

  /** The last signature contributes its own three terms. */
  lemma LastTerm<T(!new)>(g: Group<T>, b: T, r: seq<nat>, s: seq<nat>, h: seq<nat>, keys: seq<T>, rs: seq<T>)
    requires Abelian(g) && |r| == |s| == |h| == |keys| == |rs| > 0 && HaveExponent(g, b, keys, rs)
    ensures var n := |r| - 1;
      ThreeSums(g, b, r, s, h, keys, rs)
      == g.add(ThreeSums(g, b, r[..n], s[..n], h[..n], keys[..n], rs[..n]),
               g.add(g.add(Times(g, MulModL(r[n], s[n]), b), Times(g, MulModL(r[n], h[n]), keys[n])),
                 Times(g, r[n], rs[n])))
  {
    hide Abelian, Times, HasExponent, MulModL;
    var n := |r| - 1;
    ProductOfLast(r, h);
    AccumulatedLast(g, b, r, s);
    SumElem(g, Products(r[..n], h[..n]), keys[..n]);
    SumElem(g, r[..n], rs[..n]);
    TimesElem(g, WeightedSum(r[..n], s[..n]), b);
    TimesElem(g, MulModL(r[n], s[n]), b);
    TimesElem(g, MulModL(r[n], h[n]), keys[n]);
    TimesElem(g, r[n], rs[n]);
    hide SumOf, WeightedSum, Products;
    SixTerms(g, Times(g, WeightedSum(r[..n], s[..n]), b), SumOf(g, Products(r[..n], h[..n]), keys[..n]),
      SumOf(g, r[..n], rs[..n]),
      Times(g, MulModL(r[n], s[n]), b), Times(g, MulModL(r[n], h[n]), keys[n]), Times(g, r[n], rs[n]));
  }

  lemma AccumulatedLast<T(!new)>(g: Group<T>, b: T, r: seq<nat>, s: seq<nat>)
    requires Abelian(g) && |r| == |s| > 0 && g.elem(b) && HasExponent(g, b)
    ensures var n := |r| - 1;
      Times(g, WeightedSum(r, s), b)
        == g.add(Times(g, WeightedSum(r[..n], s[..n]), b), Times(g, MulModL(r[n], s[n]), b))
  {
    hide Abelian, Times, WeightedSum, MulModL, AddModL;
    var n := |r| - 1;
    WeightedLast(r, s);
    AddReduced(g, b, WeightedSum(r[..n], s[..n]), MulModL(r[n], s[n]));
  }

  lemma WeightedLast(r: seq<nat>, s: seq<nat>)
    requires |r| == |s| > 0
    ensures var n := |r| - 1; WeightedSum(r, s) == AddModL(WeightedSum(r[..n], s[..n]), MulModL(r[n], s[n]))
  {
    hide MulModL, AddModL;
  }

  lemma AddReduced<T(!new)>(g: Group<T>, b: T, w: nat, u: nat)
    requires Abelian(g) && g.elem(b) && HasExponent(g, b)
    ensures Times(g, AddModL(w, u), b) == g.add(Times(g, w, b), Times(g, u, b))
  {
    hide Abelian, Times;
    Signature.ReduceMultiple(g, w + u, L, b);
    TimesAdd(g, w, u, b);
  }

  lemma Elems<T>(g: Group<T>, b: T, s: seq<nat>, h: seq<nat>, keys: seq<T>, rs: seq<T>)
    requires |s| == |h| == |keys| == |rs| && AllBalanced(g, b, s, h, keys, rs)
    ensures HaveExponent(g, b, keys, rs)
  {
    forall i | 0 <= i < |s|
      ensures g.elem(keys[i]) && g.elem(rs[i])
    {
      assert Balanced(g, b, s[i], h[i], keys[i], rs[i]);
    }
  }

  lemma ProductOfLast(r: seq<nat>, h: seq<nat>)
    requires |r| == |h| > 0
    ensures var n := |r| - 1;
      Products(r, h)[..n] == Products(r[..n], h[..n]) && Products(r, h)[n] == MulModL(r[n], h[n])
  {
  }

  /** With base point and keys of exponent L, the batch sum is the combination of the defects of
      the signatures, each with its own random scalar. */
  lemma SumIsCombination<T(!new)>(g: Group<T>, b: T, r: seq<nat>, s: seq<nat>, h: seq<nat>, keys: seq<T>, rs: seq<T>)
    requires Abelian(g) && |r| == |s| == |h| == |keys| == |rs| && HaveExponent(g, b, keys, rs)
    ensures SumOf(g, BatchScalars(r, s, h), BatchPoints(b, keys, rs)) == SumOf(g, r, Defects(g, b, s, h, keys, rs))
  {
    hide Abelian, SumOf, WeightedSum, Products, Times, HasExponent, Defects;
    ThreeSumsCombine(g, b, r, s, h, keys, rs);
    var w := WeightedSum(r, s);
    SumConcat(g, [w] + Products(r, h), r, [b] + keys, rs);
    SumConcat(g, [w], Products(r, h), [b], keys);
    SumOfOne(g, w, b);
  }

  /** So in a group of exponent L the batch equation holds for signatures that each verify. */
  lemma ValidBatchIsNeutral<T(!new)>(g: Group<T>, b: T, r: seq<nat>, s: seq<nat>, h: seq<nat>, keys: seq<T>, rs: seq<T>)
    requires Abelian(g) && |r| == |s| == |h| == |keys| == |rs| && AllBalanced(g, b, s, h, keys, rs)
    ensures SumOf(g, BatchScalars(r, s, h), BatchPoints(b, keys, rs)) == g.zero
  {
    hide Abelian, SumOf, Times, HasExponent, BatchScalars, BatchPoints, HaveExponent, Defect;
    Elems(g, b, s, h, keys, rs);
    SumIsCombination(g, b, r, s, h, keys, rs);
    forall i | 0 <= i < |s|
      ensures Defects(g, b, s, h, keys, rs)[i] == g.zero
    {
      assert Balanced(g, b, s[i], h[i], keys[i], rs[i]);
    }
    SumOfZeros(g, r, Defects(g, b, s, h, keys, rs));
  }

  lemma {:induction false} SumOfZeros<T(!new)>(g: Group<T>, r: seq<nat>, p: seq<T>)
    requires Abelian(g) && |r| == |p| && forall i :: 0 <= i < |p| ==> p[i] == g.zero
    ensures SumOf(g, r, p) == g.zero
  {
    hide Times;
    Zero(g);
    Inverse(g, g.zero);
    if r != [] {
      SumOfZeros(g, r[..|r| - 1], p[..|r| - 1]);
      TimesOfZero(g, r[|r| - 1]);
    }
  }

  lemma DefectElements<T(!new)>(g: Group<T>, b: T, s: seq<nat>, h: seq<nat>, keys: seq<T>, rs: seq<T>)
    requires Abelian(g) && |s| == |h| == |keys| == |rs| && HaveExponent(g, b, keys, rs)
    ensures Elements(g, Defects(g, b, s, h, keys, rs))
  {
    hide Abelian, Times, HasExponent;
    forall i | 0 <= i < |s|
      ensures g.elem(Defects(g, b, s, h, keys, rs)[i])
    {
      DefectElem(g, b, s[i], h[i], keys[i], rs[i]);
    }
  }

  lemma DefectElem<T(!new)>(g: Group<T>, b: T, s: nat, h: nat, key: T, r: T)
    requires Abelian(g) && g.elem(b) && g.elem(key) && g.elem(r)
    ensures g.elem(Defect(g, b, s, h, key, r))
  {
    hide Abelian, Times;
    TimesElem(g, s, b);
    TimesElem(g, h, key);
    Sum(g, Times(g, s, b), Times(g, h, key));
    Sum(g, g.add(Times(g, s, b), Times(g, h, key)), r);
  }

  lemma SumConcat<T(!new)>(g: Group<T>, s: seq<nat>, t: seq<nat>, p: seq<T>, q: seq<T>)
    requires Abelian(g) && |s| == |p| && |t| == |q| && Elements(g, p) && Elements(g, q)
    ensures SumOf(g, s + t, p + q) == g.add(SumOf(g, s, p), SumOf(g, t, q))
  {
    hide SumOf, Abelian;
    SumSplit(g, s + t, p + q, |s|);
    assert (s + t)[..|s|] == s && (s + t)[|s|..] == t && (p + q)[..|p|] == p && (p + q)[|p|..] == q;
  }

  lemma SumOfOne<T(!new)>(g: Group<T>, n: nat, p: T)
    requires Abelian(g) && g.elem(p)
    ensures SumOf(g, [n], [p]) == Times(g, n, p)
  {
    TimesElem(g, n, p);
    Inverse(g, Times(g, n, p));
    assert SumOf(g, [n][..0], [p][..0]) == g.zero;
  }
}
