/** The specification of multi-scalar multiplication by repeated subtraction: sums of
    multiples, common divisors, and the course of the two largest scalars. */
module BosCosterSpec {
  import opened Words
  import opened AbelianGroup
  import ModmBatch

  // ----- sums of multiples -----

  /** [s0]p0 + [s1]p1 + ... */
  function SumOf<T>(g: Group<T>, s: seq<nat>, p: seq<T>): T
    requires |s| == |p|
  {
    if s == [] then g.zero else g.add(SumOf(g, s[..|s| - 1], p[..|s| - 1]), Times(g, s[|s| - 1], p[|s| - 1]))
  }

  ghost predicate Elements<T>(g: Group<T>, p: seq<T>) {
    forall i :: 0 <= i < |p| ==> g.elem(p[i])
  }

  lemma {:induction false} SumElem<T(!new)>(g: Group<T>, s: seq<nat>, p: seq<T>)
    requires Abelian(g) && |s| == |p| && Elements(g, p)
    ensures g.elem(SumOf(g, s, p))
  {
    if s == [] {
      Zero(g);
    } else {
      var n := |s| - 1;
      SumElem(g, s[..n], p[..n]);
      TimesElem(g, s[n], p[n]);
      Sum(g, SumOf(g, s[..n], p[..n]), Times(g, s[n], p[n]));
    }
  }

  /** Replacing one term: new sum + old term == old sum + new term. */
  lemma {:induction false} SumUpdate<T(!new)>(g: Group<T>, s: seq<nat>, p: seq<T>, i: nat, x: nat, q: T)
    requires Abelian(g) && |s| == |p| && Elements(g, p) && i < |s| && g.elem(q)
    ensures g.add(SumOf(g, s[i := x], p[i := q]), Times(g, s[i], p[i])) == g.add(SumOf(g, s, p), Times(g, x, q))
  {
    hide Times, Abelian;
    var n := |s| - 1;
    var s', p' := s[i := x], p[i := q];
    TimesElem(g, s[i], p[i]);
    TimesElem(g, x, q);
    SumElem(g, s[..n], p[..n]);
    if i == n {
      assert s'[..n] == s[..n] && p'[..n] == p[..n];
      var a, t, u := SumOf(g, s[..n], p[..n]), Times(g, s[n], p[n]), Times(g, x, q);
      Assoc(g, a, u, t);
      Assoc(g, a, t, u);
      Sum(g, u, t);
    } else {
      SumUpdate(g, s[..n], p[..n], i, x, q);
      assert s'[..n] == s[..n][i := x] && p'[..n] == p[..n][i := q];
      SumElem(g, s'[..n], p'[..n]);
      TimesElem(g, s[n], p[n]);
      Exchange(g, SumOf(g, s'[..n], p'[..n]), SumOf(g, s[..n], p[..n]), Times(g, s[n], p[n]), Times(g, s[i], p[i]),
        Times(g, x, q));
    }
  }

  /** From a' + t == a + u follows (a' + c) + t == (a + c) + u. */
  lemma Exchange<T(!new)>(g: Group<T>, a': T, a: T, c: T, t: T, u: T)
    requires Abelian(g) && g.elem(a') && g.elem(a) && g.elem(c) && g.elem(t) && g.elem(u)
    requires g.add(a', t) == g.add(a, u)
    ensures g.add(g.add(a', c), t) == g.add(g.add(a, c), u)
  {
    Assoc(g, a', c, t);
    Assoc(g, a, c, u);
    Sum(g, c, t);
    Sum(g, c, u);
    Assoc(g, a', t, c);
    Assoc(g, a, u, c);
  }

  lemma {:induction false} SumSplit<T(!new)>(g: Group<T>, s: seq<nat>, p: seq<T>, k: nat)
    requires Abelian(g) && |s| == |p| && Elements(g, p) && k <= |s|
    ensures SumOf(g, s, p) == g.add(SumOf(g, s[..k], p[..k]), SumOf(g, s[k..], p[k..]))
  {
    hide Times, Abelian;
    SumElem(g, s[..k], p[..k]);
    if k == |s| {
      assert s[..k] == s && p[..k] == p;
      Inverse(g, SumOf(g, s, p));
    } else {
      var n := |s| - 1;
      SumSplit(g, s[..n], p[..n], k);
      assert s[..n][..k] == s[..k] && p[..n][..k] == p[..k];
      assert s[k..][..n - k] == s[..n][k..] && p[k..][..n - k] == p[..n][k..];
      SumElem(g, s[..n][k..], p[..n][k..]);
      TimesElem(g, s[n], p[n]);
      Assoc(g, SumOf(g, s[..k], p[..k]), SumOf(g, s[..n][k..], p[..n][k..]), Times(g, s[n], p[n]));
    }
  }

  /** One reduction step leaves the sum alone:
      (x - y)a + y(b + a) == xa + yb. */
  lemma ReduceKeepsSum<T(!new)>(g: Group<T>, s: seq<nat>, p: seq<T>, i: nat, j: nat)
    requires Abelian(g) && |s| == |p| && Elements(g, p) && i < |s| && j < |s| && i != j && s[j] <= s[i]
    ensures SumOf(g, s[i := s[i] - s[j]], p[j := g.add(p[j], p[i])]) == SumOf(g, s, p)
  {
    hide SumOf, Times;
    var x, y, a, b := s[i], s[j], p[i], p[j];
    var c := g.add(b, a);
    Sum(g, b, a);
    var s1 := s[i := x - y];
    var total, middle, final := SumOf(g, s, p), SumOf(g, s1, p), SumOf(g, s1, p[j := c]);
    assert p[i := a] == p && s1[j := y] == s1;
    SumUpdate(g, s, p, i, x - y, a);
    SumUpdate(g, s1, p, j, y, c);
    SumElem(g, s, p);
    SumElem(g, s1, p);
    SumElem(g, s1, p[j := c]);
    TimesOfSum(g, y, b, a);
    TimesAdd(g, x - y, y, a);
    TimesElem(g, x - y, a); TimesElem(g, y, a); TimesElem(g, y, b); TimesElem(g, y, c);
    CancelTerms(g, total, middle, final, Times(g, x - y, a), Times(g, y, a), Times(g, y, b));
  }

  lemma CancelTerms<T(!new)>(g: Group<T>, total: T, middle: T, final: T, u: T, v: T, w: T)
    requires Abelian(g) && g.elem(total) && g.elem(middle) && g.elem(final) && g.elem(u) && g.elem(v) && g.elem(w)
    requires g.add(middle, g.add(u, v)) == g.add(total, u)
    requires g.add(final, w) == g.add(middle, g.add(w, v))
    ensures final == total
  {
    // middle + v == total
    Sum(g, u, v);
    Sum(g, v, u);
    Sum(g, middle, v);
    Assoc(g, middle, v, u);
    CancelRight(g, g.add(middle, v), total, u);
    // final == middle + v
    Sum(g, w, v);
    Assoc(g, middle, v, w);
    CancelRight(g, final, g.add(middle, v), w);
  }

  lemma CancelRight<T(!new)>(g: Group<T>, x: T, y: T, u: T)
    requires Abelian(g) && g.elem(x) && g.elem(y) && g.elem(u) && g.add(x, u) == g.add(y, u)
    ensures x == y
  {
    Sum(g, x, u);
    Cancel(g, x, u, g.add(x, u));
    Cancel(g, y, u, g.add(x, u));
  }

  // ----- common divisors -----

  ghost predicate DividesAll(d: int, s: seq<nat>)
    requires d > 0
  {
    forall i :: 0 <= i < |s| ==> s[i] % d == 0
  }

  /** The same positive integers divide all of s and all of t. */
  ghost predicate SameDivisors(s: seq<nat>, t: seq<nat>) {
    forall d: int :: d > 0 ==> (DividesAll(d, s) <==> DividesAll(d, t))
  }

  /** n is the greatest common divisor of s: its divisors are the common divisors (0 if all are 0). */
  ghost predicate IsGcd(n: nat, s: seq<nat>) {
    forall d: int :: d > 0 ==> (DividesAll(d, s) <==> n % d == 0)
  }

  lemma DivisorOfDifference(d: int, x: int, y: int)
    requires d > 0 && y % d == 0
    ensures x % d == 0 <==> (x - y) % d == 0
  {
    var q := y / d;
    assert y == d * q;
    DivModUnique(x - y, d, x / d - q, x % d);
  }

  lemma ReduceKeepsDivisors(s: seq<nat>, i: nat, j: nat)
    requires i < |s| && j < |s| && i != j && s[j] <= s[i]
    ensures SameDivisors(s[i := s[i] - s[j]], s)
  {
    var t := s[i := s[i] - s[j]];
    forall d: int | d > 0
      ensures DividesAll(d, t) <==> DividesAll(d, s)
    {
      if s[j] % d == 0 {
        DivisorOfDifference(d, s[i], s[j]);
        assert forall k :: 0 <= k < |s| ==> (t[k] % d == 0 <==> s[k] % d == 0);
        if DividesAll(d, s) {
          forall k | 0 <= k < |t| ensures t[k] % d == 0 { assert s[k] % d == 0; }
        }
        if DividesAll(d, t) {
          forall k | 0 <= k < |s| ensures s[k] % d == 0 { assert t[k] % d == 0; }
        }
      } else {
        assert t[j] == s[j];
      }
    }
  }

  lemma DivisorsOfParts(s: seq<nat>, t: seq<nat>, u: seq<nat>)
    requires SameDivisors(s, t)
    ensures SameDivisors(s + u, t + u)
  {
    forall d: int | d > 0
      ensures DividesAll(d, s + u) <==> DividesAll(d, t + u)
    {
      AllOfConcat(d, s, u);
      AllOfConcat(d, t, u);
    }
  }

  lemma AllOfConcat(d: int, s: seq<nat>, u: seq<nat>)
    requires d > 0
    ensures DividesAll(d, s + u) <==> DividesAll(d, s) && DividesAll(d, u)
  {
    if DividesAll(d, s + u) {
      forall i | 0 <= i < |s| ensures s[i] % d == 0 { assert (s + u)[i] == s[i]; }
      forall i | 0 <= i < |u| ensures u[i] % d == 0 { assert (s + u)[|s| + i] == u[i]; }
    }
  }

  /** If all but one entry are zero, that entry is the greatest common divisor. */
  lemma LoneEntryIsGcd(s: seq<nat>, t: seq<nat>, k: nat)
    requires k < |s| && (forall i :: 0 <= i < |s| && i != k ==> s[i] == 0) && SameDivisors(s, t)
    ensures IsGcd(s[k], t)
  {
    forall d: int | d > 0
      ensures DividesAll(d, t) <==> s[k] % d == 0
    {
      OnlyEntry(d, s, k);
    }
  }

  lemma OnlyEntry(d: int, s: seq<nat>, k: nat)
    requires d > 0 && k < |s| && forall i :: 0 <= i < |s| && i != k ==> s[i] == 0
    ensures DividesAll(d, s) <==> s[k] % d == 0
  {
  }

  lemma {:induction false} LoneEntrySum<T(!new)>(g: Group<T>, s: seq<nat>, p: seq<T>, k: nat)
    requires Abelian(g) && |s| == |p| && Elements(g, p) && k < |s| && forall i :: 0 <= i < |s| && i != k ==> s[i] == 0
    ensures SumOf(g, s, p) == Times(g, s[k], p[k])
  {
    var n := |s| - 1;
    TimesElem(g, s[k], p[k]);
    Inverse(g, Times(g, s[k], p[k]));
    if k == n {
      AllZeroSum(g, s[..n], p[..n]);
    } else {
      LoneEntrySum(g, s[..n], p[..n], k);
    }
  }

  lemma {:induction false} AllZeroSum<T(!new)>(g: Group<T>, s: seq<nat>, p: seq<T>)
    requires Abelian(g) && |s| == |p| && forall i :: 0 <= i < |s| ==> s[i] == 0
    ensures SumOf(g, s, p) == g.zero
  {
    Zero(g);
    Inverse(g, g.zero);
    if s != [] {
      AllZeroSum(g, s[..|s| - 1], p[..|s| - 1]);
    }
  }

  ghost predicate TwoNonZero(s: seq<nat>) {
    exists i, j :: 0 <= i < j < |s| && s[i] != 0 && s[j] != 0
  }

  /** Whether the run brings in the second half of the scalars: at least two of the first
      scalars are nonzero and all their common divisors are below 2^128. */
  ghost predicate WillExtend(first: seq<nat>) {
    TwoNonZero(first) && forall d: int :: d > 0 && DividesAll(d, first) ==>
      d < 0x1_0000_0000_0000_0000_0000_0000_0000_0000
  }

  // ----- the course of the two largest values -----

  /** The largest member (0 if there is none). */
  ghost function MaxOf(ms: multiset<nat>): (x: nat)
    ensures ms != multiset{} ==> x in ms
    ensures forall y :: y in ms ==> y <= x
    decreases |ms|
  {
    if ms == multiset{} then 0 else
      var x :| x in ms;
      var rest := ms - multiset{x};
      assert forall y :: y in ms ==> y == x || y in rest;
      var y := MaxOf(rest);
      if x < y then y else x
  }

  lemma MaxIsUnique(ms: multiset<nat>, x: nat)
    requires x in ms && forall y :: y in ms ==> y <= x
    ensures MaxOf(ms) == x
  {
  }

  ghost function SecondOf(ms: multiset<nat>): nat {
    MaxOf(ms - multiset{MaxOf(ms)})
  }

  ghost function Total(ms: multiset<nat>): nat {
    if ms == multiset{} then 0 else var x :| x in ms; x + Total(ms - multiset{x})
  }

  lemma SomeMember(ms: multiset<nat>) returns (y: nat)
    requires ms != multiset{}
    ensures y in ms && Total(ms) == y + Total(ms - multiset{y})
  {
    y :| y in ms && Total(ms) == y + Total(ms - multiset{y});
  }

  lemma {:induction false} TotalWithout(ms: multiset<nat>, x: nat)
    requires x in ms
    ensures Total(ms) == x + Total(ms - multiset{x})
    decreases |ms|
  {
    hide Total;
    var y := SomeMember(ms);
    if y != x {
      var a, b := ms - multiset{x}, ms - multiset{y};
      TotalWithout(b, x);
      TotalWithout(a, y);
      assert b - multiset{x} == a - multiset{y};
    }
  }

  lemma SecondBelow(ms: multiset<nat>)
    ensures SecondOf(ms) <= MaxOf(ms)
  {
    var rest := ms - multiset{MaxOf(ms)};
    if rest != multiset{} {
      assert SecondOf(ms) in ms;
    }
  }

  /** One subtraction: the largest value becomes its difference to the second largest. */
  ghost function Reduced(ms: multiset<nat>): multiset<nat>
    requires |ms| >= 2
  {
    var x, y := MaxOf(ms), SecondOf(ms);
    SecondBelow(ms);
    With(ms - multiset{x}, x - y)
  }

  ghost function With(rest: multiset<nat>, z: nat): multiset<nat> {
    rest + multiset{z}
  }

  lemma ReducedTotal(ms: multiset<nat>)
    requires |ms| >= 2
    ensures Total(Reduced(ms)) == Total(ms) - SecondOf(ms) && |Reduced(ms)| == |ms|
  {
    hide MaxOf, Total, SecondOf;
    var x, y := MaxOf(ms), SecondOf(ms);
    SecondBelow(ms);
    assert x in ms;
    var rest := ms - multiset{x};
    TotalWithout(ms, x);
    assert Reduced(ms) - multiset{x - y} == rest;
    TotalWithout(Reduced(ms), x - y);
  }

  /** The limb width in force when the run on the first scalars brings in the others: it
      drops by at most one with every subtraction, however far the largest value falls. */
  ghost function ExtendLimb(ms: multiset<nat>, limb: nat): (r: nat)
    requires |ms| >= 2 && limb <= 4
    ensures r <= 4
    decreases Total(ms)
  {
    var x, y := MaxOf(ms), SecondOf(ms);
    SecondBelow(ms);
    if y == 0 then
      limb
    else
      var next := NextLimb(x, limb);
      if x < 0x1_0000_0000_0000_0000_0000_0000_0000_0000 then
        next
      else
        ReducedTotal(ms);
        ExtendLimb(Reduced(ms), next)
  }

  /** The width after a look at the largest value. */
  function NextLimb(x: nat, limb: nat): (r: nat)
    requires x > 0 && limb <= 4
    ensures r <= 4
  {
    if x < ModmBatch.Weight(limb) then limb - 1 else limb
  }

  /** The largest value at most halves with a subtraction, so it cannot pass from above 128
      bits to below 112 bits at once: when the others are brought in, at least three limbs
      are still in use. */
  lemma {:induction false} LateWidth(ms: multiset<nat>, limb: nat)
    requires |ms| >= 2 && 2 <= limb <= 4
    requires limb == 4 || MaxOf(ms) >= 0x8000_0000_0000_0000_0000_0000_0000_0000
    ensures ExtendLimb(ms, limb) >= 2
    decreases Total(ms)
  {
    hide MaxOf, SecondOf, Total;
    var x, y := MaxOf(ms), SecondOf(ms);
    SecondBelow(ms);
    if y != 0 && x >= 0x1_0000_0000_0000_0000_0000_0000_0000_0000 {
      ReducedTotal(ms);
      ReducedMembers(ms);
      var z: nat :| z == x - y && z in Reduced(ms);
      assert MaxOf(Reduced(ms)) >= y && MaxOf(Reduced(ms)) >= z;
      LateWidth(Reduced(ms), NextLimb(x, limb));
    }
  }

  lemma ReducedMembers(ms: multiset<nat>)
    requires |ms| >= 2
    ensures SecondOf(ms) <= MaxOf(ms) && SecondOf(ms) in Reduced(ms)
    ensures exists z: nat :: z == MaxOf(ms) - SecondOf(ms) && z in Reduced(ms)
  {
    hide MaxOf, SecondOf, With;
    SecondBelow(ms);
    SecondMember(ms);
    var x, y := MaxOf(ms), SecondOf(ms);
    WithMembers(ms - multiset{x}, y, x - y);
  }

  lemma WithMembers(rest: multiset<nat>, y: nat, z: nat)
    requires y in rest
    ensures y in With(rest, z) && z in With(rest, z)
  {
  }

  lemma SecondMember(ms: multiset<nat>)
    requires |ms| >= 2
    ensures SecondOf(ms) in ms - multiset{MaxOf(ms)}
  {
    hide MaxOf;
    NonemptyRest(ms, MaxOf(ms));
  }

  lemma NonemptyRest(ms: multiset<nat>, x: nat)
    requires |ms| >= 2 && x in ms
    ensures ms - multiset{x} != multiset{}
  {
    assert ms == (ms - multiset{x}) + multiset{x};
  }

  /** The two largest entries of a sequence, as the two largest members of its multiset. */
  lemma TopTwo(s: seq<nat>, i: nat, j: nat)
    requires i < |s| && j < |s| && i != j
    requires (forall k :: 0 <= k < |s| ==> s[k] <= s[i]) && (forall k :: 0 <= k < |s| && k != i ==> s[k] <= s[j])
    ensures MaxOf(multiset(s)) == s[i] && SecondOf(multiset(s)) == s[j]
    ensures |multiset(s)| == |s| >= 2 && Reduced(multiset(s)) == multiset(s[i := s[i] - s[j]])
  {
    hide MaxOf, SecondOf;
    LargestOf(s, i);
    SecondLargest(s, i, j);
    Replace(s, i, s[i] - s[j]);
    TwoMembers(s, i, j);
  }

  lemma TwoMembers(s: seq<nat>, i: nat, j: nat)
    requires i < |s| && j < |s| && i != j
    ensures |multiset(s)| == |s| >= 2
  {
  }

  lemma SecondLargest(s: seq<nat>, i: nat, j: nat)
    requires i < |s| && j < |s| && i != j && MaxOf(multiset(s)) == s[i]
    requires forall k :: 0 <= k < |s| && k != i ==> s[k] <= s[j]
    ensures SecondOf(multiset(s)) == s[j]
  {
    hide MaxOf;
    var rest, j' := s[..i] + s[i + 1..], if j < i then j else j - 1;
    Without(s, i);
    RestIndex(s, i, j);
    forall k | 0 <= k < |rest| ensures rest[k] <= rest[j'] {
      assert rest[k] == if k < i then s[k] else s[k + 1];
    }
    LargestOf(rest, j');
  }

  lemma Replace(s: seq<nat>, i: nat, x: nat)
    requires i < |s|
    ensures multiset(s[i := x]) == multiset(s) - multiset{s[i]} + multiset{x}
  {
    var t := s[i := x];
    Without(s, i);
    Without(t, i);
    assert t[..i] + t[i + 1..] == s[..i] + s[i + 1..];
  }

  lemma RestIndex(s: seq<nat>, i: nat, j: nat)
    requires i < |s| && j < |s| && i != j
    ensures (s[..i] + s[i + 1..])[if j < i then j else j - 1] == s[j]
  {
  }

  lemma LargestOf(s: seq<nat>, i: nat)
    requires i < |s| && forall k :: 0 <= k < |s| ==> s[k] <= s[i]
    ensures MaxOf(multiset(s)) == s[i]
  {
    forall y | y in multiset(s) ensures y <= s[i] { var k :| 0 <= k < |s| && s[k] == y; }
    MaxIsUnique(multiset(s), s[i]);
  }

  lemma Without(s: seq<nat>, i: nat)
    requires i < |s|
    ensures multiset(s) == multiset(s[..i] + s[i + 1..]) + multiset{s[i]}
    ensures multiset(s[..i] + s[i + 1..]) == multiset(s) - multiset{s[i]}
  {
    assert s == s[..i] + [s[i]] + s[i + 1..];
  }
}
