/** A run of multi-scalar multiplication on numbers and group elements: what its rounds keep,
    and what it returns. */
module BosCosterRun {
  import opened Words
  import opened AbelianGroup
  import opened BosCosterSpec
  import opened FinalStage
  import opened ModmBatch
  import Modm64

  /** The number of scalars the heap starts with: the least odd number that is more than half. */
  function Half(count: nat): (r: nat)
    ensures count >= 5 && count % 2 == 1 ==> 3 <= r <= count
    ensures count % 2 == 1 ==> r % 2 == 1 && count < 2 * r <= count + 4
  {
    var h := (count + 1) / 2;
    if h % 2 == 1 then h else h + 1
  }

  /** How many of the scalars take part: all of them once the heap has been extended. */
  ghost function Active(s: seq<nat>): (r: nat)
    requires |s| >= 5 && |s| % 2 == 1
    ensures r <= |s|
  {
    if WillExtend(s[..Half(|s|)]) then |s| else Half(|s|)
  }

  /** The scalars that the heap starts with. */
  function First(s: seq<nat>): seq<nat>
    requires |s| >= 5 && |s| % 2 == 1
  {
    s[..Half(|s|)]
  }

  /** What the run needs of its scalars: those brought in late fit the limbs then in use. */
  ghost predicate Suitable(s: seq<nat>)
    requires |s| >= 5 && |s| % 2 == 1
  {
    var half := Half(|s|);
    WillExtend(s[..half]) ==> LateFit(s, half, LateLimb(s, half))
  }

  /** When the scan of the last stage stays inside the scalar that is left. */
  ghost predicate ScanStays(s: seq<nat>)
    requires |s| >= 5 && |s| % 2 == 1
  {
    WillExtend(First(s)) || EndsInRange(First(s))
  }

  /** Some number is not a multiple of 2^224, or all are zero. */
  ghost predicate EndsInRange(s: seq<nat>) {
    (exists i :: 0 <= i < |s| && Scanned(s[i]) != 0) || forall i :: 0 <= i < |s| ==> s[i] == 0
  }

  lemma DividesPrefix(d: int, s: seq<nat>, half: nat)
    requires d > 0 && half <= |s| && DividesAll(d, s)
    ensures DividesAll(d, s[..half])
  {
  }

  /** The width in force when the heap is extended. */
  ghost function LateLimb(s: seq<nat>, half: nat): (r: nat)
    requires 2 <= half <= |s|
    ensures r <= 4
  {
    Members(s[..half]);
    ExtendLimb(multiset(s[..half]), 4)
  }

  lemma Members(s: seq<nat>)
    requires |s| >= 2
    ensures |multiset(s)| >= 2
  {
  }

  ghost predicate LateFit(s: seq<nat>, half: nat, limb: nat)
    requires limb <= 4
  {
    forall i :: half <= i < |s| ==> s[i] < Weight(limb + 1)
  }

  ghost predicate TopIndices(s: seq<nat>, i: nat, j: nat) {
    && i < |s| && j < |s| && i != j
    && (forall k :: 0 <= k < |s| ==> s[k] <= s[i])
    && (forall k :: 0 <= k < |s| && k != i ==> s[k] <= s[j])
  }

  /** The first size numbers have no limb above limbsize. */
  ghost predicate Fits(v: seq<nat>, size: nat, limbsize: nat)
    requires limbsize <= 4
  {
    size <= |v| && forall i :: 0 <= i < size ==> v[i] < Weight(limbsize + 1)
  }

  /** When the heap is extended, all numbers fit the limbs in use. */
  lemma LateScalarsFit(all: seq<nat>, s0: seq<nat>, half: nat, limbsize: nat)
    requires |s0| >= 5 && |s0| % 2 == 1 && half == Half(|s0|) && |s0| <= |all| && limbsize <= 4
    requires Suitable(s0) && WillExtend(s0[..half]) && LateLimb(s0, half) == limbsize
    requires Fits(all, half, limbsize) && all[..|s0|][half..] == s0[half..]
    ensures Fits(all, |s0|, limbsize)
  {
    hide WillExtend, ExtendLimb;
    forall k | half <= k < |s0|
      ensures all[k] == s0[k]
    {
      assert all[..|s0|][half..][k - half] == s0[half..][k - half];
    }
    assert LateFit(s0, half, limbsize);
  }

  // ----- exponents -----

  /** [k]q is neutral for every q among p. */
  ghost predicate Annihilates<T>(g: Group<T>, k: nat, p: seq<T>) {
    forall i :: 0 <= i < |p| ==> Times(g, k, p[i]) == g.zero
  }

  /** What annihilates p0 annihilates p. */
  ghost predicate Inherits<T>(g: Group<T>, p0: seq<T>, p: seq<T>) {
    forall k: nat :: Annihilates(g, k, p0) ==> Annihilates(g, k, p)
  }

  lemma StepInherits<T(!new)>(g: Group<T>, p0: seq<T>, p: seq<T>, i: nat, j: nat)
    requires Abelian(g) && Elements(g, p) && Inherits(g, p0, p) && i < |p| && j < |p|
    ensures Inherits(g, p0, p[j := g.add(p[j], p[i])])
  {
    hide Times, Abelian;
    forall k: nat | Annihilates(g, k, p0)
      ensures Annihilates(g, k, p[j := g.add(p[j], p[i])])
    {
      assert Annihilates(g, k, p);
      TimesOfSum(g, k, p[j], p[i]);
      Zero(g);
      Inverse(g, g.zero);
    }
  }

  lemma {:induction false} SumAnnihilated<T(!new)>(g: Group<T>, k: nat, s: seq<nat>, p: seq<T>)
    requires Abelian(g) && |s| == |p| && Elements(g, p) && Annihilates(g, k, p)
    ensures Times(g, k, SumOf(g, s, p)) == g.zero
  {
    hide Times, Abelian;
    TimesOfZero(g, k);
    if s != [] {
      var n := |s| - 1;
      SumAnnihilated(g, k, s[..n], p[..n]);
      SumElem(g, s[..n], p[..n]);
      TimesElem(g, s[n], p[n]);
      TimesOfSum(g, k, SumOf(g, s[..n], p[..n]), Times(g, s[n], p[n]));
      MultipleAnnihilated(g, k, s[n], p[n]);
      Zero(g);
      Inverse(g, g.zero);
    }
  }

  lemma MultipleAnnihilated<T(!new)>(g: Group<T>, k: nat, n: nat, a: T)
    requires Abelian(g) && g.elem(a) && Times(g, k, a) == g.zero
    ensures Times(g, k, Times(g, n, a)) == g.zero
  {
    hide Times, Abelian;
    TimesTimes(g, k, n, a);
    TimesTimes(g, n, k, a);
    Commute(k, n);
    TimesOfZero(g, n);
  }

  lemma Commute(k: int, n: int)
    ensures k * n == n * k
  {
  }

  // ----- the rounds -----

  /** What every round keeps, for scalars s and points p that started as s0 and p0. */
  ghost predicate Progress<T>(g: Group<T>, s: seq<nat>, p: seq<T>, s0: seq<nat>, p0: seq<T>, half: nat, extended: bool,
      limbsize: nat)
  {
    && |s| == |p| == |s0| == |p0| && 2 <= half <= |s| && limbsize <= 4
    && Elements(g, p) && Inherits(g, p0, p)
    && var size := if extended then |s| else half;
    && SumOf(g, s[..size], p[..size]) == SumOf(g, s0[..size], p0[..size])
    && SameDivisors(s[..size], s0[..size])
    && if extended then WillExtend(s0[..half]) else
      && s[half..] == s0[half..] && p[half..] == p0[half..]
      && SameCourse(s[..half], limbsize, s0[..half])
      && (s[..half] == s0[..half] || (TwoNonZero(s0[..half]) && (TwoNonZero(s[..half]) || SomeWide(s[..half]))))
  }

  ghost predicate SameCourse(s: seq<nat>, limbsize: nat, s0: seq<nat>)
    requires |s| == |s0| >= 2 && limbsize <= 4
  {
    Members(s);
    Members(s0);
    ExtendLimb(multiset(s), limbsize) == ExtendLimb(multiset(s0), 4)
  }

  /** Some number needs more than 128 bits. */
  ghost predicate SomeWide(s: seq<nat>) {
    exists i :: 0 <= i < |s| && s[i] >= 0x1_0000_0000_0000_0000_0000_0000_0000_0000
  }

  /** A step keeps the sum and the common divisors of the numbers in the heap. */
  lemma StepKeeps<T(!new)>(g: Group<T>, s: seq<nat>, p: seq<T>, size: nat, i: nat, j: nat)
    requires Abelian(g) && |s| == |p| && Elements(g, p) && size <= |s| && TopIndices(s[..size], i, j)
    ensures var s', p' := s[i := s[i] - s[j]], p[j := g.add(p[j], p[i])];
      && |p'| == |p| && Elements(g, p') && s'[size..] == s[size..] && p'[size..] == p[size..]
      && s'[..size] == s[..size][i := s[i] - s[j]]
      && SumOf(g, s'[..size], p'[..size]) == SumOf(g, s[..size], p[..size])
      && SameDivisors(s'[..size], s[..size])
  {
    hide SumOf, SameDivisors, Abelian;
    assert s[i] == s[..size][i] && s[j] == s[..size][j];
    var s', p' := s[i := s[i] - s[j]], p[j := g.add(p[j], p[i])];
    Sum(g, p[j], p[i]);
    var a, b := s[..size], p[..size];
    assert s'[..size] == a[i := a[i] - a[j]];
    assert p'[..size] == b[j := g.add(b[j], b[i])];
    ReduceKeepsSum(g, a, b, i, j);
    ReduceKeepsDivisors(a, i, j);
  }

  lemma SameDivisorsTwice(s: seq<nat>, t: seq<nat>, u: seq<nat>)
    requires SameDivisors(s, t) && SameDivisors(t, u)
    ensures SameDivisors(s, u)
  {
  }

  /** A round after the extension. */
  lemma StepAfter<T(!new)>(g: Group<T>, s: seq<nat>, p: seq<T>, s0: seq<nat>, p0: seq<T>, half: nat, width: nat,
      limbsize: nat, i: nat, j: nat)
    requires Abelian(g) && Progress(g, s, p, s0, p0, half, true, width) && TopIndices(s, i, j) && limbsize <= 4
    ensures Progress(g, s[i := s[i] - s[j]], p[j := g.add(p[j], p[i])], s0, p0, half, true, limbsize)
  {
    hide SumOf, SameDivisors, Abelian, Inherits;
    assert s[..|s|] == s;
    StepKeeps(g, s, p, |s|, i, j);
    StepInherits(g, p0, p, i, j);
    var s' := s[i := s[i] - s[j]];
    SameDivisorsTwice(s'[..|s|], s[..|s|], s0[..|s|]);
  }

  /** A round before the extension, while the largest number needs more than 128 bits. */
  lemma StepBefore<T(!new)>(g: Group<T>, s: seq<nat>, p: seq<T>, s0: seq<nat>, p0: seq<T>, half: nat, limbsize: nat,
      i: nat, j: nat)
    requires Abelian(g) && Progress(g, s, p, s0, p0, half, false, limbsize) && TopIndices(s[..half], i, j)
    requires s[j] > 0 && s[i] >= 0x1_0000_0000_0000_0000_0000_0000_0000_0000
    ensures Progress(g, s[i := s[i] - s[j]], p[j := g.add(p[j], p[i])], s0, p0, half, false, NextLimb(s[i], limbsize))
  {
    hide SumOf, SameDivisors, Abelian, SameCourse, TwoNonZero, SomeWide, Inherits;
    StepKeeps(g, s, p, half, i, j);
    StepInherits(g, p0, p, i, j);
    var s' := s[i := s[i] - s[j]];
    SameDivisorsTwice(s'[..half], s[..half], s0[..half]);
    CourseStep(s[..half], limbsize, s0[..half], i, j);
    TwoTopNonZero(s[..half], i, j);
    StillWide(s[..half], i, j);
  }

  lemma CourseStep(s: seq<nat>, limbsize: nat, s0: seq<nat>, i: nat, j: nat)
    requires |s| == |s0| >= 2 && limbsize <= 4 && SameCourse(s, limbsize, s0) && TopIndices(s, i, j)
    requires s[j] > 0 && s[i] >= 0x1_0000_0000_0000_0000_0000_0000_0000_0000
    ensures SameCourse(s[i := s[i] - s[j]], NextLimb(s[i], limbsize), s0)
  {
    hide MaxOf, SecondOf, BosCosterSpec.Reduced;
    TopTwo(s, i, j);
    Members(s);
  }

  lemma TwoTopNonZero(s: seq<nat>, i: nat, j: nat)
    requires TopIndices(s, i, j)
    ensures TwoNonZero(s) <==> s[j] > 0
  {
    if s[j] > 0 {
      assert s[i] != 0;
      if i < j { assert TwoNonZero(s); } else { assert TwoNonZero(s); }
    }
  }

  /** If a step leaves fewer than two nonzero numbers, the two largest were equal. */
  lemma StillWide(s: seq<nat>, i: nat, j: nat)
    requires TopIndices(s, i, j) && s[j] > 0 && s[i] >= 0x1_0000_0000_0000_0000_0000_0000_0000_0000
    ensures var t := s[i := s[i] - s[j]]; TwoNonZero(t) || SomeWide(t)
  {
    var t := s[i := s[i] - s[j]];
    assert t[j] == s[j];
    if t[i] != 0 {
      if i < j { assert TwoNonZero(t); } else { assert TwoNonZero(t); }
    }
  }

  /** Bringing in the other numbers when the largest has come down to 128 bits. */
  lemma Extending<T(!new)>(g: Group<T>, s: seq<nat>, p: seq<T>, s0: seq<nat>, p0: seq<T>, half: nat, limbsize: nat,
      i: nat, j: nat)
    requires Abelian(g) && Progress(g, s, p, s0, p0, half, false, limbsize) && TopIndices(s[..half], i, j)
    requires s[j] > 0 && s[i] < 0x1_0000_0000_0000_0000_0000_0000_0000_0000 && Elements(g, p0)
    ensures LateLimb(s0, half) == NextLimb(s[i], limbsize)
    ensures WillExtend(s0[..half]) && s[half..] == s0[half..]
    ensures Progress(g, s, p, s0, p0, half, true, NextLimb(s[i], limbsize))
  {
    hide SumOf, SameDivisors, Abelian, SameCourse, TwoNonZero, SomeWide, WillExtend, Elements, NextLimb, ExtendLimb,
      Inherits;
    assert s[i] == s[..half][i] && s[j] == s[..half][j];
    CourseEnds(s[..half], limbsize, s0[..half], i, j);
    TwoTopNonZero(s[..half], i, j);
    WidthOfDivisors(s[..half], s0[..half], i);
    SameTail(g, s, p, s0, p0, half);
    assert s[..|s|] == s && s0[..|s|] == s0 && p[..|s|] == p && p0[..|s|] == p0;
  }

  lemma TailDivisors(s: seq<nat>, s0: seq<nat>, half: nat)
    requires half <= |s| && half <= |s0| && s[half..] == s0[half..] && SameDivisors(s[..half], s0[..half])
    ensures SameDivisors(s, s0)
  {
    hide SameDivisors;
    assert s == s[..half] + s[half..] && s0 == s0[..half] + s[half..];
    DivisorsOfParts(s[..half], s0[..half], s[half..]);
  }

  lemma SameTail<T(!new)>(g: Group<T>, s: seq<nat>, p: seq<T>, s0: seq<nat>, p0: seq<T>, half: nat)
    requires Abelian(g) && |s| == |p| == |s0| == |p0| && half <= |s| && Elements(g, p) && Elements(g, p0)
    requires SumOf(g, s[..half], p[..half]) == SumOf(g, s0[..half], p0[..half]) && SameDivisors(s[..half], s0[..half])
    requires s[half..] == s0[half..] && p[half..] == p0[half..]
    ensures SumOf(g, s, p) == SumOf(g, s0, p0) && SameDivisors(s, s0)
  {
    hide SumOf, SameDivisors, Abelian;
    TailDivisors(s, s0, half);
    SumSplit(g, s, p, half);
    SumSplit(g, s0, p0, half);
  }

  lemma CourseEnds(s: seq<nat>, limbsize: nat, s0: seq<nat>, i: nat, j: nat)
    requires |s| == |s0| >= 2 && limbsize <= 4 && SameCourse(s, limbsize, s0) && TopIndices(s, i, j)
    requires s[j] > 0 && s[i] < 0x1_0000_0000_0000_0000_0000_0000_0000_0000
    ensures |multiset(s0)| >= 2 && ExtendLimb(multiset(s0), 4) == NextLimb(s[i], limbsize)
  {
    hide MaxOf, SecondOf, BosCosterSpec.Reduced;
    TopTwo(s, i, j);
    Members(s);
    Members(s0);
  }

  /** A common divisor is at most any nonzero member. */
  lemma WidthOfDivisors(s: seq<nat>, s0: seq<nat>, i: nat)
    requires SameDivisors(s, s0) && i < |s| && TwoNonZero(s0)
    requires 0 < s[i] < 0x1_0000_0000_0000_0000_0000_0000_0000_0000
    ensures WillExtend(s0)
  {
    forall d: int | d > 0 && DividesAll(d, s0)
      ensures d < 0x1_0000_0000_0000_0000_0000_0000_0000_0000
    {
      assert DividesAll(d, s);
      assert s[i] % d == 0;
      if d > s[i] {
        DivModUnique(s[i], d, 0, s[i]);
      }
    }
  }

  /** When one number is left, it is the greatest common divisor of those that took part, and
      its multiple of the point is their sum. */
  lemma Finishing<T(!new)>(g: Group<T>, s: seq<nat>, p: seq<T>, s0: seq<nat>, p0: seq<T>, extended: bool, limbsize: nat,
      i: nat, j: nat)
    requires Abelian(g) && |s0| >= 5 && |s0| % 2 == 1 && Progress(g, s, p, s0, p0, Half(|s0|), extended, limbsize)
    requires var size := if extended then |s| else Half(|s0|); TopIndices(s[..size], i, j) && s[j] == 0
    ensures var size := Active(s0);
      && g.elem(p[i]) && IsGcd(s[i], s0[..size]) && Times(g, s[i], p[i]) == SumOf(g, s0[..size], p0[..size])
      && forall k: nat :: Annihilates(g, k, p0) ==> Times(g, k, p[i]) == g.zero
  {
    hide SumOf, SameDivisors, Abelian, SameCourse, TwoNonZero, SomeWide, WillExtend, IsGcd, Inherits;
    var half := Half(|s0|);
    var size := if extended then |s| else half;
    assert s[i] == s[..size][i] && s[j] == s[..size][j];
    LoneEntryIsGcd(s[..size], s0[..size], i);
    LoneEntrySum(g, s[..size], p[..size], i);
    EntryInherits(g, p0, p, i);
    if !extended {
      TwoTopNonZero(s[..half], i, j);
      NoExtension(s[..half], s0[..half], i);
    }
  }

  lemma NoExtension(s: seq<nat>, s0: seq<nat>, i: nat)
    requires SameDivisors(s, s0) && i < |s| && IsGcd(s[i], s0) && forall k :: 0 <= k < |s| ==> s[k] <= s[i]
    requires !TwoNonZero(s) && (s == s0 || SomeWide(s))
    ensures !WillExtend(s0)
  {
    if SomeWide(s) {
      assert s[i] % s[i] == 0;
      assert DividesAll(s[i], s0);
    }
  }

  lemma Start<T>(g: Group<T>, s: seq<nat>, p: seq<T>, half: nat)
    requires |s| == |p| && 2 <= half <= |s| && Elements(g, p)
    ensures Progress(g, s, p, s, p, half, false, 4)
  {
  }

  /** One step lowers the total of the numbers in the heap. */
  lemma StepLowers(s: seq<nat>, i: nat, j: nat)
    requires TopIndices(s, i, j) && s[j] > 0
    ensures Total(multiset(s[i := s[i] - s[j]])) < Total(multiset(s))
  {
    hide MaxOf, SecondOf, BosCosterSpec.Reduced, Total;
    TopTwo(s, i, j);
    ReducedTotal(multiset(s));
  }

  lemma EntryInherits<T>(g: Group<T>, p0: seq<T>, p: seq<T>, i: nat)
    requires Inherits(g, p0, p) && i < |p|
    ensures forall k: nat :: Annihilates(g, k, p0) ==> Times(g, k, p[i]) == g.zero
  {
  }

  // ----- greatest common divisors and the scan of the last stage -----

  function Euclid(a: nat, b: nat): nat
    decreases b
  {
    if b == 0 then a else Euclid(b, a % b)
  }

  lemma {:induction false} EuclidDivisors(a: nat, b: nat, d: int)
    requires d > 0
    ensures a % d == 0 && b % d == 0 <==> Euclid(a, b) % d == 0
    decreases b
  {
    if b > 0 {
      EuclidDivisors(b, a % b, d);
      if b % d == 0 {
        MultipleOfMultiple(a / b, b, d);
        DivisorOfDifference(d, a, a / b * b);
        assert a - a / b * b == a % b;
      }
    }
  }

  lemma MultipleOfMultiple(q: int, b: int, d: int)
    requires d > 0 && b % d == 0
    ensures q * b % d == 0
  {
    var c := b / d;
    assert q * b == d * (q * c);
    DivModUnique(q * b, d, q * c, 0);
  }

  function GcdOf(s: seq<nat>): nat {
    if s == [] then 0 else Euclid(GcdOf(s[..|s| - 1]), s[|s| - 1])
  }

  /** Every sequence has a greatest common divisor. */
  lemma {:induction false} GcdOfIsGcd(s: seq<nat>)
    ensures IsGcd(GcdOf(s), s)
  {
    if s == [] {
      assert forall d: int :: d > 0 ==> DividesAll(d, s);
    } else {
      var n := |s| - 1;
      GcdOfIsGcd(s[..n]);
      forall d: int | d > 0
        ensures DividesAll(d, s) <==> GcdOf(s) % d == 0
      {
        EuclidDivisors(GcdOf(s[..n]), s[n], d);
        DividesLast(d, s);
      }
    }
  }

  lemma DividesLast(d: int, s: seq<nat>)
    requires d > 0 && |s| > 0
    ensures DividesAll(d, s) <==> DividesAll(d, s[..|s| - 1]) && s[|s| - 1] % d == 0
  {
    var n := |s| - 1;
    if DividesAll(d, s[..n]) && s[n] % d == 0 {
      forall i | 0 <= i < |s|
        ensures s[i] % d == 0
      {
        if i < n { assert s[..n][i] == s[i]; }
      }
    }
  }

  lemma GcdDivides(n: nat, s: seq<nat>)
    requires IsGcd(n, s)
    ensures n > 0 ==> DividesAll(n, s)
  {
  }

  lemma DivisorAtMost(x: nat, n: nat)
    requires x > 0 && n > 0 && x % n == 0
    ensures n <= x
  {
    if n > x {
      DivModUnique(x, n, 0, x);
    }
  }

  lemma GcdIsUnique(m: nat, n: nat, s: seq<nat>)
    requires IsGcd(m, s) && IsGcd(n, s)
    ensures m == n
  {
    GcdDivides(m, s);
    GcdDivides(n, s);
    if m > 0 && n > 0 {
      DivisorAtMost(m, n);
      DivisorAtMost(n, m);
    } else {
      GcdZero(m, s);
      GcdZero(n, s);
    }
  }

  /** The greatest common divisor is zero exactly if all numbers are. */
  lemma GcdZero(n: nat, s: seq<nat>)
    requires IsGcd(n, s)
    ensures n == 0 <==> forall i :: 0 <= i < |s| ==> s[i] == 0
  {
    if i :| 0 <= i < |s| && s[i] != 0 {
      DivModUnique(s[i], s[i] + 1, 0, s[i]);
      assert !DividesAll(s[i] + 1, s);
      assert n % (s[i] + 1) != 0;
    } else {
      assert DividesAll(n + 1, s);
      DivModUnique(n, n + 1, 0, n);
    }
  }

  /** The greatest common divisor is at most any nonzero number. */
  lemma GcdBelow(n: nat, s: seq<nat>, bound: nat)
    requires IsGcd(n, s) && bound > 0 && forall i :: 0 <= i < |s| ==> s[i] < bound
    ensures n < bound
  {
    GcdZero(n, s);
    GcdDivides(n, s);
    if n > 0 {
      var i :| 0 <= i < |s| && s[i] != 0;
      DivisorAtMost(s[i], n);
    }
  }

  /** The scan stays inside the scalar that is left exactly if some number is not a multiple
      of 2^224 or all are zero. */
  lemma RangeIsExact(s: seq<nat>, n: nat)
    requires IsGcd(n, s)
    ensures EndsInRange(s) <==> n <= 1 || Scanned(n) != 0
  {
    GcdZero(n, s);
    GcdDivides(n, s);
    assert DividesAll(Weight(4), s) <==> Scanned(n) == 0;
    assert DividesAll(Weight(4), s) <==> forall i :: 0 <= i < |s| ==> Scanned(s[i]) == 0;
  }

  /** 2^224 alone is a scalar on which the scan would leave its limbs. */
  lemma RangeExample()
    ensures var s: seq<nat> := [Weight(4), 0, 0, 0, 0];
      !ScanStays(s) && Suitable(s) && Weight(4) < Modm64.L
  {
    var s: seq<nat> := [Weight(4), 0, 0, 0, 0];
    assert Half(5) == 3;
    var t := s[..3];
    assert t == [Weight(4), 0, 0];
    assert !TwoNonZero(t);
    assert t[0] != 0;
  }

  // ----- what the run returns -----

  ghost function ActiveSum<T>(g: Group<T>, s: seq<nat>, points: seq<T>): T
    requires |s| == |points| >= 5 && |s| % 2 == 1
  {
    SumOf(g, s[..Active(s)], points[..Active(s)])
  }

  /** The sum for the scalars that the heap starts with. */
  ghost function FirstSum<T>(g: Group<T>, s: seq<nat>, points: seq<T>): T
    requires |s| == |points| >= 5 && |s| % 2 == 1
  {
    SumOf(g, First(s), points[..Half(|s|)])
  }

  /** What takes part: everything after an extension, and only the first scalars before it. */
  lemma ActiveSumIs<T>(g: Group<T>, s: seq<nat>, points: seq<T>)
    requires |s| == |points| >= 5 && |s| % 2 == 1
    ensures WillExtend(s[..Half(|s|)]) ==> ActiveSum(g, s, points) == SumOf(g, s, points)
    ensures !WillExtend(s[..Half(|s|)]) ==> ActiveSum(g, s, points) == SumOf(g, s[..Half(|s|)], points[..Half(|s|)])
  {
    hide WillExtend, SumOf;
    assert s[..|s|] == s && points[..|s|] == points;
  }

  /** n is the greatest common divisor of the scalars that took part, [n]p their sum, p has
      every exponent that all points have, and r is what the last stage makes of n and p. */
  ghost predicate RunEnds<T>(g: Group<T>, s: seq<nat>, points: seq<T>, r: T, n: nat, p: T)
    requires |s| == |points| >= 5 && |s| % 2 == 1
  {
    && g.elem(p) && IsGcd(n, s[..Active(s)]) && Times(g, n, p) == ActiveSum(g, s, points)
    && (forall k: nat :: Annihilates(g, k, points) ==> Times(g, k, p) == g.zero)
    && r == FinalValue(g, n, p)
  }

  ghost predicate RunResult<T(!new)>(g: Group<T>, s: seq<nat>, points: seq<T>, r: T)
    requires |s| == |points| >= 5 && |s| % 2 == 1
  {
    exists n: nat, p: T :: RunEnds(g, s, points, r, n, p)
  }

  /** ScanStays says exactly whether the last stage stays inside the scalar that is left. */
  lemma LastScalar(s: seq<nat>, n: nat)
    requires |s| >= 5 && |s| % 2 == 1 && IsGcd(n, s[..Active(s)])
    ensures ScanStays(s) <==> n <= 1 || Scanned(n) != 0
  {
    hide WillExtend, EndsInRange;
    var half := Half(|s|);
    if WillExtend(s[..half]) {
      assert s[..|s|] == s;
      ExtendedIsSmall(s, half, n);
    } else {
      RangeIsExact(s[..half], n);
    }
  }

  /** After an extension the scalar left at the end has at most 128 bits. */
  lemma ExtendedIsSmall(s: seq<nat>, half: nat, n: nat)
    requires half <= |s| && WillExtend(s[..half]) && IsGcd(n, s)
    ensures n < 0x1_0000_0000_0000_0000_0000_0000_0000_0000 && Scanned(n) == n
  {
    GcdDivides(n, s);
    if n > 0 {
      DividesPrefix(n, s, half);
    }
  }

  /** In any group: with greatest common divisor n of the scalars that took part, [n]r is the
      last multiplier times their sum, and r is that sum if n is at most 1. */
  lemma ResultOfGcd<T(!new)>(g: Group<T>, s: seq<nat>, points: seq<T>, r: T, n: nat)
    requires Abelian(g) && |s| == |points| >= 5 && |s| % 2 == 1 && RunResult(g, s, points, r)
    requires IsGcd(n, s[..Active(s)])
    ensures g.elem(r) && Times(g, n, r) == Times(g, LastMultiplier(n), ActiveSum(g, s, points))
    ensures n <= 1 ==> r == ActiveSum(g, s, points)
  {
    hide Abelian, IsGcd, ActiveSum, Times, LastMultiplier, Active;
    var m: nat, p: T :| RunEnds(g, s, points, r, m, p);
    GcdIsUnique(m, n, s[..Active(s)]);
    var k := LastMultiplier(n);
    TimesElem(g, k, p);
    TimesTimes(g, n, k, p);
    TimesTimes(g, k, n, p);
    Commute(k, n);
    SmallMultiplier(n);
  }

  lemma SmallMultiplier(n: nat)
    ensures n <= 1 ==> LastMultiplier(n) == n
  {
  }

  /** If the heap is extended and only 1 divides all the scalars, the result is their sum. */
  lemma WholeSum<T(!new)>(g: Group<T>, s: seq<nat>, points: seq<T>, r: T)
    requires Abelian(g) && |s| == |points| >= 5 && |s| % 2 == 1 && RunResult(g, s, points, r)
    requires WillExtend(s[..Half(|s|)]) && forall d: int :: d > 1 ==> !DividesAll(d, s)
    ensures r == SumOf(g, s, points)
  {
    hide Abelian, SumOf, WillExtend, RunResult;
    assert s[..|s|] == s && points[..|s|] == points;
    var n := GcdOf(s);
    GcdOfIsGcd(s);
    GcdDivides(n, s);
    ResultOfGcd(g, s, points, r, n);
  }

  /** In a group whose exponent is a prime above the scalars: the result is neutral exactly if
      the sum of the scalars that took part is, and it is that sum exactly if the last
      multiplier is their greatest common divisor n or the sum is neutral. */
  lemma ResultInPrimeGroup<T(!new)>(g: Group<T>, order: nat, s: seq<nat>, points: seq<T>, r: T, n: nat)
    requires Abelian(g) && |s| == |points| >= 5 && |s| % 2 == 1 && RunResult(g, s, points, r)
    requires Prime(order) && Annihilates(g, order, points) && order > Weight(4) * 2
    requires IsGcd(n, s[..Active(s)]) && forall i :: 0 <= i < Active(s) ==> s[i] < order
    ensures r == g.zero <==> ActiveSum(g, s, points) == g.zero
    ensures r == ActiveSum(g, s, points) <==> LastMultiplier(n) == n || ActiveSum(g, s, points) == g.zero
  {
    hide Abelian, IsGcd, ActiveSum, Times, LastMultiplier, Active, Prime, FinalValue;
    var m: nat, p: T :| RunEnds(g, s, points, r, m, p);
    var t := s[..Active(s)];
    GcdIsUnique(m, n, t);
    GcdBelow(n, t, order);
    LastMultiplierBound(n);
    FinalInPrimeGroup(g, order, n, p);
    ZeroTimes(g, order, n, p);
  }

  lemma NeutralResult<T(!new)>(g: Group<T>, order: nat, s: seq<nat>, points: seq<T>, r: T)
    requires Abelian(g) && |s| == |points| >= 5 && |s| % 2 == 1 && RunResult(g, s, points, r)
    requires Prime(order) && Annihilates(g, order, points) && order > Weight(4) * 2 && forall i :: 0 <= i < |s| ==>
      s[i] < order
    ensures r == g.zero <==> ActiveSum(g, s, points) == g.zero
  {
    hide Abelian, IsGcd, ActiveSum, Active, Prime, RunResult, Annihilates, LastMultiplier, GcdOf;
    var n := GcdOf(s[..Active(s)]);
    GcdOfIsGcd(s[..Active(s)]);
    ResultInPrimeGroup(g, order, s, points, r, n);
  }

  lemma ZeroTimes<T(!new)>(g: Group<T>, order: nat, n: nat, p: T)
    requires Abelian(g) && g.elem(p) && Prime(order) && Times(g, order, p) == g.zero && n < order
    ensures Times(g, n, p) == g.zero <==> n == 0 || p == g.zero
    ensures LastMultiplier(0) == 0
  {
    hide Times, Abelian, Prime;
    NoMultiple(g, p);
    if n > 0 {
      PrimeOrder(g, order, n, p);
    }
  }

  // ----- the end before the extension -----

  /** If the loop ends before the extension and at most 1 divides the first scalars, the result
      is the whole sum exactly if the late scalars sum to the neutral element. */
  lemma EarlyExit<T(!new)>(g: Group<T>, s: seq<nat>, points: seq<T>, r: T, n: nat)
    requires Abelian(g) && |s| == |points| >= 5 && |s| % 2 == 1 && Elements(g, points) && RunResult(g, s, points, r)
    requires !WillExtend(s[..Half(|s|)]) && IsGcd(n, s[..Half(|s|)]) && n <= 1
    ensures var half := Half(|s|);
      r == SumOf(g, s, points) <==> SumOf(g, s[half..], points[half..]) == g.zero
  {
    hide WillExtend, SumOf, Abelian, RunResult, IsGcd;
    var half := Half(|s|);
    ResultOfGcd(g, s, points, r, n);
    var a, b := SumOf(g, s[..half], points[..half]), SumOf(g, s[half..], points[half..]);
    SumElem(g, s[..half], points[..half]);
    SumElem(g, s[half..], points[half..]);
    SumSplit(g, s, points, half);
    Zero(g);
    Inverse(g, a);
    if g.add(a, b) == a {
      Sum(g, a, b);
      Cancel(g, b, a, a);
    }
  }

  /** For a larger divisor n, in a group whose exponent is a prime above it: exactly if n times
      the whole sum is the last multiplier times the sum of the first scalars. */
  lemma EarlyExitInPrimeGroup<T(!new)>(g: Group<T>, order: nat, s: seq<nat>, points: seq<T>, r: T, n: nat)
    requires Abelian(g) && |s| == |points| >= 5 && |s| % 2 == 1 && Elements(g, points) && RunResult(g, s, points, r)
    requires !WillExtend(s[..Half(|s|)]) && IsGcd(n, s[..Half(|s|)]) && 0 < n < order
    requires Prime(order) && Annihilates(g, order, points)
    ensures var half := Half(|s|);
      r == SumOf(g, s, points)
      <==> Times(g, n, SumOf(g, s, points)) == Times(g, LastMultiplier(n), SumOf(g, s[..half], points[..half]))
  {
    hide WillExtend, SumOf, Abelian, IsGcd, Times, LastMultiplier, FinalValue, Prime, RunResult, Annihilates;
    ResultOfGcd(g, s, points, r, n);
    ResultAnnihilated(g, order, s, points, r);
    SumAnnihilated(g, order, s, points);
    SumElem(g, s, points);
    TimesInjective(g, order, n, r, SumOf(g, s, points));
  }

  lemma ResultAnnihilated<T(!new)>(g: Group<T>, order: nat, s: seq<nat>, points: seq<T>, r: T)
    requires Abelian(g) && |s| == |points| >= 5 && |s| % 2 == 1 && RunResult(g, s, points, r)
      && Annihilates(g, order, points)
    ensures Times(g, order, r) == g.zero
  {
    hide Abelian, IsGcd, ActiveSum, Times, LastMultiplier, Active, Annihilates;
    var m: nat, p: T :| RunEnds(g, s, points, r, m, p);
    MultipleAnnihilated(g, order, LastMultiplier(m), p);
  }

  lemma TimesInjective<T(!new)>(g: Group<T>, order: nat, n: nat, a: T, b: T)
    requires Abelian(g) && g.elem(a) && g.elem(b) && Prime(order) && 0 < n < order
    requires Times(g, order, a) == g.zero && Times(g, order, b) == g.zero
    ensures Times(g, n, a) == Times(g, n, b) <==> a == b
  {
    hide Abelian, Times, Prime;
    var c := g.add(a, g.neg(b));
    Inverse(g, b);
    Sum(g, a, g.neg(b));
    DifferenceTimes(g, n, a, b);
    DifferenceTimes(g, order, a, b);
    Zero(g);
    Inverse(g, g.zero);
    TimesElem(g, n, b);
    Inverse(g, Times(g, n, b));
    NegZero(g);
    PrimeOrder(g, order, n, c);
    if c == g.zero {
      Cancel(g, a, g.neg(b), g.zero);
      NegNeg(g, b);
    }
  }

  lemma DifferenceTimes<T(!new)>(g: Group<T>, n: nat, a: T, b: T)
    requires Abelian(g) && g.elem(a) && g.elem(b)
    ensures Times(g, n, g.add(a, g.neg(b))) == g.add(Times(g, n, a), g.neg(Times(g, n, b)))
  {
    hide Abelian, Times;
    Inverse(g, b);
    TimesOfSum(g, n, a, g.neg(b));
    TimesNeg(g, n, b);
  }

  // ----- examples -----

  /** If [n]x = [n]y and both have an exponent prime to n, then x = y. */
  lemma CoprimeInjective<T(!new)>(g: Group<T>, n: nat, order: nat, u: nat, v: nat, x: T, y: T)
    requires Abelian(g) && g.elem(x) && g.elem(y) && Times(g, n, x) == Times(g, n, y) && u * n == v * order + 1
    requires Times(g, order, x) == g.zero && Times(g, order, y) == g.zero
    ensures x == y
  {
    hide Abelian, Times;
    OneMoreThanExponent(g, n, order, u, v, x);
    OneMoreThanExponent(g, n, order, u, v, y);
  }

  lemma OneMoreThanExponent<T(!new)>(g: Group<T>, n: nat, order: nat, u: nat, v: nat, x: T)
    requires Abelian(g) && g.elem(x) && u * n == v * order + 1 && Times(g, order, x) == g.zero
    ensures Times(g, u, Times(g, n, x)) == x
  {
    hide Abelian, Times;
    TimesTimes(g, u, n, x);
    TimesTimes(g, v, order, x);
    TimesOfZero(g, v);
    OnePoint(g, x);
    TimesAdd(g, v * order, 1, x);
    Inverse(g, x);
  }

  /** A sum with one nonzero term, the first. */
  lemma {:induction false} OneTerm<T(!new)>(g: Group<T>, s: seq<nat>, p: seq<T>)
    requires Abelian(g) && |s| == |p| > 0 && g.elem(p[0]) && forall i :: 1 <= i < |s| ==> p[i] == g.zero
    ensures SumOf(g, s, p) == Times(g, s[0], p[0])
    decreases |s|
  {
    hide Abelian, Times;
    var n := |s| - 1;
    TimesElem(g, s[0], p[0]);
    Inverse(g, Times(g, s[0], p[0]));
    if n == 0 {
      assert SumOf(g, s[..0], p[..0]) == g.zero;
    } else {
      OneTerm(g, s[..n], p[..n]);
      TimesOfZero(g, s[n]);
    }
  }

  /** A common exponent of a, 0, ..., 0 is one of a, and so one of the last point. */
  lemma Exponents<T(!new)>(g: Group<T>, order: nat, points: seq<T>)
    requires Abelian(g) && points != [] && Times(g, order, points[0]) == g.zero
    requires forall i :: 1 <= i < |points| ==> points[i] == points[0] || points[i] == g.zero
    ensures Annihilates(g, order, points)
  {
    hide Abelian, Times;
    TimesOfZero(g, order);
  }

  /** What a run on one point a of odd exponent returns, if n is the greatest common divisor of
      the scalars that took part and their sum is [n]a: the last stage on n and a. */
  lemma RunOnOnePoint<T(!new)>(g: Group<T>, s: seq<nat>, points: seq<T>, a: T, n: nat, order: nat, u: nat, v: nat, r: T)
    requires Abelian(g) && |s| == |points| >= 5 && |s| % 2 == 1 && g.elem(a) && points[0] == a
    requires forall i :: 1 <= i < |s| ==> points[i] == a || points[i] == g.zero
    requires IsGcd(n, s[..Active(s)]) && ActiveSum(g, s, points) == Times(g, n, a)
    requires u * n == v * order + 1 && Times(g, order, a) == g.zero
    ensures RunResult(g, s, points, r) <==> r == FinalValue(g, n, a)
  {
    hide Abelian, IsGcd, ActiveSum, Times, FinalValue, Active;
    Exponents(g, order, points);
    if RunResult(g, s, points, r) {
      var m: nat, p: T :| RunEnds(g, s, points, r, m, p);
      GcdIsUnique(m, n, s[..Active(s)]);
      CoprimeInjective(g, n, order, u, v, p, a);
    }
    forall k: nat | Annihilates(g, k, points)
      ensures Times(g, k, a) == g.zero
    {
      assert points[0] == a;
    }
    assert RunEnds(g, s, points, FinalValue(g, n, a), n, a);
  }

  /** Five scalars 2 on a point a of odd exponent and four neutral ones: the run returns [6]a and
      nothing else.  The sum is [2]a. */
  lemma LastStageExample<T(!new)>(g: Group<T>, order: nat, a: T, r: T)
    requires Abelian(g) && g.elem(a) && order % 2 == 1 && Times(g, order, a) == g.zero
    ensures var s: seq<nat>, p := [2, 2, 2, 2, 2], [a, g.zero, g.zero, g.zero, g.zero];
      && (RunResult(g, s, p, r) <==> r == Times(g, 6, a))
      && SumOf(g, s, p) == Times(g, 2, a)
      && (Times(g, 6, a) == Times(g, 2, a) <==> a == g.zero)
  {
    hide Abelian, Times, SumOf, RunResult, IsGcd, Active, LastMultiplier;
    var s: seq<nat>, p := [2, 2, 2, 2, 2], [a, g.zero, g.zero, g.zero, g.zero];
    OneTerm(g, s, p);
    ExampleActive();
    assert s[..5] == s && p[..5] == p;
    ExampleMultiplier();
    RunOnOnePoint(g, s, p, a, 2, order, order / 2 + 1, 1, r);
    FinalInOddGroup(g, order, 2, a);
  }

  lemma ExampleActive()
    ensures var s: seq<nat> := [2, 2, 2, 2, 2]; Active(s) == 5 && IsGcd(2, s)
  {
    var s: seq<nat> := [2, 2, 2, 2, 2];
    assert Half(5) == 3;
    var t := s[..3];
    assert t == [2, 2, 2];
    assert t[0] != 0 && t[1] != 0;
    assert TwoNonZero(t);
    forall d: int | d > 0
      ensures DividesAll(d, s) <==> 2 % d == 0
      ensures DividesAll(d, t) ==> d < 0x1_0000_0000_0000_0000_0000_0000_0000_0000
    {
      if DividesAll(d, s) { assert s[0] % d == 0; }
      if DividesAll(d, t) {
        assert t[0] % d == 0;
        DivisorAtMost(2, d);
      }
    }
  }

  lemma ExampleMultiplier()
    ensures LastMultiplier(2) == 6
  {
    hide BitLen;
    BitLenStep(0);
    BitLenStep(1);
    BitLenStep(2);
  }

  /** With first scalars 1, 0, 0 the loop ends before the extension, and the late term is lost:
      on a, 0, 0, a, 0 the run returns a and nothing else.  The sum is a + a. */
  lemma EarlyExitExample<T(!new)>(g: Group<T>, a: T, r: T)
    requires Abelian(g) && g.elem(a)
    ensures var s: seq<nat>, p := [1, 0, 0, 1, 0], [a, g.zero, g.zero, a, g.zero];
      && (RunResult(g, s, p, r) <==> r == a)
      && SumOf(g, s, p) == g.add(a, a)
      && (g.add(a, a) == a <==> a == g.zero)
  {
    hide Abelian, Times, SumOf, RunResult, IsGcd, Active, ActiveSum, LastMultiplier;
    var s: seq<nat>, p := [1, 0, 0, 1, 0], [a, g.zero, g.zero, a, g.zero];
    EarlySums(g, a);
    FirstIsGcd(1);
    OnePoint(g, a);
    SmallMultiplier(1);
    RunOfOne(g, s, p, a, r);
    Inverse(g, a);
    if g.add(a, a) == a {
      Cancel(g, a, a, a);
    }
  }

  /** With greatest common divisor 1 and sum a, the run returns a and nothing else. */
  lemma RunOfOne<T(!new)>(g: Group<T>, s: seq<nat>, points: seq<T>, a: T, r: T)
    requires Abelian(g) && |s| == |points| >= 5 && |s| % 2 == 1 && g.elem(a) && points[0] == a
    requires IsGcd(1, s[..Active(s)]) && ActiveSum(g, s, points) == a
    ensures RunResult(g, s, points, r) <==> r == a
  {
    hide Abelian, IsGcd, ActiveSum, Times, Active, LastMultiplier;
    OnePoint(g, a);
    SmallMultiplier(1);
    if RunResult(g, s, points, r) {
      ResultOfGcd(g, s, points, r, 1);
    }
    forall k: nat | Annihilates(g, k, points)
      ensures Times(g, k, a) == g.zero
    {
      assert points[0] == a;
    }
    assert RunEnds(g, s, points, a, 1, a);
  }

  lemma EarlySums<T(!new)>(g: Group<T>, a: T)
    requires Abelian(g) && g.elem(a)
    ensures var s: seq<nat>, p := [1, 0, 0, 1, 0], [a, g.zero, g.zero, a, g.zero];
      && s[..Active(s)] == [1, 0, 0] && ActiveSum(g, s, p) == a
      && SumOf(g, s, p) == g.add(a, a)
  {
    hide Abelian, Times, WillExtend;
    var s: seq<nat>, p := [1, 0, 0, 1, 0], [a, g.zero, g.zero, a, g.zero];
    OnePoint(g, a);
    assert Half(5) == 3;
    LoneFirst(1);
    assert s[..3] == [1, 0, 0] && p[..3] == [a, g.zero, g.zero];
    OneTerm(g, s[..3], p[..3]);
    assert s[..4][..3] == s[..3] && p[..4][..3] == p[..3] && s[..4] == [1, 0, 0, 1] && p[..4] == [a, g.zero, g.zero, a];
    assert SumOf(g, s[..4], p[..4]) == g.add(SumOf(g, s[..3], p[..3]), Times(g, 1, a));
    assert SumOf(g, s, p) == g.add(SumOf(g, s[..4], p[..4]), Times(g, 0, g.zero));
    TimesOfZero(g, 0);
    Sum(g, a, a);
    Inverse(g, g.add(a, a));
  }

  lemma LoneFirst(n: nat)
    ensures !WillExtend([n, 0, 0])
  {
    assert !TwoNonZero([n, 0, 0]);
  }

  lemma FirstIsGcd(n: nat)
    requires n > 0
    ensures IsGcd(n, [n, 0, 0])
  {
    var t: seq<nat> := [n, 0, 0];
    forall d: int | d > 0
      ensures DividesAll(d, t) <==> n % d == 0
    {
      if DividesAll(d, t) { assert t[0] % d == 0; }
    }
  }

  /** A lone first scalar 5 on a point a whose exponent is prime to 5 ends the loop at once, and
      the run returns [13]a and nothing else.  No term is lost, and still the sum is [5]a. */
  lemma LoneScalarExample<T(!new)>(g: Group<T>, order: nat, a: T, r: T)
    requires Abelian(g) && g.elem(a) && order % 5 != 0 && Times(g, order, a) == g.zero
    ensures var s: seq<nat>, p := [5, 0, 0, 0, 0], [a, g.zero, g.zero, g.zero, g.zero];
      && (RunResult(g, s, p, r) <==> r == Times(g, 13, a))
      && SumOf(g, s, p) == Times(g, 5, a)
      && (Times(g, 13, a) == Times(g, 5, a) <==> Times(g, 8, a) == g.zero)
  {
    hide Abelian, Times, SumOf, RunResult, IsGcd, Active, ActiveSum, LastMultiplier;
    var s: seq<nat>, p := [5, 0, 0, 0, 0], [a, g.zero, g.zero, g.zero, g.zero];
    LoneSums(g, a);
    FirstIsGcd(5);
    MultiplierOfFive();
    var v := InverseModFive(order);
    RunOnOnePoint(g, s, p, a, 5, order, (v * order + 1) / 5, v, r);
    FinalIsMultiple(g, 5, a);
  }

  lemma InverseModFive(order: nat) returns (v: nat)
    requires order % 5 != 0
    ensures (v * order + 1) % 5 == 0 && v * order >= 0
  {
    var q, m := order / 5, order % 5;
    v := if m == 1 then 4 else if m == 2 then 2 else if m == 3 then 3 else 1;
    assert v * order == 5 * (v * q) + v * m;
    assert v * m + 1 == 5 * (if m == 3 then 2 else 1) by {
      assert m == 1 || m == 2 || m == 3 || m == 4;
    }
    DivModUnique(v * order + 1, 5, v * q + (if m == 3 then 2 else 1), 0);
  }

  lemma LoneSums<T(!new)>(g: Group<T>, a: T)
    requires Abelian(g) && g.elem(a)
    ensures var s: seq<nat>, p := [5, 0, 0, 0, 0], [a, g.zero, g.zero, g.zero, g.zero];
      && s[..Active(s)] == [5, 0, 0] && ActiveSum(g, s, p) == Times(g, 5, a)
      && SumOf(g, s, p) == Times(g, 5, a)
  {
    hide Abelian, Times, WillExtend, SumOf;
    var s: seq<nat>, p := [5, 0, 0, 0, 0], [a, g.zero, g.zero, g.zero, g.zero];
    assert Half(5) == 3;
    LoneFirst(5);
    assert s[..3] == [5, 0, 0] && p[..3] == [a, g.zero, g.zero];
    OneTerm(g, s[..3], p[..3]);
    OneTerm(g, s, p);
  }

  lemma BitLenStep(m: nat)
    ensures BitLen(m) == if m == 0 then 0 else 1 + BitLen(m / 2)
  {
  }

  lemma MultiplierOfFive()
    ensures LastMultiplier(5) == 13
  {
    hide BitLen;
    BitLenStep(0);
    BitLenStep(1);
    BitLenStep(2);
    BitLenStep(5);
  }

  // ----- late scalars -----

  /** Numbers of at most 168 bits may be brought in late, whatever the first ones are. */
  lemma LateScalarsOf168Bits(s: seq<nat>)
    requires |s| >= 5 && |s| % 2 == 1 && forall i :: Half(|s|) <= i < |s| ==> s[i] < Weight(3)
    ensures LateFit(s, Half(|s|), LateLimb(s, Half(|s|)))
  {
    var half := Half(|s|);
    Members(s[..half]);
    LateWidth(multiset(s[..half]), 4);
    WeightMono(3, LateLimb(s, half) + 1);
  }
}
