/** Multiples in an abstract abelian group. */
module AbelianGroup {
  /** A group given by its operations on the elements that satisfy elem. */
  datatype Group<!T> = Group(elem: T -> bool, zero: T, add: (T, T) -> T, neg: T -> T)

  /** The laws at given elements; quantifying over these keeps the solver from chaining them. */
  ghost predicate SumLaw<T>(g: Group<T>, a: T, b: T) {
    g.elem(a) && g.elem(b) ==> g.elem(g.add(a, b)) && g.add(a, b) == g.add(b, a)
  }

  ghost predicate InverseLaw<T>(g: Group<T>, a: T) {
    g.elem(a) ==> g.elem(g.neg(a)) && g.add(a, g.zero) == a && g.add(a, g.neg(a)) == g.zero
  }

  ghost predicate AssociativeLaw<T>(g: Group<T>, a: T, b: T, c: T) {
    g.elem(a) && g.elem(b) && g.elem(c) ==> g.add(g.add(a, b), c) == g.add(a, g.add(b, c))
  }

  ghost predicate Associative<T(!new)>(g: Group<T>) {
    forall a, b, c :: AssociativeLaw(g, a, b, c)
  }

  ghost predicate Abelian<T(!new)>(g: Group<T>) {
    && g.elem(g.zero)
    && (forall a, b :: SumLaw(g, a, b))
    && (forall a :: InverseLaw(g, a))
    && Associative(g)
  }

  lemma Sum<T(!new)>(g: Group<T>, a: T, b: T)
    requires Abelian(g) && g.elem(a) && g.elem(b)
    ensures g.elem(g.add(a, b)) && g.add(a, b) == g.add(b, a)
  {
    assert SumLaw(g, a, b);
  }

  lemma Zero<T(!new)>(g: Group<T>)
    requires Abelian(g)
    ensures g.elem(g.zero)
  {
  }

  lemma Inverse<T(!new)>(g: Group<T>, a: T)
    requires Abelian(g) && g.elem(a)
    ensures g.elem(g.neg(a)) && g.elem(g.zero)
    ensures g.add(a, g.neg(a)) == g.zero == g.add(g.neg(a), a)
    ensures g.add(a, g.zero) == a == g.add(g.zero, a)
  {
    assert InverseLaw(g, a) && SumLaw(g, a, g.neg(a)) && SumLaw(g, a, g.zero);
  }

  lemma Assoc<T(!new)>(g: Group<T>, a: T, b: T, c: T)
    requires Abelian(g) && g.elem(a) && g.elem(b) && g.elem(c)
    ensures g.add(g.add(a, b), c) == g.add(a, g.add(b, c))
  {
    assert AssociativeLaw(g, a, b, c);
  }

  /** [n]a for a natural n. */
  function Times<T>(g: Group<T>, n: nat, a: T): T {
    if n == 0 then g.zero else g.add(a, Times(g, n - 1, a))
  }

  /** [n]a for any integer n. */
  function Multiple<T>(g: Group<T>, n: int, a: T): T {
    if n >= 0 then Times(g, n, a) else g.neg(Times(g, -n, a))
  }

  lemma {:induction false} TimesElem<T(!new)>(g: Group<T>, n: nat, a: T)
    requires Abelian(g) && g.elem(a)
    ensures g.elem(Times(g, n, a))
  {
    if n == 0 {
      Zero(g);
    } else {
      TimesElem(g, n - 1, a);
      Sum(g, a, Times(g, n - 1, a));
    }
  }

  lemma MultipleElem<T(!new)>(g: Group<T>, n: int, a: T)
    requires Abelian(g) && g.elem(a)
    ensures g.elem(Multiple(g, n, a))
  {
    var k := if n >= 0 then n else -n;
    TimesElem(g, k, a);
    Inverse(g, Times(g, k, a));
  }

  lemma {:induction false} TimesAdd<T(!new)>(g: Group<T>, m: nat, n: nat, a: T)
    requires Abelian(g) && g.elem(a)
    ensures Times(g, m + n, a) == g.add(Times(g, m, a), Times(g, n, a))
  {
    TimesElem(g, n, a);
    if m == 0 {
      Inverse(g, Times(g, n, a));
    } else {
      TimesElem(g, m - 1, a);
      TimesAdd(g, m - 1, n, a);
      Assoc(g, a, Times(g, m - 1, a), Times(g, n, a));
    }
  }

  /** x + y = z has at most one solution x. */
  lemma Cancel<T(!new)>(g: Group<T>, x: T, y: T, z: T)
    requires Abelian(g) && g.elem(x) && g.elem(y) && g.elem(z)
    requires g.add(x, y) == z
    ensures x == g.add(z, g.neg(y))
  {
    Inverse(g, y);
    Inverse(g, x);
    Assoc(g, x, y, g.neg(y));
  }

  lemma SmallMultiples<T(!new)>(g: Group<T>, a: T)
    requires Abelian(g) && g.elem(a)
    ensures Multiple(g, 0, a) == g.zero && Multiple(g, 1, a) == a && Multiple(g, -1, a) == g.neg(a)
  {
    Inverse(g, a);
    assert Times(g, 1, a) == g.add(a, Times(g, 0, a));
  }

  lemma NegZero<T(!new)>(g: Group<T>)
    requires Abelian(g)
    ensures g.neg(g.zero) == g.zero
  {
    Zero(g);
    Inverse(g, g.zero);
    Inverse(g, g.neg(g.zero));
  }

  lemma NegUnique<T(!new)>(g: Group<T>, a: T, b: T)
    requires Abelian(g) && g.elem(a) && g.elem(b) && g.add(a, b) == g.zero
    ensures b == g.neg(a)
  {
    Sum(g, a, b);
    Zero(g);
    Cancel(g, b, a, g.zero);
    Inverse(g, a);
    Inverse(g, g.neg(a));
  }

  lemma NegNeg<T(!new)>(g: Group<T>, a: T)
    requires Abelian(g) && g.elem(a)
    ensures g.neg(g.neg(a)) == a
  {
    Inverse(g, a);
    NegUnique(g, g.neg(a), a);
  }

  /** (a + b) + (c + d) == (a + c) + (b + d). */
  lemma Shuffle<T(!new)>(g: Group<T>, a: T, b: T, c: T, d: T)
    requires Abelian(g) && g.elem(a) && g.elem(b) && g.elem(c) && g.elem(d)
    ensures g.add(g.add(a, b), g.add(c, d)) == g.add(g.add(a, c), g.add(b, d))
  {
    Sum(g, c, d);
    Sum(g, b, d);
    Sum(g, b, c);
    Assoc(g, a, b, g.add(c, d));
    Assoc(g, b, c, d);
    Assoc(g, c, b, d);
    Assoc(g, a, c, g.add(b, d));
  }

  lemma NegAdd<T(!new)>(g: Group<T>, a: T, b: T)
    requires Abelian(g) && g.elem(a) && g.elem(b)
    ensures g.neg(g.add(a, b)) == g.add(g.neg(a), g.neg(b))
  {
    Inverse(g, a);
    Inverse(g, b);
    Inverse(g, g.zero);
    Sum(g, a, b);
    Sum(g, g.neg(a), g.neg(b));
    Shuffle(g, a, b, g.neg(a), g.neg(b));
    NegUnique(g, g.add(a, b), g.add(g.neg(a), g.neg(b)));
  }

  lemma TimesLess<T(!new)>(g: Group<T>, m: nat, n: nat, a: T)
    requires Abelian(g) && g.elem(a) && n <= m
    ensures Times(g, m - n, a) == g.add(Times(g, m, a), g.neg(Times(g, n, a)))
  {
    TimesElem(g, m, a);
    TimesElem(g, n, a);
    TimesElem(g, m - n, a);
    TimesAdd(g, m - n, n, a);
    Cancel(g, Times(g, m - n, a), Times(g, n, a), Times(g, m, a));
  }

  lemma NegDifference<T(!new)>(g: Group<T>, s: T, t: T)
    requires Abelian(g) && g.elem(s) && g.elem(t)
    ensures g.neg(g.add(s, g.neg(t))) == g.add(t, g.neg(s))
  {
    Inverse(g, t);
    NegAdd(g, s, g.neg(t));
    NegNeg(g, t);
    Inverse(g, s);
    Sum(g, g.neg(s), t);
  }

  lemma TimesSub<T(!new)>(g: Group<T>, m: nat, n: nat, a: T)
    requires Abelian(g) && g.elem(a)
    ensures Multiple(g, m - n, a) == g.add(Times(g, m, a), g.neg(Times(g, n, a)))
  {
    hide Times;
    if m >= n {
      TimesLess(g, m, n, a);
    } else {
      TimesLess(g, n, m, a);
      TimesElem(g, m, a);
      TimesElem(g, n, a);
      NegDifference(g, Times(g, n, a), Times(g, m, a));
    }
  }

  lemma MultipleAdd<T(!new)>(g: Group<T>, m: int, n: int, a: T)
    requires Abelian(g) && g.elem(a)
    ensures Multiple(g, m + n, a) == g.add(Multiple(g, m, a), Multiple(g, n, a))
  {
    MultipleElem(g, m, a);
    MultipleElem(g, n, a);
    if m >= 0 && n >= 0 {
      TimesAdd(g, m, n, a);
    } else if m >= 0 {
      TimesSub(g, m, -n, a);
    } else if n >= 0 {
      TimesSub(g, n, -m, a);
      Sum(g, Multiple(g, m, a), Multiple(g, n, a));
    } else {
      TimesAdd(g, -m, -n, a);
      TimesElem(g, -m, a);
      TimesElem(g, -n, a);
      NegAdd(g, Times(g, -m, a), Times(g, -n, a));
    }
  }

  lemma {:induction false} TimesOfZero<T(!new)>(g: Group<T>, n: nat)
    requires Abelian(g)
    ensures Times(g, n, g.zero) == g.zero
  {
    Zero(g);
    if n > 0 {
      TimesOfZero(g, n - 1);
      Inverse(g, g.zero);
    }
  }

  lemma {:induction false} TimesOfSum<T(!new)>(g: Group<T>, n: nat, a: T, b: T)
    requires Abelian(g) && g.elem(a) && g.elem(b)
    ensures Times(g, n, g.add(a, b)) == g.add(Times(g, n, a), Times(g, n, b))
  {
    if n == 0 {
      Zero(g);
      Inverse(g, g.zero);
    } else {
      TimesElem(g, n - 1, a);
      TimesElem(g, n - 1, b);
      TimesOfSum(g, n - 1, a, b);
      Shuffle(g, a, b, Times(g, n - 1, a), Times(g, n - 1, b));
    }
  }

  lemma {:induction false} TimesTimes<T(!new)>(g: Group<T>, m: nat, n: nat, a: T)
    requires Abelian(g) && g.elem(a)
    ensures m * n >= 0 && Times(g, m, Times(g, n, a)) == Times(g, m * n, a)
  {
    if m == 0 {
    } else {
      TimesTimes(g, m - 1, n, a);
      TimesAdd(g, n, (m - 1) * n, a);
      assert n + (m - 1) * n == m * n;
    }
  }

  lemma {:induction false} TimesNeg<T(!new)>(g: Group<T>, n: nat, a: T)
    requires Abelian(g) && g.elem(a)
    ensures Times(g, n, g.neg(a)) == g.neg(Times(g, n, a))
  {
    if n == 0 {
      NegZero(g);
    } else {
      TimesNeg(g, n - 1, a);
      TimesElem(g, n - 1, a);
      NegAdd(g, a, Times(g, n - 1, a));
    }
  }

  /** A nonnegative multiple of any integer multiple. */
  lemma TimesMultiple<T(!new)>(g: Group<T>, m: nat, n: int, a: T)
    requires Abelian(g) && g.elem(a)
    ensures Times(g, m, Multiple(g, n, a)) == Multiple(g, m * n, a)
  {
    if n >= 0 {
      TimesTimes(g, m, n, a);
    } else {
      TimesElem(g, -n, a);
      TimesNeg(g, m, Times(g, -n, a));
      TimesTimes(g, m, -n, a);
      assert m * n == -(m * -n);
      NegZero(g);
    }
  }

  /** [m]a + [n]b. */
  function Combination<T>(g: Group<T>, m: int, a: T, n: int, b: T): T {
    g.add(Multiple(g, m, a), Multiple(g, n, b))
  }

  lemma CombinationElem<T(!new)>(g: Group<T>, m: int, a: T, n: int, b: T)
    requires Abelian(g) && g.elem(a) && g.elem(b)
    ensures g.elem(Combination(g, m, a, n, b))
  {
    MultipleElem(g, m, a);
    MultipleElem(g, n, b);
    Sum(g, Multiple(g, m, a), Multiple(g, n, b));
  }

  lemma DoubleCombination<T(!new)>(g: Group<T>, m: int, a: T, n: int, b: T)
    requires Abelian(g) && g.elem(a) && g.elem(b)
    ensures g.add(Combination(g, m, a, n, b), Combination(g, m, a, n, b)) == Combination(g, 2 * m, a, 2 * n, b)
  {
    hide Multiple;
    MultipleElem(g, m, a);
    MultipleElem(g, n, b);
    Shuffle(g, Multiple(g, m, a), Multiple(g, n, b), Multiple(g, m, a), Multiple(g, n, b));
    MultipleAdd(g, m, m, a);
    MultipleAdd(g, n, n, b);
  }

  lemma AddToCombination<T(!new)>(g: Group<T>, m: int, a: T, n: int, b: T, d: int)
    requires Abelian(g) && g.elem(a) && g.elem(b)
    ensures g.add(Combination(g, m, a, n, b), Multiple(g, d, a)) == Combination(g, m + d, a, n, b)
    ensures g.add(Combination(g, m, a, n, b), Multiple(g, d, b)) == Combination(g, m, a, n + d, b)
  {
    hide Multiple;
    var x, y := Multiple(g, m, a), Multiple(g, n, b);
    MultipleElem(g, m, a);
    MultipleElem(g, n, b);
    MultipleElem(g, d, a);
    MultipleElem(g, d, b);
    Assoc(g, x, y, Multiple(g, d, b));
    MultipleAdd(g, n, d, b);
    Assoc(g, x, y, Multiple(g, d, a));
    Sum(g, y, Multiple(g, d, a));
    Assoc(g, x, Multiple(g, d, a), y);
    MultipleAdd(g, m, d, a);
  }

  lemma ZeroCombination<T(!new)>(g: Group<T>, a: T, b: T)
    requires Abelian(g) && g.elem(a) && g.elem(b)
    ensures Combination(g, 0, a, 0, b) == g.zero
  {
    SmallMultiples(g, a);
    SmallMultiples(g, b);
    Zero(g);
    Inverse(g, g.zero);
  }
}
