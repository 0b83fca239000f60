/** Abelian groups and integer multiples of their elements. */
module Groups {
  datatype Group<!T> = Group(zero: T, add: (T, T) -> T, neg: T -> T)

  ghost predicate Abelian<T(!new)>(g: Group<T>) {
    && (forall x, y :: g.add(x, y) == g.add(y, x))
    && (forall x, y, z :: g.add(g.add(x, y), z) == g.add(x, g.add(y, z)))
    && (forall x :: g.add(x, g.zero) == x)
    && (forall x :: g.add(x, g.neg(x)) == g.zero)
  }

  lemma Comm<T(!new)>(g: Group<T>, x: T, y: T)
    requires Abelian(g)
    ensures g.add(x, y) == g.add(y, x)
  {
  }

  lemma Assoc<T(!new)>(g: Group<T>, x: T, y: T, z: T)
    requires Abelian(g)
    ensures g.add(g.add(x, y), z) == g.add(x, g.add(y, z))
  {
  }

  lemma ZeroLaw<T(!new)>(g: Group<T>, x: T)
    requires Abelian(g)
    ensures g.add(x, g.zero) == x
  {
  }

  lemma InverseLaw<T(!new)>(g: Group<T>, x: T)
    requires Abelian(g)
    ensures g.add(x, g.neg(x)) == g.zero
  {
  }

  lemma Zero<T(!new)>(g: Group<T>, x: T)
    requires Abelian(g)
    ensures g.add(x, g.zero) == x && g.add(g.zero, x) == x
  {
    hide Abelian;
    Comm(g, g.zero, x);
    ZeroLaw(g, x);
  }

  lemma Inverse<T(!new)>(g: Group<T>, x: T)
    requires Abelian(g)
    ensures g.add(x, g.neg(x)) == g.zero && g.add(g.neg(x), x) == g.zero
  {
    hide Abelian;
    Comm(g, g.neg(x), x);
    InverseLaw(g, x);
  }

  /** n * p, for any integer n. */
  ghost function Times<T>(g: Group<T>, n: int, p: T): T
    decreases if n < 0 then -n else n
  {
    if n == 0 then g.zero
    else if n > 0 then g.add(Times(g, n - 1, p), p)
    else g.add(Times(g, n + 1, p), g.neg(p))
  }

  /** Cancelling a summand. */
  lemma AddThenSubtract<T(!new)>(g: Group<T>, x: T, p: T)
    requires Abelian(g)
    ensures g.add(g.add(x, p), g.neg(p)) == x && g.add(g.add(x, g.neg(p)), p) == x
  {
    hide Abelian;
    Assoc(g, x, p, g.neg(p));
    Assoc(g, x, g.neg(p), p);
    Inverse(g, p);
    Zero(g, x);
  }

  lemma OneMore<T(!new)>(g: Group<T>, n: int, p: T)
    requires Abelian(g)
    ensures Times(g, n + 1, p) == g.add(Times(g, n, p), p)
    ensures Times(g, n - 1, p) == g.add(Times(g, n, p), g.neg(p))
  {
    hide Abelian;
    AddThenSubtract(g, Times(g, n + 1, p), p);
    AddThenSubtract(g, Times(g, n - 1, p), p);
  }

  lemma {:induction false} TimesAdd<T(!new)>(g: Group<T>, m: int, n: int, p: T)
    requires Abelian(g)
    ensures Times(g, m + n, p) == g.add(Times(g, m, p), Times(g, n, p))
    decreases if n < 0 then -n else n
  {
    hide Abelian;
    var t := Times(g, m, p);
    if n > 0 {
      TimesAdd(g, m, n - 1, p);
      OneMore(g, m + n - 1, p);
      Assoc(g, t, Times(g, n - 1, p), p);
    } else if n < 0 {
      TimesAdd(g, m, n + 1, p);
      OneMore(g, m + n + 1, p);
      Assoc(g, t, Times(g, n + 1, p), g.neg(p));
    } else {
      Zero(g, t);
    }
  }

  /** The inverse is unique. */
  lemma NegUnique<T(!new)>(g: Group<T>, x: T, y: T)
    requires Abelian(g) && g.add(x, y) == g.zero
    ensures y == g.neg(x)
  {
    hide Abelian;
    AddThenSubtract(g, y, x);
    Comm(g, y, x);
    Zero(g, g.neg(x));
  }

  lemma TimesNeg<T(!new)>(g: Group<T>, n: int, p: T)
    requires Abelian(g)
    ensures Times(g, -n, p) == g.neg(Times(g, n, p))
  {
    hide Abelian;
    TimesAdd(g, n, -n, p);
    assert Times(g, n + -n, p) == g.zero;
    NegUnique(g, Times(g, n, p), Times(g, -n, p));
  }

  lemma TimesOne<T(!new)>(g: Group<T>, p: T)
    requires Abelian(g)
    ensures Times(g, 0, p) == g.zero && Times(g, 1, p) == p && Times(g, -1, p) == g.neg(p)
  {
    hide Abelian;
    Zero(g, p);
    Zero(g, g.neg(p));
    assert Times(g, 1, p) == g.add(Times(g, 0, p), p);
    assert Times(g, -1, p) == g.add(Times(g, 0, p), g.neg(p));
  }

  /** A multiple of a multiple. */
  lemma {:induction false} TimesTimes<T(!new)>(g: Group<T>, m: int, n: int, p: T)
    requires Abelian(g)
    ensures Times(g, m, Times(g, n, p)) == Times(g, m * n, p)
    decreases if m < 0 then -m else m
  {
    hide Abelian;
    var q := Times(g, n, p);
    if m > 0 {
      TimesTimes(g, m - 1, n, p);
      TimesAdd(g, (m - 1) * n, n, p);
      assert (m - 1) * n + n == m * n;
    } else if m < 0 {
      TimesTimes(g, m + 1, n, p);
      TimesAdd(g, (m + 1) * n, -n, p);
      TimesNeg(g, n, p);
      assert (m + 1) * n + -n == m * n;
    }
  }

  lemma TimesOfNeg<T(!new)>(g: Group<T>, n: int, p: T)
    requires Abelian(g)
    ensures Times(g, n, g.neg(p)) == Times(g, -n, p)
  {
    hide Abelian, Times;
    TimesOne(g, p);
    TimesTimes(g, n, -1, p);
    assert n * -1 == -n;
  }

  /** Sums of multiples of two elements are added by parts. */
  lemma AddPairs<T(!new)>(g: Group<T>, a: int, b: int, c: int, d: int, p: T, q: T)
    requires Abelian(g)
    ensures g.add(g.add(Times(g, a, p), Times(g, b, q)), g.add(Times(g, c, p), Times(g, d, q)))
            == g.add(Times(g, a + c, p), Times(g, b + d, q))
  {
    hide Abelian, Times;
    TimesAdd(g, a, c, p);
    TimesAdd(g, b, d, q);
    Interchange(g, Times(g, a, p), Times(g, b, q), Times(g, c, p), Times(g, d, q));
  }

  lemma Interchange<T(!new)>(g: Group<T>, x: T, y: T, z: T, w: T)
    requires Abelian(g)
    ensures g.add(g.add(x, y), g.add(z, w)) == g.add(g.add(x, z), g.add(y, w))
  {
    hide Abelian;
    Assoc(g, x, y, g.add(z, w));
    Assoc(g, y, z, w);
    Comm(g, y, z);
    Assoc(g, z, y, w);
    Assoc(g, x, z, g.add(y, w));
  }

  /** The inverse of a sum. */
  lemma NegOfSum<T(!new)>(g: Group<T>, x: T, y: T)
    requires Abelian(g)
    ensures g.neg(g.add(x, y)) == g.add(g.neg(x), g.neg(y)) && g.neg(g.neg(x)) == x
  {
    hide Abelian;
    Interchange(g, x, y, g.neg(x), g.neg(y));
    Inverse(g, x);
    Inverse(g, y);
    Zero(g, g.zero);
    NegUnique(g, g.add(x, y), g.add(g.neg(x), g.neg(y)));
    NegUnique(g, g.neg(x), x);
  }
}
