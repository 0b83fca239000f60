/** Euclid's algorithm on numbers: what each exact step keeps. */
module Gcds {
  import opened Words
  import opened Modular

  ghost function Gcd(a: nat, b: nat): (g: nat)
    decreases b
  {
    if b == 0 then a else Gcd(b, a % b)
  }

  ghost predicate Divides(d: int, a: int)
    requires d > 0
  {
    a % d == 0
  }

  lemma GcdStep(a: nat, b: nat)
    requires b > 0
    ensures Gcd(a, b) == Gcd(b, a % b)
  {
  }

  lemma {:induction false} GcdDivides(a: nat, b: nat)
    requires a > 0 || b > 0
    ensures Gcd(a, b) > 0 && Divides(Gcd(a, b), a) && Divides(Gcd(a, b), b)
    decreases b
  {
    hide Gcd;
    if b == 0 {
      GcdZero(a);
      Witness(a, 0, 1, a);
      Small(0, a);
    } else {
      GcdDivides(b, a % b);
      GcdStep(a, b);
      DividesNext(a, b, Gcd(b, a % b));
    }
  }

  /** A common divisor of b and a mod b divides a. */
  lemma DividesNext(a: nat, b: nat, g: int)
    requires g > 0 && b > 0 && Divides(g, b) && Divides(g, a % b)
    ensures Divides(g, a)
  {
    var q, r := a / b, a % b;
    assert a == q * b + r;
    Multiple(q, b, g);
    SumDivides(q * b, r, g);
  }

  /** The gcd is the greatest of the common divisors: every one of them divides it. */
  lemma {:induction false} GcdIsGreatest(a: nat, b: nat, d: int)
    requires d > 0 && Divides(d, a) && Divides(d, b)
    ensures Divides(d, Gcd(a, b))
    decreases b
  {
    if b > 0 {
      Multiple(a / b, b, d);
      SumDivides(a, a / b * b, d);
      assert a - a / b * b == a % b;
      GcdIsGreatest(b, a % b, d);
    }
  }

  /** Two consecutive remainders and the absolute values of their first cofactors. */
  datatype Euclid = Euclid(r1: int, r2: int, s1: int, s2: int)

  function Step(e: Euclid): Euclid
    requires e.r2 > 0
  {
    Euclid(e.r2, e.r1 % e.r2, e.s2, e.s1 + e.r1 / e.r2 * e.s2)
  }

  /** `f` is reached from `e` by exactly `k` Euclid steps. */
  ghost predicate Reaches(e: Euclid, k: nat, f: Euclid) {
    if k == 0 then e == f else exists p :: Reaches(e, k - 1, p) && p.r2 > 0 && f == Step(p)
  }

  lemma OneMore(e: Euclid, k: nat, p: Euclid)
    requires Reaches(e, k, p) && p.r2 > 0
    ensures Reaches(e, k + 1, Step(p))
  {
  }

  lemma {:induction false} Chain(e: Euclid, j: nat, p: Euclid, k: nat, f: Euclid)
    requires Reaches(e, j, p) && Reaches(p, k, f)
    ensures Reaches(e, j + k, f)
  {
    if k > 0 {
      var q :| Reaches(p, k - 1, q) && q.r2 > 0 && f == Step(q);
      Chain(e, j, p, k - 1, q);
      OneMore(e, j + k - 1, q);
    }
  }

  function Sign(k: nat): int { if k % 2 == 0 then 1 else -1 }

  /** What k steps from (x, y) keep: the gcd, the cofactors modulo y, and s2 * r1 + s1 * r2 = y. */
  ghost predicate Bezout(x: nat, y: nat, k: nat, e: Euclid) {
    && e.r1 >= 0 && e.r2 >= 0 && e.s1 >= 0 && e.s2 >= 0
    && Gcd(e.r1, e.r2) == Gcd(x, y)
    && e.s2 * e.r1 + e.s1 * e.r2 == y && (e.r1 > 0 || e.s2 == 0)
    && (y > 0 ==> e.s1 <= y && (e.r1 - Sign(k) * e.s1 * x) % y == 0 && (e.r2 + Sign(k) * e.s2 * x) % y == 0)
    && (y == 0 ==> k == 0 && e.r1 == x && e.s1 == 1)
  }

  lemma {:induction false} StepsKeepBezout(x: nat, y: nat, k: nat, e: Euclid)
    requires Reaches(Euclid(x, y, 1, 0), k, e)
    ensures Bezout(x, y, k, e)
  {
    if k == 0 {
      if y > 0 {
        Small(0, y);
        Witness(y + Sign(0) * 0 * x, 0, 1, y);
      }
    } else {
      var p :| Reaches(Euclid(x, y, 1, 0), k - 1, p) && p.r2 > 0 && e == Step(p);
      StepsKeepBezout(x, y, k - 1, p);
      BezoutStep(x, y, k - 1, p);
    }
  }

  lemma BezoutStep(x: nat, y: nat, k: nat, p: Euclid)
    requires Bezout(x, y, k, p) && p.r2 > 0
    ensures Bezout(x, y, k + 1, Step(p))
  {
    hide Gcd, Sign;
    var q, r3 := p.r1 / p.r2, p.r1 % p.r2;
    GcdStep(p.r1, p.r2);
    SignStep(k);
    MulNonNeg(q, p.s2);
    assert p.r1 == q * p.r2 + r3;
    CrossStep(p.r1, p.r2, p.s1, p.s2, q, r3, y);
    if y > 0 {
      CofactorBound(p.r1, p.r2, p.s1, p.s2, y);
      CongruenceStep(p.r1, p.r2, p.s1, p.s2, q, Sign(k), x, y);
      assert r3 == p.r1 - q * p.r2;
    }
  }

  lemma CofactorBound(r1: int, r2: int, s1: int, s2: int, y: int)
    requires r1 >= 0 && r2 > 0 && s1 >= 0 && s2 >= 0 && s2 * r1 + s1 * r2 == y && (r1 > 0 || s2 == 0)
    ensures s2 <= y
  {
    MulNonNeg(s1, r2);
    if r1 > 0 { MulMono(1, r1, s2); }
  }

  lemma GcdZero(a: nat)
    ensures Gcd(a, 0) == a
  {
  }

  lemma SignStep(k: nat)
    ensures Sign(k + 1) == -Sign(k)
  {
  }

  lemma CongruenceStep(r1: int, r2: int, s1: int, s2: int, q: int, s: int, x: int, y: int)
    requires y > 0 && (r1 - s * s1 * x) % y == 0 && (r2 + s * s2 * x) % y == 0
    ensures (r2 - -s * s2 * x) % y == 0 && (r1 - q * r2 + -s * (s1 + q * s2) * x) % y == 0
  {
    Multiple(q, r2 + s * s2 * x, y);
    SumDivides(r1 - s * s1 * x, q * (r2 + s * s2 * x), y);
    CofactorStep(r1, r2, s1, s2, q, s, x);
    assert r2 - -s * s2 * x == r2 + s * s2 * x;
  }

  lemma CrossStep(r1: int, r2: int, s1: int, s2: int, q: int, r3: int, y: int)
    requires s2 * r1 + s1 * r2 == y && r1 == q * r2 + r3
    ensures (s1 + q * s2) * r2 + s2 * r3 == y
  {
    assert s2 * r1 == s2 * (q * r2) + s2 * r3;
  }

  lemma CofactorStep(r1: int, r2: int, s1: int, s2: int, q: int, s: int, x: int)
    ensures (r1 - s * s1 * x) - q * (r2 + s * s2 * x) == (r1 - q * r2) + (-s) * (s1 + q * s2) * x
  {
  }
}
