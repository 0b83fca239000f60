/** mrcurve.c: several points with one inversion, normalising a table and forming a sum together with a difference. */
module CurveBatches {
  import opened Words
  import opened Bigs
  import opened Gcds
  import opened Residues
  import opened Field
  import opened Curves
  import MultiInverse
  import LehmerGcd
  import opened Modular

  const MR_MAX_M_T_S := 64

  // ----- the product of many residues modulo a prime -----

  /** It vanishes exactly with one of the factors. */
  lemma {:induction false} ChainVanishes(c: Ring, s: seq<int>)
    requires c.Valid() && Prime(c.n) && s != [] && forall i | 0 <= i < |s| :: 0 <= s[i] < c.n
    ensures MultiInverse.Chain(c, s) == 0 <==> exists i :: 0 <= i < |s| && s[i] == 0
    ensures 0 <= MultiInverse.Chain(c, s) < c.n
  {
    hide Times, Prime;
    var k := |s| - 1;
    if k == 0 {
      MultiInverse.ChainOfOne(c, s);
    } else {
      var t := s[..k];
      ChainVanishes(c, t);
      MultiInverse.ChainSnoc(c, s);
      VanishingTimes(c, MultiInverse.Chain(c, t), s[k]);
      assert (exists i :: 0 <= i < |s| && s[i] == 0) <==> (exists i :: 0 <= i < k && t[i] == 0) || s[k] == 0 by {
        assert forall i | 0 <= i < k :: t[i] == s[i];
      }
    }
  }

  lemma VanishingTimes(c: Ring, a: int, b: int)
    requires c.Valid() && Prime(c.n) && 0 <= a < c.n && 0 <= b < c.n
    ensures Times(c, a, b) == 0 <==> a == 0 || b == 0
    ensures 0 <= Times(c, a, b) < c.n
  {
    hide Prime;
    Small(1, c.n);
    Small(0, c.n);
    if Mod(c.u, c.n) == 0 { Modular.Mul(c.u, 0, c.R, c.R, c.n); }
    ZeroProduct(a, b, c.n);
    ZeroProduct(a * b, c.u, c.n);
    Small(a, c.n);
    Small(b, c.n);
  }

  /** Without a zero among the factors the gcd that the inversion sees is 1. */
  lemma ProductIsCoprime(c: Ring, s: seq<int>)
    requires c.Valid() && Prime(c.n) && s != [] && forall i | 0 <= i < |s| :: 0 < s[i] < c.n
    ensures MultiInverse.Product(s) >= 0 && Gcd(MultiInverse.Product(s), c.n) == 1
  {
    hide Times, Prime, Gcd, MultiInverse.Product, Plain, MultiInverse.Chain;
    MultiInverse.GcdOfChain(c, s);
    ChainVanishes(c, s);
    var r := MultiInverse.Chain(c, s);
    NonZeroPlain(c, r);
    NonZeroPlain(c, Plain(c, r));
    var t := Plain(c, Plain(c, r));
    FieldInverse(t, c.n) by { ModSmall(t, c.n); }
    ModSmall(t, c.n);
  }

  lemma NonZeroPlain(c: Ring, r: int)
    requires c.Valid() && 0 < r < c.n
    ensures 0 < Plain(c, r) < c.n
  {
    hide Plain;
    ResidueOfPlain(c, r);
    if Plain(c, r) == 0 { ZeroResidue(c, 0) by { Small(0, c.n); } Small(0, c.n); }
  }

  // ----- epoint_multi_norm -----

  /** The distinct points of a table. */
  ghost predicate Table(c: Ring, p: seq<Epoint>)
    reads p
  {
    && (forall i | 0 <= i < |p| :: p[i].Valid(c))
    && (forall i, j | 0 <= i < j < |p| :: p[i] != p[j])
  }

  ghost predicate Kept(c: Ring, p: seq<Epoint>, was: seq<Affine>)
    requires c.n > 0 && |p| == |was|
    reads p
  {
    forall i | 0 <= i < |p| :: Point(c, p[i]) == was[i]
  }

  ghost function Points(c: Ring, p: seq<Epoint>): (s: seq<Affine>)
    requires c.n > 0
    reads p
    ensures |s| == |p| && forall i | 0 <= i < |p| :: s[i] == Point(c, p[i])
  {
    seq(|p|, i requires 0 <= i < |p| reads p => Point(c, p[i]))
  }

  ghost predicate AllFinite(p: seq<Epoint>)
    reads p
  {
    forall i | 0 <= i < |p| :: p[i].marker != Infinity
  }

  /** Some point has nothing to divide by. */
  ghost predicate NoDivisor(c: Ring, p: seq<Epoint>)
    requires c.n > 0
    reads p
  {
    exists i :: 0 <= i < |p| && Divisor(c, p[i].Z, p[i].marker) == 0
  }

  lemma OneIsNot0(c: Ring)
    requires c.Valid()
    ensures 0 < Residue(c, 1) < c.n
  {
    ZeroResidue(c, 1);
    Small(1, c.n);
  }

  /** A point that is not at infinity has a divisor. */
  lemma FiniteDivisor(c: Ring, p: Epoint)
    requires c.Valid() && p.Valid(c)
    ensures 0 <= Divisor(c, p.Z, p.marker) < c.n && (p.marker != Infinity ==> Divisor(c, p.Z, p.marker) > 0)
  {
    OneIsNot0(c);
  }

  /** What w[i] points to for each point of the table. */
  method Divisors(cv: Curve, p: seq<Epoint>) returns (x: array<int>)
    requires cv.Valid() && Table(cv.c, p)
    ensures fresh(x) && x.Length == |p|
    ensures forall i | 0 <= i < |p| :: x[i] == Divisor(cv.c, p[i].Z, p[i].marker) && 0 <= x[i] < cv.c.n
  {
    hide Residue;
    x := new int[|p|];
    for i := 0 to |p|
      invariant forall k | 0 <= k < i :: x[k] == Divisor(cv.c, p[k].Z, p[k].marker) && 0 <= x[k] < cv.c.n
    {
      FiniteDivisor(cv.c, p[i]);
      x[i] := if p[i].marker == Normalized then Residue(cv.c, 1) else p[i].Z;
    }
  }

  /** With a divisor for every point the inversion gives the inverses of all of them. */
  method InvertAll(c: Ring, m: nat, x: array<int>, work: array<int>) returns (ok: bool, err: Error)
    requires c.Valid() && Prime(c.n) && x.Length == m <= work.Length && x != work && forall i | 0 <= i < m :: 0 <= x[i] < c.n
    modifies work
    ensures m < 2 ==> ok
    ensures m >= 2 ==> ok == forall i | 0 <= i < m :: x[i] != 0
    ensures err == if ok then NoError else DivByZero
    ensures ok ==> forall i | 0 <= i < m :: 0 <= work[i] < c.n && (x[i] != 0 ==> Times(c, work[i], x[i]) == Residue(c, 1))
  {
    hide Times, Prime, Gcd, MultiInverse.Product, Plain, MultiInverse.Chain, Residue;
    if m > 0 {
      ChainVanishes(c, x[..m]);
      if forall i :: 0 <= i < m ==> x[i] != 0 {
        ProductIsCoprime(c, x[..m]);
      }
    }
    ghost var X := x[..m];
    ok, err := MultiInverse.MultiInverse(c, m, x, work);
  }

  /** Every point is divided by its Z and marked as normalised, the points at infinity too. */
  method ScaleAll(c: Ring, p: seq<Epoint>, work: array<int>)
    requires c.Valid() && Prime(c.n) && Table(c, p) && |p| <= work.Length
    requires forall i | 0 <= i < |p| :: 0 <= work[i] < c.n
    requires forall i | 0 <= i < |p| && p[i].marker != Infinity ::
               Times(c, work[i], Divisor(c, p[i].Z, p[i].marker)) == Residue(c, 1)
    modifies p
    ensures Table(c, p) && forall i | 0 <= i < |p| :: p[i].marker == Normalized
    ensures forall i | 0 <= i < |p| :: old(p[i].marker) != Infinity ==> Point(c, p[i]) == old(Point(c, p[i]))
  {
    hide Times, Prime, Plain, Residue, Denotes, Mod, Divisor;
    for i := 0 to |p|
      invariant Table(c, p)
      invariant forall k | 0 <= k < i :: p[k].marker == Normalized
      invariant forall k | 0 <= k < i :: old(p[k].marker) != Infinity ==> Point(c, p[k]) == old(Point(c, p[k]))
      invariant forall k | i <= k < |p| :: unchanged(p[k])
    {
      var q := p[i];
      ghost var s := Point(c, q);
      if q.marker != Infinity { ScaledDownIsSame(c, q.X, q.Y, q.Z, q.marker, work[i]); }
      ScaleDown(c, q, work[i]);
      PointOfNormalized(c, q);
    }
  }

  lemma InfinityInTable(c: Ring, p: seq<Epoint>, was: seq<Affine>)
    requires c.n > 0 && |p| == |was| && Kept(c, p, was)
    ensures forall i | 0 <= i < |p| :: was[i] == O <==> p[i].marker == Infinity
    ensures AllFinite(p) <==> forall i | 0 <= i < |p| :: was[i] != O
  {
    hide Denotes;
    forall i | 0 <= i < |p|
      ensures was[i] == O <==> p[i].marker == Infinity
    {
      PointAtInfinity(c, p[i]);
    }
  }

  lemma FiniteDivisors(c: Ring, p: seq<Epoint>)
    requires c.Valid() && Table(c, p)
    ensures forall i | 0 <= i < |p| && p[i].marker != Infinity :: Divisor(c, p[i].Z, p[i].marker) > 0
  {
    hide Divisor;
    forall i | 0 <= i < |p| && p[i].marker != Infinity
      ensures Divisor(c, p[i].Z, p[i].marker) > 0
    {
      FiniteDivisor(c, p[i]);
    }
  }

  lemma InverseOfDivisors(c: Ring, p: seq<Epoint>, x: array<int>, work: array<int>)
    requires c.n > 0 && x.Length == |p| <= work.Length
    requires forall i | 0 <= i < |p| :: x[i] == Divisor(c, p[i].Z, p[i].marker)
    requires forall i | 0 <= i < |p| && p[i].marker != Infinity :: Divisor(c, p[i].Z, p[i].marker) > 0
    requires forall i | 0 <= i < |p| :: x[i] != 0 ==> Times(c, work[i], x[i]) == Residue(c, 1)
    ensures forall i | 0 <= i < |p| && p[i].marker != Infinity ::
              Times(c, work[i], Divisor(c, p[i].Z, p[i].marker)) == Residue(c, 1)
  {
    hide Times, Residue, Divisor;
  }

  lemma KeptExactly(c: Ring, p: seq<Epoint>, was: seq<Affine>)
    requires c.n > 0 && |p| == |was|
    requires forall i | 0 <= i < |p| :: Point(c, p[i]) != O && (was[i] != O ==> Point(c, p[i]) == was[i])
    ensures Kept(c, p, was) <==> forall i | 0 <= i < |p| :: was[i] != O
  {
    hide Denotes;
  }

  method NormaliseAll(c: Ring, p: seq<Epoint>, work: array<int>, ghost was: seq<Affine>)
    requires c.Valid() && Prime(c.n) && Table(c, p) && |p| <= work.Length && |p| == |was| && Kept(c, p, was)
    requires forall i | 0 <= i < |p| :: 0 <= work[i] < c.n
    requires forall i | 0 <= i < |p| && p[i].marker != Infinity ::
               Times(c, work[i], Divisor(c, p[i].Z, p[i].marker)) == Residue(c, 1)
    modifies p
    ensures Table(c, p) && forall i | 0 <= i < |p| :: p[i].marker == Normalized
    ensures forall i | 0 <= i < |p| :: was[i] != O ==> Point(c, p[i]) == was[i]
    ensures Kept(c, p, was) <==> forall i | 0 <= i < |p| :: was[i] != O
  {
    hide Times, Prime, Plain, Residue, Denotes, Mod, Divisor;
    InfinityInTable(c, p, was);
    ScaleAll(c, p, work);
    forall i | 0 <= i < |p|
      ensures Point(c, p[i]) != O && (was[i] != O ==> Point(c, p[i]) == was[i])
    {
      PointAtInfinity(c, p[i]);
    }
    KeptExactly(c, p, was);
  }

  /**
   * epoint_multi_norm: a table of points normalised with one inversion. Points that are not at infinity stay what
   * they are; one at infinity is taken for its leftover coordinates, or makes the inversion fail when its Z is 0.
   */
  method MultiNorm(cv: Curve, m: nat, work: array<int>, p: seq<Epoint>) returns (ok: bool, err: Error)
    requires cv.Valid() && m == |p| <= work.Length && Table(cv.c, p)
    modifies work, p
    ensures Table(cv.c, p)
    ensures cv.affine ==> ok && err == NoError && forall i | 0 <= i < m :: unchanged(p[i])
    ensures !cv.affine && m > MR_MAX_M_T_S ==> !ok && err == NoError
    ensures !cv.affine && m < 2 ==> ok && err == NoError
    ensures !cv.affine && 2 <= m <= MR_MAX_M_T_S ==> ok == !old(NoDivisor(cv.c, p)) && err == if ok then NoError else DivByZero
    ensures !ok ==> forall i | 0 <= i < m :: unchanged(p[i])
    ensures !cv.affine && ok ==> forall i | 0 <= i < m :: p[i].marker == Normalized
    ensures !cv.affine && ok ==>
              forall i | 0 <= i < m :: old(p[i].marker) != Infinity ==> Point(cv.c, p[i]) == old(Point(cv.c, p[i]))
    ensures !cv.affine && m <= MR_MAX_M_T_S ==> (ok && Kept(cv.c, p, old(Points(cv.c, p))) <==> old(AllFinite(p)))
  {
    hide Times, Prime, Plain, Residue, Denotes, Mod, Divisor;
    if cv.affine { return true, NoError; }
    if m > MR_MAX_M_T_S { return false, NoError; }
    var c := cv.c;
    ghost var was := Points(c, p);
    InfinityInTable(c, p, was);
    var x := Divisors(cv, p);
    ok, err := InvertAll(c, m, x, work);
    if !ok {
      ghost var j :| 0 <= j < m && x[j] == 0;
      FiniteDivisor(c, p[j]);
      return;
    }
    FiniteDivisors(c, p);
    InverseOfDivisors(c, p, x, work);
    NormaliseAll(c, p, work, was);
  }

  // ----- the two chords of ecurve_add_sub -----

  /** The point that X and Y alone stand for, whatever the marker says. */
  ghost function Raw(c: Ring, p: Epoint): Affine
    requires c.n > 0
    reads p
  {
    At(Plain(c, p.X), Plain(c, p.Y))
  }

  /** redc, invmodp and nres together give the residue of the inverse. */
  method Reciprocal(c: Ring, d: int, ghost D: int) returns (t2: int)
    requires c.Valid() && Prime(c.n) && d == Residue(c, D) && d != 0
    ensures (D * Inverse(D, c.n)) % c.n == 1 && t2 == Residue(c, Inverse(D, c.n))
  {
    hide Gcd, Inverse, Prime, Mod, Plain, Residue;
    var v := Plain(c, d);
    ghost var v0 := v;
    ResidueOfPlain(c, d);
    SameResidue(c, v0, D);
    ZeroResidue(c, D);
    ModSmall(v0, c.n);
    FieldInverse(v0, c.n);
    FieldInverse(D, c.n);
    var g;
    v, g := LehmerGcd.Invmodp(v, c.n);
    ModSmall(1, c.n);
    ModIs(1, c.n);
    InverseIsUnique(c.n, v0, v, D, Inverse(D, c.n));
    SameResidue(c, v, Inverse(D, c.n));
    t2 := Residue(c, v);
  }

  lemma InverseIsUnique(n: int, v: int, z: int, D: int, i: int)
    requires n > 1 && Mod(v, n) == Mod(D, n) && (v * z) % n == 1 && (D * i) % n == 1
    ensures Mod(z, n) == Mod(i, n)
  {
    Small(1, n);
    Modular.Mul(v, D, z, z, n);
    assert z * D == D * z && i * D == D * i;
    Cancel(z, i, D, i, n);
  }

  /** X and the unfinished Y of the sum from the slope m. */
  method Chord(c: Ring, sum: int, qx: int, lam: int, ghost x1: int, ghost x2: int, ghost m: int) returns (X: int, Y: int)
    requires c.Valid() && sum == Residue(c, x1 + x2) && qx == Residue(c, x2) && lam == Residue(c, m)
    ensures var x3 := Third(m, x1, x2); X == Residue(c, x3) && Y == Residue(c, m * (x2 - x3))
  {
    hide Mod, Residue, Third;
    ghost var x3 := Third(m, x1, x2);
    var t1 := Mulm(c, lam, lam, m, m);
    X := Subm(c, t1, sum, m * m, x1 + x2);
    ThirdIs(m, x1, x2);
    Y := Subm(c, qx, X, x2, x3);
    Y := Mulm(c, Y, lam, x2 - x3, m);
    assert (x2 - x3) * m == m * (x2 - x3);
  }

  /** The slope to a point and to its reflection, as Plus takes them. */
  lemma SlopeIs(c: Ring, dy: int, dy': int, i: int, lam: int)
    requires c.Valid() && lam == Residue(c, dy * i) && Mod(dy, c.n) == Mod(dy', c.n)
    ensures lam == Residue(c, Mod(dy' * i, c.n))
  {
    Modular.Mul(dy, dy', i, i, c.n);
    Reduce(dy' * i, c.n);
    SameResidue(c, dy * i, Mod(dy' * i, c.n));
  }

  lemma Reflections(n: int, a: int, y: int)
    requires n > 0
    ensures Mod(a + y, n) == Mod(a - Mod(-y, n), n)
  {
    Reduce(-y, n);
    Modular.Sub(a, a, -y, Mod(-y, n), n);
    assert a - -y == a + y;
  }

  lemma PlusIsLine(n: int, a: int, s: Affine, t: Affine)
    requires n > 0 && s.At? && t.At? && s.x != t.x
    ensures Plus(n, a, s, t) == Line(n, Mod((s.y - t.y) * Inverse(s.x - t.x, n), n), s.x, t.x, t.y)
  {
    hide Mod, Inverse, Twice, Line;
  }

  /** The chord through P and Q; `sum` and `t2` are x1 + x2 and 1 / (x1 - x2). */
  method SumChord(c: Ring, P: Epoint, Q: Epoint, PP: Epoint, sum: int, t2: int)
    requires c.Valid() && P.Valid(c) && Q.Valid(c) && PP.Valid(c) && P.X != Q.X && PP != P && PP != Q
    requires Plain(c, P.X) != Plain(c, Q.X) && sum == Residue(c, Plain(c, P.X) + Plain(c, Q.X))
    requires t2 == Residue(c, Inverse(Plain(c, P.X) - Plain(c, Q.X), c.n))
    modifies PP
    ensures PP.Valid(c) && PP.marker == Normalized
    ensures forall a: int :: Point(c, PP) == Plus(c.n, a, Raw(c, P), Raw(c, Q))
  {
    hide Mod, Plain, Residue, Prime, Inverse, Plus, Denotes, Third, Line;
    ghost var x1, y1, x2, y2 := Plain(c, P.X), Plain(c, P.Y), Plain(c, Q.X), Plain(c, Q.Y);
    ResidueOfPlain(c, P.Y);
    ResidueOfPlain(c, Q.X);
    ResidueOfPlain(c, Q.Y);
    ghost var i := Inverse(x1 - x2, c.n);
    var t1 := Subm(c, P.Y, Q.Y, y1, y2);
    var lam := Mulm(c, t1, t2, y1 - y2, i);
    SlopeIs(c, y1 - y2, y1 - y2, i, lam);
    ghost var m := Mod((y1 - y2) * i, c.n);
    var X, Y := Chord(c, sum, Q.X, lam, x1, x2, m);
    ghost var x3 := Third(m, x1, x2);
    Y := Subm(c, Y, Q.Y, m * (x2 - x3), y2);
    NormalDenotes(c, X, x3, x3);
    NormalDenotes(c, Y, m * (x2 - x3) - y2, m * (x2 - x3) - y2);
    PP.X, PP.Y, PP.marker := X, Y, Normalized;
    PointOfNormalized(c, PP);
    LineIs(c.n, m, x1, x2, y2);
    forall a: int
      ensures Point(c, PP) == Plus(c.n, a, Raw(c, P), Raw(c, Q))
    {
      PlusIsLine(c.n, a, Raw(c, P), Raw(c, Q));
    }
  }

  lemma DifferenceSlope(c: Ring, y1: int, y2: int, i: int, lam: int)
    requires c.Valid() && lam == Residue(c, (y1 + y2) * i)
    ensures lam == Residue(c, Mod((y1 - Mod(-y2, c.n)) * i, c.n))
  {
    hide Mod, Residue;
    Reflections(c.n, y1, y2);
    SlopeIs(c, y1 + y2, y1 - Mod(-y2, c.n), i, lam);
  }

  /** The chord through P and the reflected Q. */
  method DifferenceChord(c: Ring, P: Epoint, Q: Epoint, PM: Epoint, sum: int, t2: int)
    requires c.Valid() && P.Valid(c) && Q.Valid(c) && PM.Valid(c) && P.X != Q.X && PM != P && PM != Q
    requires Plain(c, P.X) != Plain(c, Q.X) && sum == Residue(c, Plain(c, P.X) + Plain(c, Q.X))
    requires t2 == Residue(c, Inverse(Plain(c, P.X) - Plain(c, Q.X), c.n))
    modifies PM
    ensures PM.Valid(c) && PM.marker == Normalized
    ensures forall a: int :: Point(c, PM) == Plus(c.n, a, Raw(c, P), Negated(c.n, Raw(c, Q)))
  {
    hide Mod, Plain, Residue, Prime, Inverse, Plus, Denotes, Third, Line;
    ghost var x1, y1, x2, y2 := Plain(c, P.X), Plain(c, P.Y), Plain(c, Q.X), Plain(c, Q.Y);
    ResidueOfPlain(c, P.Y);
    ResidueOfPlain(c, Q.X);
    ResidueOfPlain(c, Q.Y);
    ghost var i, yr := Inverse(x1 - x2, c.n), Mod(-y2, c.n);
    var t1 := Addm(c, P.Y, Q.Y, y1, y2);
    var lam := Mulm(c, t1, t2, y1 + y2, i);
    DifferenceSlope(c, y1, y2, i, lam);
    ghost var m := Mod((y1 - yr) * i, c.n);
    var X, Y := Chord(c, sum, Q.X, lam, x1, x2, m);
    ghost var x3 := Third(m, x1, x2);
    Y := Addm(c, Y, Q.Y, m * (x2 - x3), y2);
    Reflections(c.n, m * (x2 - x3), y2);
    NormalDenotes(c, X, x3, x3);
    NormalDenotes(c, Y, m * (x2 - x3) + y2, m * (x2 - x3) - yr);
    PM.X, PM.Y, PM.marker := X, Y, Normalized;
    PointOfNormalized(c, PM);
    LineIs(c.n, m, x1, x2, yr);
    forall a: int
      ensures Point(c, PM) == Plus(c.n, a, Raw(c, P), Negated(c.n, Raw(c, Q)))
    {
      PlusIsLine(c.n, a, Raw(c, P), Negated(c.n, Raw(c, Q)));
    }
  }

  /** The line through two points with different x, and the one through the first and the reflected second. */
  method BothChords(c: Ring, P: Epoint, Q: Epoint, PP: Epoint, PM: Epoint)
    requires c.Valid() && Prime(c.n) && P.Valid(c) && Q.Valid(c) && PP.Valid(c) && PM.Valid(c) && P.X != Q.X
    requires PP != P && PP != Q && PM != P && PM != Q && PM != PP
    modifies PP, PM
    ensures PP.Valid(c) && PM.Valid(c) && PP.marker == PM.marker == Normalized
    ensures forall a: int :: Point(c, PP) == Plus(c.n, a, Raw(c, P), Raw(c, Q))
    ensures forall a: int :: Point(c, PM) == Plus(c.n, a, Raw(c, P), Negated(c.n, Raw(c, Q)))
  {
    hide Mod, Plain, Residue, Prime, Inverse, Plus, Denotes, Negated;
    ghost var x1, x2 := Plain(c, P.X), Plain(c, Q.X);
    ResidueOfPlain(c, P.X);
    ResidueOfPlain(c, Q.X);
    DifferentModulo(x1, x2, c.n);
    ZeroResidue(c, x1 - x2);
    var t2 := Subm(c, P.X, Q.X, x1, x2);
    t2 := Reciprocal(c, t2, x1 - x2);
    var sum := Addm(c, P.X, Q.X, x1, x2);
    SumChord(c, P, Q, PP, sum, t2);
    DifferenceChord(c, P, Q, PM, sum, t2);
  }

  // ----- what becomes of a point at infinity -----

  /**
   * The coordinates b that a point at infinity is left with happen to lie on a line through t that gives t back:
   * t is its own opposite and b fits.
   */
  ghost predicate Accident(n: int, b: Affine, t: Affine)
    requires n > 0 && b.At? && t.At?
  {
    t.y == 0 && Mod(b.y * b.y - (b.x + 2 * t.x) * ((b.x - t.x) * (b.x - t.x)), n) == 0
  }

  ghost predicate Reduced(n: int, s: Affine) {
    s.At? ==> 0 <= s.x < n && 0 <= s.y < n
  }

  lemma OwnOpposite(n: int, y: int)
    requires n > 0 && n % 2 == 1 && 0 <= y < n
    ensures Mod(-y, n) == (if y == 0 then 0 else n - y) && (Mod(-y, n) == y <==> y == 0)
  {
    if y == 0 { Small(0, n); } else { DivMod(-y, n, -1, n - y); }
  }

  lemma SameAsReduced(x: int, y: int, n: int)
    requires n > 0 && 0 <= y < n
    ensures Mod(x, n) == y <==> Mod(x - y, n) == 0
  {
    Small(y, n);
    Small(0, n);
    if Mod(x, n) == y { Modular.Sub(x, y, y, y, n); }
    if Mod(x - y, n) == 0 { Modular.Add(x - y, 0, y, y, n); }
  }

  /** The reflected third point of a line is one of the two it was drawn through exactly when that one has y = 0. */
  lemma ThirdIsSecond(n: int, m: int, x1: int, x2: int, y2: int)
    requires n > 2 && n % 2 == 1 && 0 <= x2 < n && 0 <= y2 < n
    ensures Line(n, m, x1, x2, y2) == At(x2, y2) <==> y2 == 0 && Mod(m * m - (x1 + 2 * x2), n) == 0
  {
    var x3 := m * m - x1 - x2;
    SameAsReduced(x3, x2, n);
    assert x3 - x2 == m * m - (x1 + 2 * x2);
    if Mod(x3 - x2, n) == 0 {
      Multiple(-m, x3 - x2, n);
      Small(0, n);
      Modular.Sub(-m * (x3 - x2), 0, y2, y2, n);
      assert -m * (x3 - x2) == m * (x2 - x3) && 0 - y2 == -y2;
      OwnOpposite(n, y2);
    }
  }

  lemma ThirdIsFirst(n: int, m: int, x1: int, y1: int, x2: int, y2: int)
    requires n > 2 && n % 2 == 1 && 0 <= x1 < n && 0 <= y1 < n && Mod(m * (x1 - x2), n) == Mod(y1 - y2, n)
    ensures Line(n, m, x1, x2, y2) == At(x1, y1) <==> y1 == 0 && Mod(m * m - (x2 + 2 * x1), n) == 0
  {
    var x3 := m * m - x1 - x2;
    SameAsReduced(x3, x1, n);
    assert x3 - x1 == m * m - (x2 + 2 * x1);
    if Mod(x3 - x1, n) == 0 {
      Multiple(-m, x3 - x1, n);
      Small(0, n);
      Modular.Sub(-m * (x3 - x1), 0, m * (x1 - x2), y1 - y2, n);
      Modular.Sub(-m * (x3 - x1) - m * (x1 - x2), 0 - (y1 - y2), y2, y2, n);
      assert -m * (x3 - x1) - m * (x1 - x2) == m * (x2 - x3);
      assert 0 - (y1 - y2) - y2 == -y1;
      OwnOpposite(n, y1);
    }
  }

  /** The condition on the slope without the division. */
  lemma SlopeSquared(n: int, m: int, d: int, e: int, w: int)
    requires Prime(n) && Mod(d, n) != 0 && Mod(m * d, n) == Mod(e, n)
    ensures Mod(m * m - w, n) == 0 <==> Mod(e * e - w * (d * d), n) == 0
  {
    hide Prime;
    ZeroProduct(d, d, n);
    ZeroProduct(m * m - w, d * d, n);
    Modular.Mul(m * d, e, m * d, e, n);
    Modular.Sub(m * d * (m * d), e * e, w * (d * d), w * (d * d), n);
    assert (m * m - w) * (d * d) == m * d * (m * d) - w * (d * d) by { Curves.Square(m, d); }
  }

  lemma AccidentIs(n: int, b: Affine, t: Affine)
    requires n > 0 && b.At? && t.At?
    ensures Accident(n, b, t) <==>
              t.y == 0 && Mod(b.y * b.y - (b.x + 2 * t.x) * ((b.x - t.x) * (b.x - t.x)), n) == 0
  {
  }

  /** The slope of a chord times its width. */
  lemma SlopeOfChord(n: int, a: int, s: Affine, t: Affine) returns (m: int)
    requires Prime(n) && s.At? && t.At? && Reduced(n, s) && Reduced(n, t) && s.x != t.x
    ensures Mod(s.x - t.x, n) != 0 && Mod(m * (s.x - t.x), n) == Mod(s.y - t.y, n)
    ensures Plus(n, a, s, t) == Line(n, m, s.x, t.x, t.y)
  {
    hide Prime, Inverse, Plus, Mod, Line;
    var d, e := s.x - t.x, s.y - t.y;
    DifferentModulo(s.x, t.x, n);
    FieldInverse(d, n);
    m := Mod(e * Inverse(d, n), n);
    QuotientTimes(n, e, d, Inverse(d, n), m);
    ModIs(m * d, n);
    ModIs(e, n);
    PlusIsLine(n, a, s, t);
  }

  /** A chord gives back an end exactly by accident. */
  lemma ChordGivesBack(n: int, a: int, s: Affine, t: Affine)
    requires Prime(n) && n % 2 == 1 && s.At? && t.At? && Reduced(n, s) && Reduced(n, t) && s.x != t.x
    ensures Plus(n, a, s, t) == t <==> Accident(n, s, t)
    ensures Plus(n, a, s, t) == s <==> Accident(n, t, s)
  {
    hide Prime, Plus, Mod, Line, Accident;
    var m := SlopeOfChord(n, a, s, t);
    BackToSecond(n, m, s, t);
    BackToFirst(n, m, s, t);
  }

  lemma BackToSecond(n: int, m: int, s: Affine, t: Affine)
    requires Prime(n) && n % 2 == 1 && s.At? && t.At? && Reduced(n, s) && Reduced(n, t)
    requires Mod(s.x - t.x, n) != 0 && Mod(m * (s.x - t.x), n) == Mod(s.y - t.y, n)
    ensures Line(n, m, s.x, t.x, t.y) == t <==> Accident(n, s, t)
  {
    hide Prime, Mod, Line, Accident;
    ThirdIsSecond(n, m, s.x, t.x, t.y);
    AccidentIs(n, s, t);
    if t.y == 0 {
      assert s.y - t.y == s.y;
      SlopeSquared(n, m, s.x - t.x, s.y, s.x + 2 * t.x);
    }
  }

  lemma BackToFirst(n: int, m: int, s: Affine, t: Affine)
    requires Prime(n) && n % 2 == 1 && s.At? && t.At? && Reduced(n, s) && Reduced(n, t)
    requires Mod(s.x - t.x, n) != 0 && Mod(m * (s.x - t.x), n) == Mod(s.y - t.y, n)
    ensures Line(n, m, s.x, t.x, t.y) == s <==> Accident(n, t, s)
  {
    hide Prime, Mod, Line, Accident;
    ThirdIsFirst(n, m, s.x, s.y, t.x, t.y);
    AccidentIs(n, t, s);
    if s.y == 0 {
      assert s.y - t.y == -t.y;
      SlopeSquared(n, m, s.x - t.x, -t.y, t.x + 2 * s.x);
      SameSquares(s.x - t.x, t.y);
      assert t.x - s.x == -(s.x - t.x);
    }
  }

  lemma SameSquares(d: int, y: int)
    ensures d * d == (-d) * (-d) && y * y == (-y) * (-y)
  {
  }

  /** Reflecting either point does not make or undo an accident. */
  lemma AccidentReflected(n: int, b: Affine, t: Affine)
    requires n > 2 && n % 2 == 1 && b.At? && t.At? && Reduced(n, b) && Reduced(n, t)
    ensures Accident(n, b, Negated(n, t)) == Accident(n, b, t) == Accident(n, Negated(n, b), t)
    ensures Reduced(n, Negated(n, b)) && Reduced(n, Negated(n, t)) && (Accident(n, b, t) ==> Negated(n, t) == t)
  {
    OwnOpposite(n, t.y);
    OwnOpposite(n, b.y);
    var w, y := (b.x + 2 * t.x) * ((b.x - t.x) * (b.x - t.x)), Mod(-b.y, n);
    Reduce(-b.y, n);
    Modular.Mul(y, -b.y, y, -b.y, n);
    assert -b.y * -b.y == b.y * b.y;
    Modular.Sub(y * y, b.y * b.y, w, w, n);
  }

  /**
   * The sum and the difference of the raw coordinates are those of the points exactly when neither point is at
   * infinity, or by accident, which takes a point of order two.
   */
  lemma RawSums(n: int, a: int, rs: Affine, rt: Affine, s: Affine, t: Affine)
    requires Prime(n) && n % 2 == 1 && rs.At? && rt.At? && Reduced(n, rs) && Reduced(n, rt) && rs.x != rt.x
    requires (s.O? || s == rs) && (t.O? || t == rt)
    ensures Plus(n, a, rs, rt) == Plus(n, a, s, t) && Plus(n, a, rs, Negated(n, rt)) == Plus(n, a, s, Negated(n, t))
            <==> if s.At? && t.At? then true
                 else if t.At? then Accident(n, rs, t)
                 else s.At? && Accident(n, rt, s)
    ensures Plus(n, a, rs, rt) == Plus(n, a, s, t)
            <==> Plus(n, a, rs, Negated(n, rt)) == Plus(n, a, s, Negated(n, t))
  {
    hide Prime, Twice, Mod, Line, Accident;
    AccidentReflected(n, rs, rt);
    AccidentReflected(n, rt, rs);
    ChordGivesBack(n, a, rs, rt);
    ChordGivesBack(n, a, rs, Negated(n, rt));
    LineIsPoint(n, a, rs, rt);
    LineIsPoint(n, a, rs, Negated(n, rt));
  }

  lemma LineIsPoint(n: int, a: int, s: Affine, t: Affine)
    requires n > 0 && s.At? && t.At? && s.x != t.x
    ensures Plus(n, a, s, t).At?
  {
  }

  /** X as normalisation leaves it. */
  ghost function NormX(c: Ring, p: Epoint): int
    requires c.n > 0
    reads p
  {
    if p.marker == General then Residue(c, Point(c, p).x) else p.X
  }

  /**
   * When sum and difference come out right: the X coordinates are equal, and the general routines are used, or
   * neither point is at infinity, or by accident. s and t are the points, rs and rt their raw coordinates.
   */
  ghost predicate RightFor(n: int, X1: int, X2: int, s: Affine, t: Affine, rs: Affine, rt: Affine)
    requires n > 0 && rs.At? && rt.At?
  {
    X1 == X2 || (if s.At? then t.At? || Accident(n, rt, s) else t.At? && Accident(n, rs, t))
  }

  ghost predicate RightSums(c: Ring, P: Epoint, Q: Epoint)
    requires c.n > 0
    reads P, Q
  {
    RightFor(c.n, NormX(c, P), NormX(c, Q), Point(c, P), Point(c, Q), Raw(c, P), Raw(c, Q))
  }

  /** Reflecting the points makes no difference. */
  lemma RightForReflected(n: int, X1: int, X2: int, s: Affine, t: Affine, rs: Affine, rt: Affine,
                          s': Affine, t': Affine, rs': Affine, rt': Affine)
    requires n > 2 && n % 2 == 1 && rs.At? && rt.At? && rs'.At? && rt'.At?
    requires Reduced(n, s) && Reduced(n, t) && Reduced(n, rs) && Reduced(n, rt)
    requires (s' == s || s' == Negated(n, s)) && (t' == t || t' == Negated(n, t))
    requires (s.O? ==> rs' == rs) && (t.O? ==> rt' == rt)
    ensures RightFor(n, X1, X2, s', t', rs', rt') <==> RightFor(n, X1, X2, s, t, rs, rt)
  {
    hide Accident;
    if s.O? && t.At? { AccidentReflected(n, rs, t); }
    if s.At? && t.O? { AccidentReflected(n, rt, s); }
  }

  lemma PointIsReduced(c: Ring, p: Epoint)
    requires c.Valid() && Prime(c.n) && p.Valid(c)
    ensures Reduced(c.n, Point(c, p)) && Reduced(c.n, Raw(c, p))
  {
    hide Prime, Denotes;
    if p.marker != Infinity { PointIsScaled(c, p.X, p.Y, p.Z, p.marker); } else { PointAtInfinity(c, p); }
  }

  // ----- ecurve_add_sub -----

  /** The order of the summands does not matter when there is no chord. */
  lemma VerticalSum(n: int, a: int, s: Affine, t: Affine)
    requires n > 0 && (s.At? && t.At? ==> s.x == t.x)
    ensures Plus(n, a, s, t) == Plus(n, a, t, s)
  {
  }

  /** What the chords through the raw coordinates are to the points. */
  lemma ChordsForPoints(cv: Curve, P: Epoint, Q: Epoint)
    requires cv.Valid() && P.Valid(cv.c) && Q.Valid(cv.c) && P.X != Q.X && P.marker != General && Q.marker != General
    ensures var n, a, s, t := cv.c.n, Plain(cv.c, cv.A), Point(cv.c, P), Point(cv.c, Q);
            && (Plus(n, a, Raw(cv.c, P), Raw(cv.c, Q)) == Plus(n, a, s, t) <==> RightSums(cv.c, P, Q))
            && (Plus(n, a, Raw(cv.c, P), Negated(n, Raw(cv.c, Q))) == Plus(n, a, s, Negated(n, t)) <==> RightSums(cv.c, P, Q))
  {
    hide Mod, Plain, Residue, Prime, Plus, Denotes, Accident, Negated;
    var c := cv.c;
    PointIsReduced(c, P);
    PointIsReduced(c, Q);
    PointOfNormalized(c, P);
    PointOfNormalized(c, Q);
    PointAtInfinity(c, P);
    PointAtInfinity(c, Q);
    ResidueOfPlain(c, P.X);
    ResidueOfPlain(c, Q.X);
    RawSums(c.n, Plain(c, cv.A), Raw(c, P), Raw(c, Q), Point(c, P), Point(c, Q));
  }

  /**
   * ecurve_add_sub: PP = P + Q and PM = P - Q with one inversion. With equal X coordinates the general routines do
   * the work; otherwise X and Y are taken for the points, which is exactly right when neither is at infinity.
   */
  method AddSub(cv: Curve, P: Epoint, Q: Epoint, PP: Epoint, PM: Epoint) returns (ok: bool, err: Error)
    requires cv.Valid() && P.Valid(cv.c) && Q.Valid(cv.c) && PP.Valid(cv.c) && PM.Valid(cv.c)
    requires PP != P && PP != Q && PM != P && PM != Q && PM != PP
    requires cv.affine ==> P.marker != General && Q.marker != General
    modifies Q`Y, PP, PM
    ensures ok == (P.marker != General && Q.marker != General) && err == if ok then NoError else BadParameters
    ensures Q.Y == old(Q.Y)
    ensures !ok ==> unchanged(PP) && unchanged(PM)
    ensures PP.Valid(cv.c) && PM.Valid(cv.c) && (ok && cv.affine ==> PP.marker != General && PM.marker != General)
    ensures ok && P.X != Q.X ==> PP.marker == PM.marker == Normalized
    ensures ok ==>
              (Point(cv.c, PP) == Plus(cv.c.n, Plain(cv.c, cv.A), Point(cv.c, P), Point(cv.c, Q)) <==> RightSums(cv.c, P, Q))
    ensures ok ==>
              (Point(cv.c, PM) == Plus(cv.c.n, Plain(cv.c, cv.A), Point(cv.c, P), Negated(cv.c.n, Point(cv.c, Q)))
               <==> RightSums(cv.c, P, Q))
  {
    hide Mod, Plain, Residue, Prime, Inverse, Twice, Plus, Denotes;
    var c := cv.c;
    if P.marker == General || Q.marker == General { return false, BadParameters; }
    ok, err := true, NoError;
    PointOfNormalized(c, P);
    PointOfNormalized(c, Q);
    if P.X == Q.X {
      ghost var a, s, t := Plain(c, cv.A), Point(c, P), Point(c, Q);
      PointAtInfinity(c, P);
      PointAtInfinity(c, Q);
      VerticalSum(c.n, a, s, t);
      VerticalSum(c.n, a, s, Negated(c.n, t));
      CopyPoint(c, P, PP);
      AddPoint(cv, Q, PP);
      CopyPoint(c, P, PM);
      SubPoint(cv, Q, PM);
    } else {
      ChordsForPoints(cv, P, Q);
      BothChords(c, P, Q, PP, PM);
    }
  }
}
