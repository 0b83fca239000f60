/** A curve of five points, and inputs on which the scalar multiplications go wrong. */
module CurveExamples {
  import opened Words
  import opened Bigs
  import opened Residues
  import opened Field
  import opened Curves
  import opened CurveBatches
  import opened ScalarMultiplication
  import Groups
  import Modular

  /** y^2 = x^3 - 3x + 1 modulo 7 in projective coordinates, with one word as the radix. */
  const Seven := Ring(7, B, 2)
  const Tiny := Curve(Seven, 2, -3, false)

  /** The multiples of the point (0, 1), a cyclic group. */
  datatype Multiple = P0 | P1 | P2 | P3 | P4

  function Index(p: Multiple): (i: nat)
    ensures i < 5
  {
    match p case P0 => 0 case P1 => 1 case P2 => 2 case P3 => 3 case P4 => 4
  }

  function Nth(i: nat): (p: Multiple)
    requires i < 5
    ensures Index(p) == i
  {
    if i == 0 then P0 else if i == 1 then P1 else if i == 2 then P2 else if i == 3 then P3 else P4
  }

  function Wrap(i: nat): (k: nat)
    requires i < 10
    ensures k < 5
  {
    if i < 5 then i else i - 5
  }

  function Sum(p: Multiple, q: Multiple): (r: Multiple)
    ensures Index(r) == Wrap(Index(p) + Index(q))
  {
    Nth(Wrap(Index(p) + Index(q)))
  }

  function Minus(p: Multiple): (r: Multiple)
    ensures Index(r) == Wrap(5 - Index(p))
  {
    Nth(Wrap(5 - Index(p)))
  }

  const Five := Groups.Group(P0, Sum, Minus)

  function Where(p: Multiple): Affine {
    match p
    case P0 => O
    case P1 => At(0, 1)
    case P2 => At(4, 5)
    case P3 => At(4, 2)
    case P4 => At(0, 6)
  }

  lemma SameIndex(p: Multiple, q: Multiple)
    requires Index(p) == Index(q)
    ensures p == q
  {
  }

  lemma SumAssociates(p: Multiple, q: Multiple, r: Multiple)
    ensures Sum(Sum(p, q), r) == Sum(p, Sum(q, r))
  {
    hide Index, Nth, Sum;
    SameIndex(Sum(Sum(p, q), r), Sum(p, Sum(q, r)));
  }

  lemma FiveIsAbelian()
    ensures Groups.Abelian(Five)
  {
    hide Index, Nth;
    forall p, q, r
      ensures Five.add(Five.add(p, q), r) == Five.add(p, Five.add(q, r))
    {
      SumAssociates(p, q, r);
    }
    forall p
      ensures Five.add(p, P0) == p && Five.add(p, Five.neg(p)) == P0
    {
      ZeroAndMinus(p);
    }
    forall p, q
      ensures Five.add(p, q) == Five.add(q, p)
    {
      SumCommutes(p, q);
    }
  }

  lemma SumCommutes(p: Multiple, q: Multiple)
    ensures Sum(p, q) == Sum(q, p)
  {
    hide Index, Nth, Sum;
    SameIndex(Sum(p, q), Sum(q, p));
  }

  lemma ZeroAndMinus(p: Multiple)
    ensures Sum(p, P0) == p && Sum(p, Minus(p)) == P0
  {
    hide Nth, Sum, Minus;
    SameIndex(Sum(p, P0), p);
    SameIndex(Sum(p, Minus(p)), P0);
  }

  // ----- the curve -----

  lemma SevenIsPrime()
    ensures Prime(7) && Seven.Valid() && Tiny.Valid() && Plain(Seven, 2) == 4
  {
    assert 7 % 2 == 1 && 7 % 3 == 1 && 7 % 4 == 3 && 7 % 5 == 2 && 7 % 6 == 1;
  }

  /** A slope that fits is the one that the group law names. */
  lemma FittingSlope(e: int, d: int, m: int)
    requires Modular.Mod(d, 7) != 0 && 0 <= m < 7 && (m * d) % 7 == e % 7
    ensures Modular.Mod(e * Inverse(d, 7), 7) == m
  {
    hide Inverse;
    SevenIsPrime();
    FieldInverse(d, 7);
    var i := Inverse(d, 7);
    var q := Modular.Mod(e * i, 7);
    QuotientTimes(7, e, d, i, q);
    assert i * d == d * i;
    Modular.Small(1, 7);
    Modular.Cancel(q, m, d, i, 7);
    Modular.Small(m, 7);
    Modular.Small(q, 7);
  }

  lemma TangentAt(x: int, y: int, m: int, q: Affine)
    requires y != 0 && 0 <= m < 7 && Modular.Mod(2 * y, 7) != 0 && (m * (2 * y)) % 7 == (3 * x * x + 4) % 7
    requires q == Line(7, m, x, x, y)
    ensures Plus(7, 4, At(x, y), At(x, y)) == q
  {
    hide Inverse;
    FittingSlope(3 * x * x + 4, 2 * y, m);
  }

  lemma ChordAt(x1: int, y1: int, x2: int, y2: int, m: int, q: Affine)
    requires x1 != x2 && 0 <= m < 7 && Modular.Mod(x1 - x2, 7) != 0 && (m * (x1 - x2)) % 7 == (y1 - y2) % 7
    requires q == Line(7, m, x1, x2, y2)
    ensures Plus(7, 4, At(x1, y1), At(x2, y2)) == q
  {
    hide Inverse;
    FittingSlope(y1 - y2, x1 - x2, m);
  }

  lemma WhereTable()
    ensures Where(P0) == O && Where(P1) == At(0, 1) && Where(P2) == At(4, 5) && Where(P3) == At(4, 2) && Where(P4) == At(0, 6)
  {
  }

  lemma SumIs(p: Multiple, q: Multiple, r: Multiple)
    requires Index(r) == Wrap(Index(p) + Index(q))
    ensures Sum(p, q) == r
  {
    hide Index, Nth, Sum;
    SameIndex(Sum(p, q), r);
  }

  lemma OppositeAt(x: int, y: int, y': int)
    requires y != y'
    ensures Plus(7, 4, At(x, y), At(x, y')) == O
  {
  }

  lemma SumsWithFirst(q: Multiple)
    ensures Plus(7, 4, Where(P1), Where(q)) == Where(Sum(P1, q))
  {
    hide Plus, Sum, Where;
    WhereTable();
    match q
    case P0 =>
      SumIs(P1, P0, P1);
      PlusInfinity(7, 4, At(0, 1));
    case P1 =>
      SumIs(P1, P1, P2);
      TangentAt(0, 1, 2, At(4, 5));
    case P2 =>
      SumIs(P1, P2, P3);
      ChordAt(0, 1, 4, 5, 1, At(4, 2));
    case P3 =>
      SumIs(P1, P3, P4);
      ChordAt(0, 1, 4, 2, 2, At(0, 6));
    case P4 =>
      SumIs(P1, P4, P0);
      OppositeAt(0, 1, 6);
  }

  lemma SumsWithSecond(q: Multiple)
    ensures Plus(7, 4, Where(P2), Where(q)) == Where(Sum(P2, q))
  {
    hide Plus, Sum, Where;
    WhereTable();
    match q
    case P0 =>
      SumIs(P2, P0, P2);
      PlusInfinity(7, 4, At(4, 5));
    case P1 =>
      SumIs(P2, P1, P3);
      ChordAt(4, 5, 0, 1, 1, At(4, 2));
    case P2 =>
      SumIs(P2, P2, P4);
      TangentAt(4, 5, 1, At(0, 6));
    case P3 =>
      SumIs(P2, P3, P0);
      OppositeAt(4, 5, 2);
    case P4 =>
      SumIs(P2, P4, P1);
      ChordAt(4, 5, 0, 6, 5, At(0, 1));
  }

  lemma SumsWithThird(q: Multiple)
    ensures Plus(7, 4, Where(P3), Where(q)) == Where(Sum(P3, q))
  {
    hide Plus, Sum, Where;
    WhereTable();
    match q
    case P0 =>
      SumIs(P3, P0, P3);
      PlusInfinity(7, 4, At(4, 2));
    case P1 =>
      SumIs(P3, P1, P4);
      ChordAt(4, 2, 0, 1, 2, At(0, 6));
    case P2 =>
      SumIs(P3, P2, P0);
      OppositeAt(4, 2, 5);
    case P3 =>
      SumIs(P3, P3, P1);
      TangentAt(4, 2, 6, At(0, 1));
    case P4 =>
      SumIs(P3, P4, P2);
      ChordAt(4, 2, 0, 6, 6, At(4, 5));
  }

  lemma SumsWithFourth(q: Multiple)
    ensures Plus(7, 4, Where(P4), Where(q)) == Where(Sum(P4, q))
  {
    hide Plus, Sum, Where;
    WhereTable();
    match q
    case P0 =>
      SumIs(P4, P0, P4);
      PlusInfinity(7, 4, At(0, 6));
    case P1 =>
      SumIs(P4, P1, P0);
      OppositeAt(0, 6, 1);
    case P2 =>
      SumIs(P4, P2, P1);
      ChordAt(0, 6, 4, 5, 5, At(0, 1));
    case P3 =>
      SumIs(P4, P3, P2);
      ChordAt(0, 6, 4, 2, 6, At(4, 5));
    case P4 =>
      SumIs(P4, P4, P3);
      TangentAt(0, 6, 5, At(4, 2));
  }

  lemma SumsOfPoints(p: Multiple, q: Multiple)
    ensures Plus(7, 4, Where(p), Where(q)) == Where(Sum(p, q))
  {
    hide Plus, Sum, Where;
    match p
    case P0 => SumsWithZero(q);
    case P1 => SumsWithFirst(q);
    case P2 => SumsWithSecond(q);
    case P3 => SumsWithThird(q);
    case P4 => SumsWithFourth(q);
  }

  lemma SumsWithZero(q: Multiple)
    ensures Plus(7, 4, Where(P0), Where(q)) == Where(Sum(P0, q))
  {
  }

  /** The five points form a group under the chord and tangent law. */
  lemma FivePoints()
    ensures PointsOf(Tiny, Five, Where)
  {
    hide Plus, Sum, Minus, Groups.Abelian;
    SevenIsPrime();
    FiveIsAbelian();
    forall p, q
      ensures Where(Five.add(p, q)) == Plus(7, Plain(Seven, 2), Where(p), Where(q))
    {
      SumsOfPoints(p, q);
    }
    forall p
      ensures Where(Five.neg(p)) == Negated(7, Where(p))
    {
      Reflected(p);
    }
  }

  lemma Reflected(p: Multiple)
    ensures Where(Minus(p)) == Negated(7, Where(p))
  {
  }

  // ----- inputs on which the code fails -----

  lemma OneMoreTime(k: nat, p: Multiple, q: Multiple)
    requires Groups.Times(Five, k, P1) == p && Index(q) == Wrap(Index(p) + 1)
    ensures Groups.Times(Five, k + 1, P1) == q
  {
    hide Nth, Sum;
    SumIs(p, P1, q);
  }

  lemma FiveTimesIsZero()
    ensures Groups.Times(Five, 5, P1) == P0
  {
    hide Nth, Sum;
    assert Groups.Times(Five, 0, P1) == P0;
    OneMoreTime(0, P0, P1);
    OneMoreTime(1, P1, P2);
    OneMoreTime(2, P2, P3);
    OneMoreTime(3, P3, P4);
    OneMoreTime(4, P4, P0);
  }

  /** The point (0, 1) as epoint_set stores it. */
  method SetFirst(p: Epoint)
    modifies p
    ensures p.Valid(Seven) && p.marker == Normalized && Point(Seven, p) == Where(P1) && p.X == 0
  {
    hide Plain, Residue, Modular.Mod;
    SevenIsPrime();
    p.X, p.Y, p.Z, p.marker := 0, Residue(Seven, 1), 0, Normalized;
    PlainOf(0);
    PlainOf(1);
    assert Residue(Seven, 0) == 0 by { ZeroResidue(Seven, 0); Modular.ModSmall(0, 7); }
  }

  lemma PlainOf(v: int)
    requires 0 <= v < 7
    ensures Plain(Seven, Residue(Seven, v)) == v
  {
    hide Plain, Residue;
    SevenIsPrime();
    ResidueOfPlain(Seven, Residue(Seven, v));
    SameResidue(Seven, Plain(Seven, Residue(Seven, v)), v);
    Modular.ModSmall(v, 7);
    Modular.ModSmall(Plain(Seven, Residue(Seven, v)), 7);
  }

  /** Five times a point of order five is not the point at infinity. */
  method FiveTimes() returns (err: Error, pt: Epoint)
    ensures Groups.Times(Five, 5, P1) == P0
    ensures err == DivByZero || Point(Seven, pt) != Where(P0)
  {
    hide Where, Sum, Minus, Groups.Times, PointsOf, Prime, Plain, Denotes, Modular.Mod, NoOddZero;
    SevenIsPrime();
    FivePoints();
    FiveTimesIsZero();
    var p := new Epoint();
    SetFirst(p);
    pt := new Epoint();
    err := EcurveMult(Tiny, 5, p, pt, Five, Where, P1);
  }

  /** Twice the point at infinity is an error. */
  method TwiceInfinity() returns (err: Error)
    ensures err == DivByZero
  {
    SevenIsPrime();
    FivePoints();
    var p := new Epoint();
    var pt := new Epoint();
    SetInfinity(Seven, p);
    err := EcurveMult(Tiny, 2, p, pt, Five, Where, P0);
  }

  lemma WrongSum(p: Epoint, pa: Epoint)
    requires p.marker == Infinity && p.X == Residue(Seven, 1)
    requires pa.marker == Normalized && pa.X == 0 && Point(Seven, pa) == At(0, 1)
    ensures !RightSums(Seven, p, pa)
  {
    hide Denotes, Prime, Plain, Residue, Modular.Mod;
    SevenIsPrime();
    PointAtInfinity(Seven, p);
    OneIsNot0(Seven);
  }

  /** Infinity and a point are not added up to that point. */
  method InfinityAndPoint() returns (err: Error, pt: Epoint)
    ensures Sum(P0, P1) == P1 && err == NoError && Point(Seven, pt) != Where(P1)
  {
    hide Where, Sum, Minus, Groups.Times, Groups.Abelian, PointsOf, Prime, Plain, Denotes, Modular.Mod, NoOddZero, Residue, RightSums;
    SevenIsPrime();
    FivePoints();
    SumIs(P0, P1, P1);
    FiveIsAbelian();
    Groups.TimesOne(Five, P0);
    Groups.TimesOne(Five, P1);
    WhereTable();
    var p := new Epoint();
    var pa := new Epoint();
    SetInfinity(Seven, p);
    SetFirst(pa);
    pt := new Epoint();
    WrongSum(p, pa);
    err := EcurveMult2(Tiny, 1, p, 1, pa, pt, Five, Where, P0, P1);
  }
}
