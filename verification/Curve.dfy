/** mrcurve.c: addition, doubling and normalisation of points, in affine and in projective coordinates. */
module Curves {
  import opened Words
  import opened Montgomery
  import opened Residues
  import opened Field
  import LehmerGcd
  import opened Modular

  datatype Marker = Normalized | General | Infinity

  /** A point; X, Y and Z are n-residues. At infinity none of them counts, and Z counts only when the marker is General. */
  class Epoint {
    var X: int
    var Y: int
    var Z: int
    var marker: Marker

    /** epoint_init: the point at infinity, with coordinates of zero. */
    constructor ()
      ensures marker == Infinity && X == Y == Z == 0
    {
      X, Y, Z, marker := 0, 0, 0, Infinity;
    }

    ghost predicate Valid(c: Ring)
      reads this
    {
      && 0 <= X < c.n && 0 <= Y < c.n && 0 <= Z < c.n
      && (marker == General ==> Z > 0)
    }
  }

  /** The active curve y^2 = x^3 + ax + b: A is the residue of a, and asize is a itself when that is small. */
  datatype Curve = Curve(c: Ring, A: int, asize: int, affine: bool) {
    ghost predicate Valid() {
      && c.Valid() && Prime(c.n) && c.n % 2 == 1 && 0 <= A < c.n
      && (-LehmerGcd.MR_TOOBIG < asize < LehmerGcd.MR_TOOBIG ==> A == Residue(c, asize))
    }
  }

  // ----- the group law -----

  /** The point at infinity, or the affine coordinates, reduced modulo n. */
  datatype Affine = O | At(x: int, y: int)

  /** Where the line of slope m through (x2, y2) meets the curve again, reflected; x1 is the other known point. */
  function Line(n: int, m: int, x1: int, x2: int, y2: int): Affine
    requires n > 0
  {
    var x3 := m * m - x1 - x2;
    At(Mod(x3, n), Mod(m * (x2 - x3) - y2, n))
  }

  /** Doubling by the tangent. */
  ghost function Twice(n: int, a: int, s: Affine): Affine
    requires n > 0
  {
    if s.O? || s.y == 0 then O
    else Line(n, Mod((3 * s.x * s.x + a) * Inverse(2 * s.y, n), n), s.x, s.x, s.y)
  }

  /** Adding by the chord, or by the tangent when the points are equal. */
  ghost function Plus(n: int, a: int, s: Affine, t: Affine): Affine
    requires n > 0
  {
    if s.O? then t
    else if t.O? then s
    else if s == t then Twice(n, a, s)
    else if s.x == t.x then O
    else Line(n, Mod((s.y - t.y) * Inverse(s.x - t.x, n), n), s.x, t.x, t.y)
  }

  /** The affine point that projective coordinates stand for: X / Z^2 and Y / Z^3. */
  ghost function Denotes(c: Ring, X: int, Y: int, Z: int, marker: Marker): Affine
    requires c.n > 0
  {
    match marker
    case Infinity => O
    case Normalized => At(Plain(c, X), Plain(c, Y))
    case General =>
      var i := Inverse(Plain(c, Z), c.n);
      At(Mod(Plain(c, X) * (i * i), c.n), Mod(Plain(c, Y) * (i * i * i), c.n))
  }

  ghost function Point(c: Ring, p: Epoint): Affine
    requires c.n > 0
    reads p
  {
    Denotes(c, p.X, p.Y, p.Z, p.marker)
  }

  lemma PointAtInfinity(c: Ring, p: Epoint)
    requires c.n > 0
    ensures Point(c, p) == O <==> p.marker == Infinity
  {
  }

  lemma PointOfNormalized(c: Ring, p: Epoint)
    requires c.n > 0
    ensures p.marker == Normalized ==> Point(c, p) == At(Plain(c, p.X), Plain(c, p.Y))
  {
  }

  lemma TwiceInfinity(n: int, a: int)
    requires n > 0
    ensures Twice(n, a, O) == O
  {
  }

  /** The z that scales the coordinates; 1 for a normalised point. */
  ghost function Scale(c: Ring, Z: int, marker: Marker): int
    requires c.n > 0
  {
    if marker == General then Plain(c, Z) else 1
  }

  /** X and Y are the residues of x * z^2 and y * z^3. */
  ghost predicate Scaled(c: Ring, X: int, Y: int, x: int, y: int, z: int)
    requires c.n > 0
  {
    X == Residue(c, x * (z * z)) && Y == Residue(c, y * (z * z * z))
  }

  /** Multiplying by powers of an inverse pair gives back the number. */
  lemma Unscale(n: int, x: int, z: int, i: int)
    requires n > 1 && (z * i) % n == 1
    ensures Mod(x * (z * z) * (i * i), n) == Mod(x, n) && Mod(x * (z * z * z) * (i * i * i), n) == Mod(x, n)
  {
    Small(1, n);
    var e := z * i;
    Mul(e, 1, e, 1, n);
    Mul(e * e, 1, e, 1, n);
    Mul(x, x, e * e, 1, n);
    Mul(x, x, e * e * e, 1, n);
    assert x * (z * z) * (i * i) == x * (e * e);
    assert x * (z * z * z) * (i * i * i) == x * (e * e * e);
    assert x * 1 == x;
  }

  /** A valid point that is not infinity is the scaled form of the affine point it denotes. */
  lemma PointIsScaled(c: Ring, X: int, Y: int, Z: int, marker: Marker)
    requires c.Valid() && Prime(c.n) && marker != Infinity && 0 <= X < c.n && 0 <= Y < c.n
    requires marker == General ==> 0 < Z < c.n
    ensures var s := Denotes(c, X, Y, Z, marker);
            && s.At? && 0 <= s.x < c.n && 0 <= s.y < c.n
            && Scaled(c, X, Y, s.x, s.y, Scale(c, Z, marker))
    ensures Mod(Scale(c, Z, marker), c.n) != 0 && (marker == General ==> Z == Residue(c, Scale(c, Z, marker)))
  {
    hide Mod, Prime, Inverse, Plain, Residue;
    ResidueOfPlain(c, X);
    ResidueOfPlain(c, Y);
    var n, z := c.n, Scale(c, Z, marker);
    if marker == Normalized {
      ModSmall(1, n);
      assert z == 1 && forall t: int :: t * (z * z) == t && t * (z * z * z) == t;
    } else {
      ResidueOfPlain(c, Z);
      ZeroResidue(c, z);
      FieldInverse(z, n);
      var i := Inverse(z, n);
      Rescale(c, Plain(c, X), Plain(c, Y), z, i);
    }
  }

  lemma Rescale(c: Ring, a: int, b: int, z: int, i: int)
    requires c.Valid() && (z * i) % c.n == 1
    ensures Residue(c, Mod(a * (i * i), c.n) * (z * z)) == Residue(c, a)
    ensures Residue(c, Mod(b * (i * i * i), c.n) * (z * z * z)) == Residue(c, b)
  {
    hide Mod, Residue;
    assert i * z == z * i;
    Unscale(c.n, a, i, z);
    Unscale(c.n, b, i, z);
    ModTimes(a * (i * i), z * z, c.n);
    ModTimes(b * (i * i * i), z * z * z, c.n);
    SameResidue(c, Mod(a * (i * i), c.n) * (z * z), a);
    SameResidue(c, Mod(b * (i * i * i), c.n) * (z * z * z), b);
  }

  /** Coordinates scaled by a z that is not zero denote the affine point. */
  lemma ScaledDenotes(c: Ring, X: int, Y: int, Z: int, x: int, y: int, z: int)
    requires c.Valid() && Prime(c.n) && Scaled(c, X, Y, x, y, z) && Z == Residue(c, z) && Mod(z, c.n) != 0
    ensures 0 < Z < c.n && 0 <= X < c.n && 0 <= Y < c.n
    ensures Denotes(c, X, Y, Z, General) == At(Mod(x, c.n), Mod(y, c.n))
  {
    hide Mod, Prime, Inverse, Plain, Residue;
    var n, v := c.n, Plain(c, Z);
    ZeroResidue(c, z);
    ResidueOfPlain(c, Z);
    SameResidue(c, v, z);
    FieldInverse(v, n);
    var i := Inverse(v, n);
    ResidueOfPlain(c, X);
    ResidueOfPlain(c, Y);
    SameResidue(c, Plain(c, X), x * (z * z));
    SameResidue(c, Plain(c, Y), y * (z * z * z));
    Descale(n, Plain(c, X), Plain(c, Y), v, i, x, y, z);
  }

  lemma Descale(n: int, a: int, b: int, v: int, i: int, x: int, y: int, z: int)
    requires n > 1 && (v * i) % n == 1 && Mod(v, n) == Mod(z, n)
    requires Mod(a, n) == Mod(x * (z * z), n) && Mod(b, n) == Mod(y * (z * z * z), n)
    ensures Mod(a * (i * i), n) == Mod(x, n) && Mod(b * (i * i * i), n) == Mod(y, n)
  {
    Mul(v, z, i, i, n);
    Unscale(n, x, z, i);
    Unscale(n, y, z, i);
    Mul(a, x * (z * z), i * i, i * i, n);
    Mul(b, y * (z * z * z), i * i * i, i * i * i, n);
  }

  // ----- normalisation -----

  /** X / Z^2 and Y / Z^3 by the inverse of Z, as both normalisations work them out. */
  method ScaleDown(c: Ring, p: Epoint, inv: int)
    requires c.Valid() && p.Valid(c)
    modifies p
    ensures p.Valid(c) && p.marker == Normalized && p.Z == Residue(c, 1)
    ensures p.X == Times(c, old(p.X), Times(c, inv, inv)) && p.Y == Times(c, old(p.Y), Times(c, Times(c, inv, inv), inv))
  {
    hide Mod, Residue, Times;
    p.Z := Residue(c, 1);
    p.marker := Normalized;
    var w1 := Times(c, inv, inv);
    p.X := Times(c, p.X, w1);
    w1 := Times(c, w1, inv);
    p.Y := Times(c, p.Y, w1);
  }

  /** What Z is for the normalisations: one, unless the marker says that it counts or the point is at infinity. */
  function Divisor(c: Ring, Z: int, marker: Marker): int
    requires c.n > 0
  {
    if marker == Normalized then Residue(c, 1) else Z
  }

  /** Scaling down by the inverse of Z keeps a point that is not infinity. */
  lemma ScaledDownIsSame(c: Ring, X: int, Y: int, Z: int, marker: Marker, inv: int)
    requires c.Valid() && Prime(c.n) && marker != Infinity && 0 <= X < c.n && 0 <= Y < c.n && 0 <= inv < c.n
    requires marker == General ==> 0 < Z < c.n
    requires Times(c, inv, Divisor(c, Z, marker)) == Residue(c, 1)
    ensures var s := Denotes(c, X, Y, Z, marker);
            && s.At? && Plain(c, Times(c, X, Times(c, inv, inv))) == s.x
            && Plain(c, Times(c, Y, Times(c, Times(c, inv, inv), inv))) == s.y
  {
    hide Mod, Prime, Inverse, Plain, Residue, Denotes, Times;
    PointIsScaled(c, X, Y, Z, marker);
    var s, z, i := Denotes(c, X, Y, Z, marker), Scale(c, Z, marker), Plain(c, inv);
    ResidueOfPlain(c, inv);
    TimesStands(c, i, z);
    SameResidue(c, i * z, 1);
    assert (z * i) % c.n == 1 by { ModIs(i * z, c.n); ModSmall(1, c.n); assert z * i == i * z; }
    TimesStands(c, i, i);
    TimesStands(c, i * i, i);
    TimesStands(c, s.x * (z * z), i * i);
    TimesStands(c, s.y * (z * z * z), i * i * i);
    Unscale(c.n, s.x, z, i);
    Unscale(c.n, s.y, z, i);
    NormalDenotes(c, Times(c, X, Times(c, inv, inv)), s.x * (z * z) * (i * i), s.x);
    NormalDenotes(c, Times(c, Y, Times(c, Times(c, inv, inv), inv)), s.y * (z * z * z) * (i * i * i), s.y);
  }

  /** epoint_norm: from projective to affine coordinates of the same point. */
  method Norm(cv: Curve, p: Epoint)
    requires cv.Valid() && p.Valid(cv.c)
    modifies p
    ensures p.Valid(cv.c) && Point(cv.c, p) == old(Point(cv.c, p))
    ensures cv.affine || old(p.marker) != General ==> unchanged(p)
    ensures !cv.affine && old(p.marker) == General ==> p.marker == Normalized && p.Z == Residue(cv.c, 1)
    ensures p.marker == Normalized ==> Point(cv.c, p) == At(Plain(cv.c, p.X), Plain(cv.c, p.Y))
  {
    hide Mod, Prime, Inverse, Plain, Residue, Denotes, Times;
    var c := cv.c;
    PointOfNormalized(c, p);
    if cv.affine || p.marker != General { return; }
    PointIsScaled(c, p.X, p.Y, p.Z, p.marker);
    ghost var z := Scale(c, p.Z, General);
    ghost var i;
    var w8;
    w8, i := Divm(c, Residue(c, 1), p.Z, 1, z);
    ScaledDownIsSame(c, p.X, p.Y, p.Z, p.marker, w8);
    ghost var s := Point(c, p);
    assert s == Denotes(c, p.X, p.Y, p.Z, p.marker);
    ScaleDown(c, p, w8);
    PointOfNormalized(c, p);
  }

  lemma NormalDenotes(c: Ring, X: int, t: int, x: int)
    requires c.Valid() && X == Residue(c, t) && Mod(t, c.n) == Mod(x, c.n)
    ensures Plain(c, X) == Mod(x, c.n) && 0 <= X < c.n && (0 <= x < c.n ==> Plain(c, X) == x)
  {
    ResidueOfPlain(c, X);
    SameResidue(c, Plain(c, X), x);
    SameResidue(c, t, x);
    Small(Plain(c, X), c.n);
    if 0 <= x < c.n { Small(x, c.n); }
  }

  /** epoint_set without coordinates: the point at infinity, with X and Y the residue of one and Z left as it was. */
  method SetInfinity(c: Ring, p: Epoint)
    requires c.n > 0
    modifies p`X, p`Y, p`marker
    ensures p.marker == Infinity && p.X == p.Y == Residue(c, 1) && Point(c, p) == O
  {
    p.X, p.Y, p.marker := Residue(c, 1), Residue(c, 1), Infinity;
  }

  // ----- doubling -----

  lemma Square(a: int, b: int)
    ensures (a * b) * (a * b) == a * a * (b * b) && a * b * (a * b) * (a * b) == a * a * a * (b * b * b)
  {
  }

  lemma Regroup(a: int, b: int, c: int, d: int)
    ensures a * b * (c * d) == a * c * (b * d)
  {
  }

  lemma DoubleX(x: int, m: int, h: int, t: int, W: int, Z: int, x3: int)
    requires t == x * (h * h) && W == 2 * (m * h) && Z == 2 * h && x3 == m * m - x - x
    ensures W * W - 4 * t - 4 * t == x3 * (Z * Z) && 4 * t - x3 * (Z * Z) == 4 * ((x - x3) * (h * h))
  {
    Square(m, h);
    assert x3 * (h * h) == m * m * (h * h) - t - t;
    assert x3 * (Z * Z) == 4 * (x3 * (h * h));
  }

  lemma DoubleY(x: int, y: int, m: int, h: int, W: int, Z: int, x3: int, y3: int)
    requires W == 2 * (m * h) && Z == 2 * h && y3 == m * (x - x3) - y
    ensures W * (4 * ((x - x3) * (h * h))) - 8 * (y * (h * h * h)) == y3 * (Z * Z * Z)
  {
    Regroup(m, h, x - x3, h * h);
    assert y3 * (h * (h * h)) == m * (x - x3) * (h * (h * h)) - y * (h * (h * h));
    assert Z * Z * Z == 8 * (h * (h * h));
  }

  /** With h = z * Y and Z = 2h the new coordinates are 4h^2 times x3 and 8h^3 times y3. */
  lemma DoubleIdentity(x: int, y: int, z: int, m: int, Xg: int, Yg: int, W: int, Z: int, x3: int, y3: int)
    requires Xg == x * (z * z) && Yg == y * (z * z * z) && W == 2 * Yg * m * z && Z == 2 * z * Yg
    requires x3 == m * m - x - x && y3 == m * (x - x3) - y
    ensures W * W - 4 * (Xg * (Yg * Yg)) - 4 * (Xg * (Yg * Yg)) == x3 * (Z * Z)
    ensures W * (4 * (Xg * (Yg * Yg)) - x3 * (Z * Z)) - 8 * (Yg * Yg * (Yg * Yg)) == y3 * (Z * Z * Z)
  {
    var h := z * Yg;
    var t := Xg * (Yg * Yg);
    assert t == x * (h * h) by {
      Square(z, Yg);
      Regroup(x, z * z, 1, Yg * Yg);
    }
    assert W == 2 * (m * h);
    DoubleX(x, m, h, t, W, Z, x3);
    DoubleY(x, y, m, h, W, Z, x3, y3);
    FourthPower(y, z, Yg);
  }

  lemma FourthPower(y: int, z: int, Yg: int)
    requires Yg == y * (z * z * z)
    ensures Yg * Yg * (Yg * Yg) == y * (z * Yg * (z * Yg) * (z * Yg))
  {
    Square(z, Yg);
    assert y * (z * z * z * (Yg * Yg * Yg)) == Yg * (Yg * Yg * Yg);
  }

  lemma SmallCoefficient(c: Ring, x: int, k: int, a: int, e: int)
    requires c.Valid() && Residue(c, k) == Residue(c, a)
    ensures Residue(c, (3 * x * x + k) * e) == Residue(c, (3 * x * x + a) * e)
  {
    SameResidue(c, k, a);
    Modular.Add(3 * x * x, 3 * x * x, k, a, c.n);
    Mul(3 * x * x + k, 3 * x * x + a, e, e, c.n);
    SameResidue(c, (3 * x * x + k) * e, (3 * x * x + a) * e);
  }

  /** The square of the scale, which is 1 for a normalised point. */
  method ScaleSquare(c: Ring, p: Epoint, ghost z: int) returns (w6: int)
    requires c.Valid() && p.marker != Infinity
    requires if p.marker == General then p.Z == Residue(c, z) else z == 1
    ensures w6 == Residue(c, z * z)
  {
    if p.marker == Normalized {
      w6 := Residue(c, 1);
      assert z * z == 1;
    } else {
      w6 := Mulm(c, p.Z, p.Z, z, z);
    }
  }

  /** The numerator 3x^2 + a of the slope, scaled by z^4, in each of the cases of the coefficient. */
  method SlopeNumerator(cv: Curve, p: Epoint, ghost x: int, ghost z: int, ghost a: int) returns (w8: int)
    requires cv.Valid() && p.marker != Infinity && cv.A == Residue(cv.c, a) && p.X == Residue(cv.c, x * (z * z))
    requires if p.marker == General then p.Z == Residue(cv.c, z) else z == 1
    ensures w8 == Residue(cv.c, (3 * x * x + a) * (z * z * (z * z)))
  {
    hide Mod, Prime, Residue;
    var c := cv.c;
    ghost var X, Z2 := x * (z * z), z * z;
    var small := -LehmerGcd.MR_TOOBIG < cv.asize < LehmerGcd.MR_TOOBIG;
    ghost var k := if small then cv.asize else a;
    SlopeIdentity(x, Z2, k, X);
    var w6, w3, w1 := 0, 0, 0;
    if !small || cv.asize != 0 { w6 := ScaleSquare(c, p, z); }
    if small && cv.asize == -3 {
      w3 := Subm(c, p.X, w6, X, Z2);
      w8 := Addm(c, p.X, w6, X, Z2);
      w3 := Mulm(c, w3, w8, X - Z2, X + Z2);
      ghost var t := (X - Z2) * (X + Z2);
      w8 := Addm(c, w3, w3, t, t);
      w8 := Addm(c, w8, w3, t + t, t);
    } else {
      if small {
        if cv.asize != 0 {
          w3 := Mulm(c, w6, w6, Z2, Z2);
          w3 := Premult(c, w3, cv.asize, Z2 * Z2);
        }
      } else {
        w3 := Mulm(c, w6, w6, Z2, Z2);
        w3 := Mulm(c, w3, cv.A, Z2 * Z2, a);
      }
      w1 := Mulm(c, p.X, p.X, X, X);
      w8 := Addm(c, w1, w1, X * X, X * X);
      w8 := Addm(c, w8, w1, X * X + X * X, X * X);
      if !small || cv.asize != 0 { w8 := Addm(c, w8, w3, 3 * (X * X), k * (Z2 * Z2)); }
    }
    SmallCoefficient(c, x, k, a, Z2 * Z2);
  }

  lemma SlopeIdentity(x: int, e: int, k: int, X: int)
    requires X == x * e
    ensures 3 * (X * X) + k * (e * e) == (3 * x * x + k) * (e * e)
    ensures k == -3 ==> 3 * ((X - e) * (X + e)) == (3 * x * x + k) * (e * e)
    ensures X * X + X * X + X * X == 3 * (X * X) && (k == 0 ==> 3 * (X * X) == (3 * x * x + k) * (e * e))
    ensures e * e * k == k * (e * e)
  {
    assert X * X == x * x * (e * e);
    assert (X - e) * (X + e) == X * X - e * e;
    assert (3 * x * x + k) * (e * e) == 3 * (x * x * (e * e)) + k * (e * e);
  }

  /** The numerator is the slope times the denominator. */
  lemma NumeratorIsSlope(c: Ring, x: int, y: int, z: int, a: int, m: int, Yg: int)
    requires c.Valid() && (m * (2 * y)) % c.n == (3 * x * x + a) % c.n && Yg == y * (z * z * z)
    ensures Residue(c, (3 * x * x + a) * (z * z * (z * z))) == Residue(c, 2 * Yg * m * z)
  {
    var e := z * z * (z * z);
    Mul(m * (2 * y), 3 * x * x + a, e, e, c.n);
    assert m * (2 * y) * e == 2 * (y * (z * z * z)) * m * z;
    SameResidue(c, (3 * x * x + a) * e, 2 * Yg * m * z);
  }

  /** The new coordinates from the numerator of the slope. */
  method DoubleCoordinates(c: Ring, p: Epoint, w8: int, ghost x: int, ghost y: int, ghost z: int, ghost m: int)
    requires c.Valid() && Prime(c.n) && p.marker != Infinity && Scaled(c, p.X, p.Y, x, y, z)
    requires if p.marker == General then p.Z == Residue(c, z) else z == 1
    requires w8 == Residue(c, 2 * (y * (z * z * z)) * m * z)
    modifies p
    ensures p.marker == General
    ensures ghost var x3 := m * m - x - x;
            ghost var Z := 2 * z * (y * (z * z * z));
            Scaled(c, p.X, p.Y, x3, m * (x - x3) - y, Z) && p.Z == Residue(c, Z)
  {
    hide Mod, Prime, Residue;
    ghost var Xg, Yg := x * (z * z), y * (z * z * z);
    ghost var W, Z, x3 := 2 * Yg * m * z, 2 * z * Yg, m * m - x - x;
    ghost var y3 := m * (x - x3) - y;
    ghost var q := Yg * Yg;
    ghost var t := Xg * q;
    DoubleIdentity(x, y, z, m, Xg, Yg, W, Z, x3, y3);
    var w2 := Mulm(c, p.Y, p.Y, Yg, Yg);
    var w3 := Mulm(c, p.X, w2, Xg, q);
    w3 := Addm(c, w3, w3, t, t);
    w3 := Addm(c, w3, w3, t + t, t + t);
    p.X := Mulm(c, w8, w8, W, W);
    p.X := Subm(c, p.X, w3, W * W, 4 * t);
    p.X := Subm(c, p.X, w3, W * W - 4 * t, 4 * t);
    ghost var X3 := x3 * (Z * Z);
    assert p.X == Residue(c, X3);
    DoubleZ(c, p, z, Yg);
    w2 := EightFourths(c, w2, q);
    w3 := Subm(c, w3, p.X, 4 * t, X3);
    p.Y := Mulm(c, w8, w3, W, 4 * t - X3);
    p.Y := Subm(c, p.Y, w2, W * (4 * t - X3), 8 * (q * q));
    p.marker := General;
  }

  /** The denominator 2yz goes into Z. */
  method DoubleZ(c: Ring, p: Epoint, ghost z: int, ghost Yg: int)
    requires c.Valid() && p.marker != Infinity && p.Y == Residue(c, Yg)
    requires if p.marker == General then p.Z == Residue(c, z) else z == 1
    modifies p`Z
    ensures p.Z == Residue(c, 2 * z * Yg)
  {
    hide Mod, Residue;
    if p.marker == Normalized {
      p.Z := p.Y;
      assert z * Yg == Yg;
    } else {
      p.Z := Mulm(c, p.Z, p.Y, z, Yg);
    }
    p.Z := Addm(c, p.Z, p.Z, z * Yg, z * Yg);
    assert z * Yg + z * Yg == 2 * z * Yg;
  }

  method EightFourths(c: Ring, w2: int, ghost q: int) returns (r: int)
    requires c.Valid() && w2 == Residue(c, q)
    ensures r == Residue(c, 8 * (q * q))
  {
    hide Mod, Residue;
    var w7 := Addm(c, w2, w2, q, q);
    r := Mulm(c, w7, w7, q + q, q + q);
    ghost var e := (q + q) * (q + q);
    r := Addm(c, r, r, e, e);
    assert e == 4 * (q * q);
  }

  /** ecurve_double: in both coordinate systems the denoted point is doubled. */
  method Double(cv: Curve, p: Epoint)
    requires cv.Valid() && p.Valid(cv.c) && (cv.affine ==> p.marker != General)
    modifies p
    ensures p.Valid(cv.c) && (cv.affine ==> p.marker != General)
    ensures Point(cv.c, p) == Twice(cv.c.n, Plain(cv.c, cv.A), old(Point(cv.c, p)))
    ensures old(p.marker) == Infinity ==> unchanged(p)
    ensures old(p.marker) != Infinity && p.marker == Infinity ==> p.X == p.Y == Residue(cv.c, 1) && p.Z == old(p.Z)
  {
    hide Mod, Prime, Inverse, Plain, Residue, Denotes;
    var c := cv.c;
    if p.marker == Infinity {
      PointAtInfinity(c, p);
      return;
    }
    PointIsScaled(c, p.X, p.Y, p.Z, p.marker);
    ghost var s, z, a := Point(c, p), Scale(c, p.Z, p.marker), Plain(c, cv.A);
    ResidueOfPlain(c, cv.A);
    ZeroScaled(c, s.y, z * z * z, z);
    if p.Y == 0 {
      SetInfinity(c, p);
      return;
    }
    if cv.affine {
      DoubleAffine(cv, p, s.x, s.y, a);
    } else {
      var w8 := SlopeNumerator(cv, p, s.x, z, a);
      ghost var m := TangentSlope(c, s.x, s.y, a);
      NumeratorIsSlope(c, s.x, s.y, z, a, m, s.y * (z * z * z));
      DoubleCoordinates(c, p, w8, s.x, s.y, z, m);
      NewScale(c, z, s.y * (z * z * z));
      ghost var x3 := m * m - s.x - s.x;
      ScaledDenotes(c, p.X, p.Y, p.Z, x3, m * (s.x - x3) - s.y, 2 * z * (s.y * (z * z * z)));
    }
  }

  /** A scaled coordinate is zero exactly when the coordinate is. */
  lemma ZeroScaled(c: Ring, y: int, e: int, z: int)
    requires c.Valid() && Prime(c.n) && 0 <= y < c.n && Mod(z, c.n) != 0 && (e == z * z * z || e == z * z)
    ensures Residue(c, y * e) == 0 <==> y == 0
  {
    ZeroResidue(c, y * e);
    ZeroProduct(z, z, c.n);
    ZeroProduct(z * z, z, c.n);
    ZeroProduct(y, e, c.n);
    Small(y, c.n);
  }

  lemma NewScale(c: Ring, z: int, Y: int)
    requires c.Valid() && Prime(c.n) && Mod(z, c.n) != 0 && Residue(c, Y) != 0
    ensures Mod(2 * z * Y, c.n) != 0
  {
    ZeroResidue(c, Y);
    ZeroProduct(2, z, c.n);
    ZeroProduct(2 * z, Y, c.n);
    Small(2, c.n);
  }

  /** The slope of the tangent that the group law names. */
  lemma TangentSlope(c: Ring, x: int, y: int, a: int) returns (m: int)
    requires c.Valid() && Prime(c.n) && 0 < y < c.n
    ensures m == Mod((3 * x * x + a) * Inverse(2 * y, c.n), c.n) && (m * (2 * y)) % c.n == (3 * x * x + a) % c.n
  {
    hide Inverse;
    Small(2, c.n);
    Small(y, c.n);
    ZeroProduct(2, y, c.n);
    FieldInverse(2 * y, c.n);
    m := Mod((3 * x * x + a) * Inverse(2 * y, c.n), c.n);
    QuotientTimes(c.n, 3 * x * x + a, 2 * y, Inverse(2 * y, c.n), m);
  }

  /** The x coordinate of the third intersection of a line of slope m. */
  function Third(m: int, x1: int, x2: int): int {
    m * m - x1 - x2
  }

  lemma ThirdIs(m: int, x1: int, x2: int)
    ensures Third(m, x1, x2) == m * m - x1 - x2
  {
  }

  lemma LineIs(n: int, m: int, x1: int, x2: int, y2: int)
    requires n > 0
    ensures var x3 := Third(m, x1, x2); Line(n, m, x1, x2, y2) == At(Mod(x3, n), Mod(m * (x2 - x3) - y2, n))
  {
    hide Mod;
  }

  /** The end of both affine branches: with the new X in w1, the line is followed to the new Y. */
  method FollowLine(c: Ring, lam: int, w1: int, pa: Epoint, ghost m: int, ghost x1: int, ghost x2: int, ghost y2: int)
    requires c.Valid() && pa.Valid(c) && pa.X == Residue(c, x2) && pa.Y == Residue(c, y2)
    requires lam == Residue(c, m) && w1 == Residue(c, Third(m, x1, x2))
    modifies pa
    ensures pa.Valid(c) && pa.marker == Normalized && Point(c, pa) == Line(c.n, m, x1, x2, y2)
  {
    hide Mod, Plain, Residue, Denotes, Third, Line;
    ghost var x3 := Third(m, x1, x2);
    var w2 := Subm(c, pa.X, w1, x2, x3);
    w2 := Mulm(c, w2, lam, x2 - x3, m);
    assert (x2 - x3) * m == m * (x2 - x3);
    pa.Y := Subm(c, w2, pa.Y, m * (x2 - x3), y2);
    pa.X := w1;
    pa.marker := Normalized;
    NormalDenotes(c, pa.X, x3, x3);
    NormalDenotes(c, pa.Y, m * (x2 - x3) - y2, m * (x2 - x3) - y2);
    PointOfNormalized(c, pa);
    LineIs(c.n, m, x1, x2, y2);
  }

  /** The affine branch of ecurve_double. */
  method DoubleAffine(cv: Curve, p: Epoint, ghost x: int, ghost y: int, ghost a: int)
    requires cv.Valid() && p.Valid(cv.c) && p.marker == Normalized && cv.A == Residue(cv.c, a) && 0 < y < cv.c.n
    requires Scaled(cv.c, p.X, p.Y, x, y, 1)
    modifies p
    ensures p.Valid(cv.c) && p.marker == Normalized
    ensures Point(cv.c, p) == Line(cv.c.n, Mod((3 * x * x + a) * Inverse(2 * y, cv.c.n), cv.c.n), x, x, y)
  {
    hide Mod, Prime, Inverse, Plain, Residue, Denotes, Line, Third;
    var c := cv.c;
    assert x * (1 * 1) == x && y * (1 * 1 * 1) == y;
    var w8 := Mulm(c, p.X, p.X, x, x);
    w8 := Premult(c, w8, 3, x * x);
    var w2;
    if -LehmerGcd.MR_TOOBIG < cv.asize < LehmerGcd.MR_TOOBIG {
      w2 := Residue(c, cv.asize);
      w8 := Addm(c, w8, w2, 3 * (x * x), a);
    } else {
      w8 := Addm(c, w8, cv.A, 3 * (x * x), a);
    }
    var w6 := Premult(c, p.Y, 2, y);
    ghost var m := TangentSlope(c, x, y, a);
    DoubledIsNot0(c, y);
    w8, m := Divm(c, w8, w6, 3 * (x * x) + a, 2 * y);
    assert 3 * (x * x) == 3 * x * x;
    w2 := Mulm(c, w8, w8, m, m);
    var w1 := Premult(c, p.X, 2, x);
    w1 := Subm(c, w2, w1, m * m, 2 * x);
    ThirdIs(m, x, x);
    FollowLine(c, w8, w1, p, m, x, x, y);
  }

  lemma DoubledIsNot0(c: Ring, y: int)
    requires c.Valid() && Prime(c.n) && 0 < y < c.n
    ensures Residue(c, 2 * y) != 0
  {
    Small(2, c.n);
    Small(y, c.n);
    ZeroProduct(2, y, c.n);
    ZeroResidue(c, 2 * y);
  }

  // ----- addition -----

  lemma AddX(m: int, k: int, D: int, S: int, sum: int, x3: int)
    requires S == sum * (k * k) && x3 == m * m - sum
    ensures m * k * D * (m * k * D) - D * D * S == x3 * (D * k * (D * k))
  {
    Square(D, k);
    Square(m * k, D);
    Square(m, k);
    Regroup(m * m, k * k, D * D, 1);
    Regroup(D * D, 1, sum, k * k);
    assert x3 * (D * D * (k * k)) == m * m * (D * D * (k * k)) - sum * (D * D * (k * k));
  }

  /** M = mk, S = (x1 + x2)k^2 and T = (y1 + y2)k^3 give twice the new Y. */
  lemma AddY(m: int, k: int, D: int, S: int, T: int, sum: int, x2: int, y2: int, x3: int, y3: int)
    requires S == sum * (k * k) && x3 == m * m - sum && y3 == m * (x2 - x3) - y2
    requires T == (2 * y2 - m * (x2 - (sum - x2))) * (k * k * k)
    ensures var X3 := x3 * (D * k * (D * k));
            m * k * D * (D * D * S - X3 - X3) - D * D * D * T == 2 * (y3 * (D * k * (D * k) * (D * k)))
  {
    var X3, g := x3 * (D * k * (D * k)), D * D * (k * k);
    Square(D, k);
    Regroup(D * D, 1, sum, k * k);
    assert D * D * S - X3 - X3 == (sum - x3 - x3) * g;
    Regroup(m * k, D, sum - x3 - x3, g);
    Regroup(m, k, sum - x3 - x3, D * g);
    assert m * k * D * ((sum - x3 - x3) * g) == m * (sum - x3 - x3) * (k * (D * g));
    var e := D * D * D * (k * k * k);
    assert k * (D * g) == e;
    var c := 2 * y2 - m * (x2 - (sum - x2));
    Regroup(D * D * D, 1, c, k * k * k);
    assert D * D * D * T == c * e;
    AddSlope(m, sum, x2, y2, x3, y3, e);
  }

  lemma AddSlope(m: int, sum: int, x2: int, y2: int, x3: int, y3: int, e: int)
    requires x3 == m * m - sum && y3 == m * (x2 - x3) - y2
    ensures m * (sum - x3 - x3) * e - (2 * y2 - m * (x2 - (sum - x2))) * e == 2 * (y3 * e)
  {
    assert m * (sum - x3 - x3) - (2 * y2 - m * (x2 - (sum - x2))) == 2 * y3;
  }

  /** The coordinates of both points over a common denominator, and their differences. */
  method Numerators(c: Ring, p: Epoint, pa: Epoint,
                    ghost x1: int, ghost y1: int, ghost z1: int, ghost x2: int, ghost y2: int, ghost z2: int)
    returns (w1: int, w8: int, w4: int, w5: int)
    requires c.Valid() && p.marker != Infinity && pa.marker != Infinity
    requires Scaled(c, p.X, p.Y, x1, y1, z1) && (if p.marker == General then p.Z == Residue(c, z1) else z1 == 1)
    requires Scaled(c, pa.X, pa.Y, x2, y2, z2) && (if pa.marker == General then pa.Z == Residue(c, z2) else z2 == 1)
    ensures var k := z1 * z2;
            && w1 == Residue(c, (x2 - x1) * (k * k)) && w8 == Residue(c, (y2 - y1) * (k * k * k))
            && w4 == Residue(c, x1 * (k * k)) && w5 == Residue(c, y1 * (k * k * k))
  {
    hide Mod, Residue;
    ghost var k := z1 * z2;
    w1, w8 := TimesScale(c, p, pa.X, pa.Y, x2, y2, z2, z1);
    w4, w5 := TimesScale(c, pa, p.X, p.Y, x1, y1, z1, z2);
    assert z2 * z1 == k;
    w1 := Subm(c, w1, w4, x2 * (k * k), x1 * (k * k));
    w8 := Subm(c, w8, w5, y2 * (k * k * k), y1 * (k * k * k));
    assert (x2 - x1) * (k * k) == x2 * (k * k) - x1 * (k * k);
    assert (y2 - y1) * (k * k * k) == y2 * (k * k * k) - y1 * (k * k * k);
  }

  /** X times Z^2 and Y times Z^3, Z being the denominator of the other point. */
  method TimesScale(c: Ring, q: Epoint, X: int, Y: int, ghost x: int, ghost y: int, ghost z: int, ghost zq: int)
    returns (u: int, v: int)
    requires c.Valid() && q.marker != Infinity && Scaled(c, X, Y, x, y, z)
    requires if q.marker == General then q.Z == Residue(c, zq) else zq == 1
    ensures u == Residue(c, x * (z * zq * (z * zq))) && v == Residue(c, y * (z * zq * (z * zq) * (z * zq)))
  {
    hide Mod, Residue;
    if q.marker == General {
      var w6 := Mulm(c, q.Z, q.Z, zq, zq);
      u := Mulm(c, X, w6, x * (z * z), zq * zq);
      w6 := Mulm(c, w6, q.Z, zq * zq, zq);
      v := Mulm(c, Y, w6, y * (z * z * z), zq * zq * zq);
      Square(z, zq);
      Regroup(x, z * z, 1, zq * zq);
      Regroup(y, z * z * z, 1, zq * zq * zq);
    } else {
      u, v := X, Y;
      assert z * zq == z;
    }
  }

  /** The denominator of the sum, in each of the four combinations of markers. */
  method SumZ(c: Ring, p: Epoint, pa: Epoint, w1: int, ghost z1: int, ghost z2: int, ghost D: int) returns (Z: int)
    requires c.Valid() && p.marker != Infinity && pa.marker != Infinity && w1 == Residue(c, D)
    requires if p.marker == General then p.Z == Residue(c, z1) else z1 == 1
    requires if pa.marker == General then pa.Z == Residue(c, z2) else z2 == 1
    ensures Z == Residue(c, D * (z1 * z2))
  {
    hide Mod, Residue;
    if p.marker != Normalized {
      var w3;
      if pa.marker != Normalized {
        w3 := Mulm(c, pa.Z, p.Z, z2, z1);
      } else {
        w3 := p.Z;
      }
      assert z2 * z1 == z1 * z2 && (z2 == 1 ==> z1 == z1 * z2);
      Z := Mulm(c, w3, w1, z1 * z2, D);
    } else {
      if pa.marker != Normalized {
        Z := Mulm(c, pa.Z, w1, z2, D);
      } else {
        Z := w1;
      }
      assert z1 * z2 == z2;
    }
    assert z1 * z2 * D == D * (z1 * z2);
  }

  /** X and Y of the sum from D = w1, M * D = w8, S = w4 and T = w5. */
  method SumXY(c: Ring, pa: Epoint, w1: int, w8: int, w4: int, w5: int,
               ghost m: int, ghost k: int, ghost D: int, ghost S: int, ghost T: int, ghost x3: int, ghost y3: int)
    requires c.Valid() && c.n % 2 == 1
    requires w1 == Residue(c, D) && w8 == Residue(c, m * k * D) && w4 == Residue(c, S) && w5 == Residue(c, T)
    requires m * k * D * (m * k * D) - D * D * S == x3 * (D * k * (D * k))
    requires var X3 := x3 * (D * k * (D * k));
             m * k * D * (D * D * S - X3 - X3) - D * D * D * T == 2 * (y3 * (D * k * (D * k) * (D * k)))
    modifies pa`X, pa`Y
    ensures Scaled(c, pa.X, pa.Y, x3, y3, D * k)
  {
    hide Mod, Residue;
    ghost var W, X3 := m * k * D, x3 * (D * k * (D * k));
    var w6 := Mulm(c, w1, w1, D, D);
    var v1 := Mulm(c, w1, w6, D, D * D);
    assert D * (D * D) == D * D * D;
    w6 := Mulm(c, w6, w4, D * D, S);
    ghost var e := D * D * S;
    var v4 := Mulm(c, w8, w8, W, W);
    pa.X := Subm(c, v4, w6, W * W, e);
    w6 := Subm(c, w6, pa.X, e, X3);
    w6 := Subm(c, w6, pa.X, e - X3, X3);
    var w2 := Mulm(c, w8, w6, W, e - X3 - X3);
    v1 := Mulm(c, v1, w5, D * D * D, T);
    var v5 := Subm(c, w2, v1, W * (e - X3 - X3), D * D * D * T);
    pa.Y := Half(c, v5, y3 * (D * k * (D * k) * (D * k)));
  }

  /** A slope that fits the chord, and the first point's y written through it. */
  lemma ChordSlope(n: int, x1: int, y1: int, x2: int, y2: int) returns (m: int, y: int)
    requires n > 2 && Prime(n) && 0 <= x1 < n && 0 <= x2 < n
    ensures x1 != x2 ==> m == Mod((y1 - y2) * Inverse(x1 - x2, n), n) && y == y2 - m * (x2 - x1)
    ensures x1 == x2 ==> y == y1
    ensures Mod(y, n) == Mod(y1, n)
  {
    hide Inverse, Prime;
    m, y := 0, y1;
    if x1 != x2 {
      DifferentModulo(x1, x2, n);
      FieldInverse(x1 - x2, n);
      m := Mod((y1 - y2) * Inverse(x1 - x2, n), n);
      QuotientTimes(n, y1 - y2, x1 - x2, Inverse(x1 - x2, n), m);
      y := y2 - m * (x2 - x1);
      Modular.Add(m * (x1 - x2), y1 - y2, y2, y2, n);
      assert y == m * (x1 - x2) + y2;
    }
  }

  lemma DifferentModulo(x: int, y: int, n: int)
    requires n > 0 && 0 <= x < n && 0 <= y < n
    ensures Mod(x - y, n) == 0 <==> x == y
  {
    LeastSum(x - y, n);
  }

  lemma ScaledAgain(c: Ring, X: int, Y: int, x: int, y: int, y': int, z: int)
    requires c.Valid() && Scaled(c, X, Y, x, y, z) && Mod(y, c.n) == Mod(y', c.n)
    ensures Scaled(c, X, Y, x, y', z)
  {
    Mul(y, y', z * z * z, z * z * z, c.n);
    SameResidue(c, y * (z * z * z), y' * (z * z * z));
  }

  /** A scaled difference is zero exactly when the two coordinates are equal. */
  lemma ZeroDifference(c: Ring, a: int, b: int, b': int, k: int, e: int)
    requires c.Valid() && Prime(c.n) && 0 <= a < c.n && 0 <= b < c.n && Mod(b', c.n) == Mod(b, c.n)
    requires Mod(k, c.n) != 0 && (e == k * k || e == k * k * k)
    ensures Residue(c, (a - b') * e) == 0 <==> a == b
  {
    ZeroProduct(k, k, c.n);
    ZeroProduct(k * k, k, c.n);
    ZeroProduct(a - b', e, c.n);
    Modular.Sub(a, a, b', b, c.n);
    DifferentModulo(a, b, c.n);
    ZeroResidue(c, (a - b') * e);
  }

  /** ecurve_padd: pa += p, or false when the two denote the same point and pa ought to be doubled. */
  method Padd(cv: Curve, p: Epoint, pa: Epoint) returns (ok: bool)
    requires cv.Valid() && p != pa && p.Valid(cv.c) && pa.Valid(cv.c) && p.marker != Infinity && pa.marker != Infinity
    requires cv.affine ==> p.marker == Normalized && pa.marker == Normalized
    modifies pa
    ensures ok == (Point(cv.c, p) != old(Point(cv.c, pa))) && (!ok ==> unchanged(pa))
    ensures pa.Valid(cv.c) && (cv.affine ==> pa.marker != General)
    ensures pa.marker == Infinity ==> pa.X == pa.Y == Residue(cv.c, 1) && pa.Z == old(pa.Z)
    ensures ok ==> Point(cv.c, pa) == Plus(cv.c.n, Plain(cv.c, cv.A), Point(cv.c, p), old(Point(cv.c, pa)))
  {
    hide Mod, Prime, Inverse, Plain, Residue, Denotes;
    var c := cv.c;
    PointIsScaled(c, p.X, p.Y, p.Z, p.marker);
    PointIsScaled(c, pa.X, pa.Y, pa.Z, pa.marker);
    ghost var s, t := Point(c, p), Point(c, pa);
    ghost var z1, z2 := Scale(c, p.Z, p.marker), Scale(c, pa.Z, pa.marker);
    if cv.affine {
      ok := AddAffine(c, p, pa, s.x, s.y, t.x, t.y);
      return;
    }
    ghost var m, y1 := ChordSlope(c.n, s.x, s.y, t.x, t.y);
    ScaledAgain(c, p.X, p.Y, s.x, s.y, y1, z1);
    var w1, w8, w4, w5 := Numerators(c, p, pa, s.x, y1, z1, t.x, t.y, z2);
    ghost var k := z1 * z2;
    ZeroProduct(z1, z2, c.n);
    ZeroDifference(c, t.x, s.x, s.x, k, k * k);
    ZeroDifference(c, t.y, s.y, y1, k, k * k * k);
    if w1 == 0 {
      if w8 == 0 { return false; }
      SetInfinity(c, pa);
      return true;
    }
    AddProjective(c, p, pa, w1, w8, w4, w5, s.x, y1, z1, t.x, t.y, z2, m);
    ok := true;
  }

  /** The projective branch of ecurve_padd once the denominator is known not to vanish. */
  method AddProjective(c: Ring, p: Epoint, pa: Epoint, w1: int, w8: int, w4: int, w5: int,
                       ghost x1: int, ghost y1: int, ghost z1: int, ghost x2: int, ghost y2: int, ghost z2: int, ghost m: int)
    requires c.Valid() && Prime(c.n) && c.n % 2 == 1 && p.marker != Infinity && pa.marker != Infinity
    requires if p.marker == General then p.Z == Residue(c, z1) else z1 == 1
    requires if pa.marker == General then pa.Z == Residue(c, z2) else z2 == 1
    requires y1 == y2 - m * (x2 - x1) && w1 != 0 && Mod(z1 * z2, c.n) != 0
    requires var k := z1 * z2;
             && w1 == Residue(c, (x2 - x1) * (k * k)) && w8 == Residue(c, (y2 - y1) * (k * k * k))
             && w4 == Residue(c, x1 * (k * k)) && w5 == Residue(c, y1 * (k * k * k))
    modifies pa
    ensures pa.Valid(c) && pa.marker == General && Point(c, pa) == Line(c.n, m, x1, x2, y2)
  {
    hide Mod, Prime, Inverse, Plain, Residue, Denotes;
    ghost var k := z1 * z2;
    ghost var D, sum, x3 := (x2 - x1) * (k * k), x1 + x2, m * m - x1 - x2;
    ghost var y3, S, T := m * (x2 - x3) - y2, sum * (k * k), (y1 + y2) * (k * k * k);
    SumsIdentity(x1, y1, x2, y2, m, k, D, S, T);
    var w6 := Addm(c, w4, w4, x1 * (k * k), x1 * (k * k));
    var v4 := Addm(c, w1, w6, D, x1 * (k * k) + x1 * (k * k));
    w6 := Addm(c, w5, w5, y1 * (k * k * k), y1 * (k * k * k));
    var v5 := Addm(c, w8, w6, (y2 - y1) * (k * k * k), y1 * (k * k * k) + y1 * (k * k * k));
    pa.Z := SumZ(c, p, pa, w1, z1, z2, D);
    AddX(m, k, D, S, sum, x3);
    AddY(m, k, D, S, T, sum, x2, y2, x3, y3);
    SumXY(c, pa, w1, w8, v4, v5, m, k, D, S, T, x3, y3);
    pa.marker := General;
    ZeroResidue(c, D);
    ZeroProduct(D, k, c.n);
    ScaledDenotes(c, pa.X, pa.Y, pa.Z, x3, y3, D * k);
  }

  lemma SumsIdentity(x1: int, y1: int, x2: int, y2: int, m: int, k: int, D: int, S: int, T: int)
    requires y1 == y2 - m * (x2 - x1) && D == (x2 - x1) * (k * k)
    requires S == (x1 + x2) * (k * k) && T == (y1 + y2) * (k * k * k)
    ensures D + (x1 * (k * k) + x1 * (k * k)) == S
    ensures (y2 - y1) * (k * k * k) + (y1 * (k * k * k) + y1 * (k * k * k)) == T
    ensures (y2 - y1) * (k * k * k) == m * k * D
    ensures T == (2 * y2 - m * (x2 - (x1 + x2 - x2))) * (k * k * k)
  {
    Regroup(m, x2 - x1, k, k * k);
  }

  /** The affine branch of ecurve_padd. */
  method AddAffine(c: Ring, p: Epoint, pa: Epoint, ghost x1: int, ghost y1: int, ghost x2: int, ghost y2: int) returns (ok: bool)
    requires c.Valid() && Prime(c.n) && p != pa && p.marker == Normalized && pa.marker == Normalized
    requires Scaled(c, p.X, p.Y, x1, y1, 1) && Scaled(c, pa.X, pa.Y, x2, y2, 1)
    requires 0 <= x1 < c.n && 0 <= y1 < c.n && 0 <= x2 < c.n && 0 <= y2 < c.n && pa.Valid(c)
    modifies pa
    ensures ok == (x1 != x2 || y1 != y2) && (!ok ==> unchanged(pa)) && pa.Valid(c) && pa.marker != General
    ensures pa.marker == Infinity ==> pa.X == pa.Y == Residue(c, 1) && pa.Z == old(pa.Z)
    ensures ok && x1 == x2 ==> Point(c, pa) == O
    ensures ok && x1 != x2 ==> Point(c, pa) == Line(c.n, Mod((y1 - y2) * Inverse(x1 - x2, c.n), c.n), x1, x2, y2)
  {
    hide Mod, Prime, Inverse, Plain, Residue, Denotes, Line, Third;
    assert forall v: int :: v * (1 * 1) == v && v * (1 * 1 * 1) == v;
    var w8 := Subm(c, p.Y, pa.Y, y1, y2);
    var w6 := Subm(c, p.X, pa.X, x1, x2);
    ZeroResidue(c, y1 - y2);
    ZeroResidue(c, x1 - x2);
    DifferentModulo(x1, x2, c.n);
    DifferentModulo(y1, y2, c.n);
    if w6 == 0 {
      if w8 == 0 { return false; }
      SetInfinity(c, pa);
      return true;
    }
    ghost var m;
    w8, m := Divm(c, w8, w6, y1 - y2, x1 - x2);
    var w2 := Mulm(c, w8, w8, m, m);
    var w1 := Subm(c, w2, p.X, m * m, x1);
    w1 := Subm(c, w1, pa.X, m * m - x1, x2);
    ThirdIs(m, x1, x2);
    FollowLine(c, w8, w1, pa, m, x1, x2, y2);
    ok := true;
  }

  /** ecurve_add: whatever the coordinates are, and when p and pa are the same object, pa becomes the sum. */
  method AddPoint(cv: Curve, p: Epoint, pa: Epoint)
    requires cv.Valid() && p.Valid(cv.c) && pa.Valid(cv.c)
    requires cv.affine ==> p.marker != General && pa.marker != General
    modifies pa
    ensures pa.Valid(cv.c) && (cv.affine ==> pa.marker != General)
    ensures Point(cv.c, pa) == Plus(cv.c.n, Plain(cv.c, cv.A), old(Point(cv.c, p)), old(Point(cv.c, pa)))
    ensures old(pa.marker) == Infinity ==> pa.marker == old(p.marker) && (old(p.marker) != General ==> pa.Z == old(pa.Z))
    ensures old(pa.marker) != Infinity && pa.marker == Infinity ==> pa.X == pa.Y == Residue(cv.c, 1)
  {
    hide Mod, Prime, Inverse, Plain, Residue, Denotes, Twice;
    var c := cv.c;
    PointAtInfinity(c, p);
    PointAtInfinity(c, pa);
    if p == pa {
      Double(cv, pa);
      TwiceInfinity(c.n, Plain(c, cv.A));
      return;
    }
    if pa.marker == Infinity {
      CopyPoint(c, p, pa);
      return;
    }
    if p.marker == Infinity { return; }
    var ok := Padd(cv, p, pa);
    if !ok { Double(cv, pa); }
  }

  /** epoint_copy: Z is copied only when it counts. */
  method CopyPoint(c: Ring, a: Epoint, b: Epoint)
    requires c.n > 0 && a.Valid(c) && b.Valid(c)
    modifies b
    ensures b.Valid(c) && Point(c, b) == Point(c, a) == old(Point(c, a))
    ensures b.marker == old(a.marker) && b.X == old(a.X) && b.Y == old(a.Y)
    ensures b.Z == if a.marker == General then old(a.Z) else old(b.Z)
  {
    hide Mod, Inverse, Plain;
    if a == b { return; }
    b.X, b.Y := a.X, a.Y;
    if a.marker == General { b.Z := a.Z; }
    b.marker := a.marker;
  }

  // ----- negation and subtraction -----

  /** The reflected point. */
  function Negated(n: int, s: Affine): Affine
    requires n > 0
  {
    if s.O? then O else At(s.x, Mod(-s.y, n))
  }

  /** What size(Y) != 0 and the subtraction from the modulus make of a coordinate. */
  function Opposite(n: int, y: int): int {
    if y == 0 then 0 else n - y
  }

  lemma OppositeIs(c: Ring, y: int)
    requires c.Valid() && 0 <= y < c.n
    ensures 0 <= Opposite(c.n, y) < c.n && Plain(c, Opposite(c.n, y)) == Mod(-Plain(c, y), c.n)
    ensures Opposite(c.n, Opposite(c.n, y)) == y
  {
    var n := c.n;
    Witness(Opposite(n, y), -y, if y == 0 then 0 else 1, n);
    OppositeTimes(n, y, Opposite(n, y), c.u);
  }

  lemma OppositeTimes(n: int, y: int, z: int, u: int)
    requires n > 0 && z % n == -y % n
    ensures Mod(z * u, n) == Mod(-Mod(y * u, n), n)
  {
    Modular.Mul(z, -y, u, u, n);
    Reduce(y * u, n);
    Small(0, n);
    Modular.Sub(0, 0, y * u, Mod(y * u, n), n);
    assert -y * u == 0 - y * u;
    assert 0 - Mod(y * u, n) == -Mod(y * u, n);
  }

  lemma NegatedTimes(n: int, y: int, k: int)
    requires n > 0
    ensures Mod(Mod(-y, n) * k, n) == Mod(-Mod(y * k, n), n)
  {
    Reduce(-y, n);
    OppositeTimes(n, y, Mod(-y, n), k);
  }

  /** Negating the Y of any coordinates reflects the point they denote. */
  lemma OppositeDenotes(c: Ring, X: int, Y: int, Z: int, marker: Marker)
    requires c.Valid() && marker != Infinity && 0 <= Y < c.n
    ensures 0 <= Opposite(c.n, Y) < c.n
    ensures Denotes(c, X, Opposite(c.n, Y), Z, marker) == Negated(c.n, Denotes(c, X, Y, Z, marker))
  {
    hide Mod, Inverse, Plain, Opposite;
    OppositeIs(c, Y);
    if marker == General {
      var i := Inverse(Plain(c, Z), c.n);
      NegatedTimes(c.n, Plain(c, Y), i * i * i);
    }
  }

  /** epoint_negate. */
  method Negate(c: Ring, p: Epoint)
    requires c.Valid() && p.Valid(c)
    modifies p`Y
    ensures p.Valid(c) && Point(c, p) == Negated(c.n, old(Point(c, p)))
    ensures p.Y == if p.marker == Infinity then old(p.Y) else Opposite(c.n, old(p.Y))
  {
    hide Mod, Inverse, Plain;
    if p.marker == Infinity { return; }
    OppositeDenotes(c, p.X, p.Y, p.Z, p.marker);
    if p.Y != 0 { p.Y := c.n - p.Y; }
  }

  /** A reduced point and its reflection. */
  lemma ReflectedSum(n: int, a: int, s: Affine)
    requires n > 2 && n % 2 == 1 && (s.At? ==> 0 <= s.y < n)
    ensures Plus(n, a, Negated(n, s), s) == O
  {
    if s.At? {
      var y := Mod(-s.y, n);
      if s.y != 0 {
        DivMod(-s.y, n, -1, n - s.y);
        assert y == n - s.y;
      }
      assert y == s.y ==> s.y == 0;
    }
  }

  /** ecurve_sub: pa becomes pa - p, and p comes back as it was. */
  method SubPoint(cv: Curve, p: Epoint, pa: Epoint)
    requires cv.Valid() && p.Valid(cv.c) && pa.Valid(cv.c)
    requires cv.affine ==> p.marker != General && pa.marker != General
    modifies p`Y, pa
    ensures p.Valid(cv.c) && pa.Valid(cv.c) && (cv.affine ==> pa.marker != General)
    ensures p != pa ==> p.Y == old(p.Y)
    ensures Point(cv.c, pa)
            == Plus(cv.c.n, Plain(cv.c, cv.A), Negated(cv.c.n, old(Point(cv.c, p))), old(Point(cv.c, pa)))
  {
    hide Mod, Prime, Inverse, Plain, Residue, Denotes, Twice, Plus, Opposite;
    var c := cv.c;
    ghost var a, s := Plain(c, cv.A), Point(c, p);
    PointAtInfinity(c, p);
    if p.marker != Infinity {
      PointIsScaled(c, p.X, p.Y, p.Z, p.marker);
      OppositeIs(c, p.Y);
    }
    if p == pa {
      ReflectedSum(c.n, a, s);
      SetInfinity(c, pa);
      return;
    }
    if p.marker == Infinity {
      PlusInfinity(c.n, a, Point(c, pa));
      return;
    }
    Negate(c, p);
    AddPoint(cv, p, pa);
    Negate(c, p);
  }

  lemma PlusInfinity(n: int, a: int, s: Affine)
    requires n > 0
    ensures Plus(n, a, O, s) == s && Plus(n, a, s, O) == s
  {
  }

  lemma SamePointSameCoordinates(c: Ring, X: int, Y: int, X': int, Y': int)
    requires c.Valid() && 0 <= X < c.n && 0 <= Y < c.n && 0 <= X' < c.n && 0 <= Y' < c.n
    requires Plain(c, X) == Plain(c, X') && Plain(c, Y) == Plain(c, Y')
    ensures X == X' && Y == Y'
  {
    hide Plain, Residue;
    ResidueOfPlain(c, X);
    ResidueOfPlain(c, Y);
    ResidueOfPlain(c, X');
    ResidueOfPlain(c, Y');
  }

  /** Adding in projective coordinates and normalising gives the very words that adding in affine coordinates gives. */
  method SumsAgree(cv: Curve, p: Epoint, pa: Epoint, q: Epoint, qa: Epoint)
    requires cv.Valid() && !cv.affine && {p, pa} !! {q, qa}
    requires p.Valid(cv.c) && pa.Valid(cv.c) && q.Valid(cv.c) && qa.Valid(cv.c)
    requires q.marker != General && qa.marker != General
    requires Point(cv.c, p) == Point(cv.c, q) && Point(cv.c, pa) == Point(cv.c, qa)
    modifies pa, qa
    ensures pa.marker == qa.marker != General && (pa.marker == Normalized ==> pa.X == qa.X && pa.Y == qa.Y)
  {
    hide Plus, Plain, Residue, Prime;
    var c := cv.c;
    AddPoint(cv, p, pa);
    Norm(cv, pa);
    ghost var sum := Point(c, pa);
    AddPoint(cv.(affine := true), q, qa);
    assert Point(c, pa) == sum == Point(c, qa);
    if pa.marker == Normalized { SamePointSameCoordinates(c, pa.X, pa.Y, qa.X, qa.Y); }
  }
}
