/** The chord and tangent law that mrcurve.c computes: sums of points of the curve are points of the curve. */
module CurveLaw {
  import opened Residues
  import opened Field
  import opened Curves
  import opened Modular

  ghost predicate OnCurve(n: int, a: int, b: int, s: Affine)
    requires n > 0
  {
    s.O? || (0 <= s.x < n && 0 <= s.y < n && Mod(s.y * s.y, n) == Mod(s.x * s.x * s.x + a * s.x + b, n))
  }

  /** The curve's equation along the line of slope m through (x2, y2). */
  function Along(a: int, b: int, m: int, x2: int, y2: int, x: int): int {
    x * x * x + a * x + b - (m * (x - x2) + y2) * (m * (x - x2) + y2)
  }

  function Alpha(a: int, m: int, x1: int, x2: int, y2: int): int {
    a + 2 * (m * m) * x2 - 2 * (m * y2) - x1 * x2 - (x1 + x2) * (m * m - x1 - x2)
  }

  function Beta(b: int, m: int, x1: int, x2: int, y2: int): int {
    b - m * m * (x2 * x2) + 2 * (m * y2) * x2 - y2 * y2 + x1 * x2 * (m * m - x1 - x2)
  }

  lemma LineSquare(m: int, x: int, x2: int, y2: int)
    ensures (m * (x - x2) + y2) * (m * (x - x2) + y2)
            == m * m * (x * x) - 2 * (m * m) * x2 * x + m * m * (x2 * x2) + 2 * (m * y2) * x - 2 * (m * y2) * x2 + y2 * y2
  {
    var d := x - x2;
    assert (m * d + y2) * (m * d + y2) == m * m * (d * d) + 2 * (m * y2) * d + y2 * y2 by { Curves.Square(m, d); }
    assert d * d == x * x - 2 * (x2 * x) + x2 * x2;
    var q := m * m;
    assert q * (x * x - 2 * (x2 * x) + x2 * x2) == q * (x * x) - 2 * q * x2 * x + q * (x2 * x2);
  }

  lemma Roots(x: int, x1: int, x2: int, x3: int)
    ensures (x - x1) * (x - x2) * (x - x3)
            == x * x * x - (x1 + x2 + x3) * (x * x) + (x1 * x2 + (x1 + x2) * x3) * x - x1 * x2 * x3
  {
    var p, q := x1 + x2, x1 * x2;
    assert (x - x1) * (x - x2) == x * x - p * x + q;
    assert (x * x - p * x + q) * x == x * x * x - p * (x * x) + q * x;
    assert (x * x - p * x + q) * x3 == x3 * (x * x) - p * x3 * x + q * x3;
  }

  /** Along the line the equation is the product of its roots up to a linear remainder. */
  lemma LineMeetsCurve(a: int, b: int, m: int, x1: int, x2: int, y2: int, x: int)
    ensures Along(a, b, m, x2, y2, x)
            == (x - x1) * (x - x2) * (x - (m * m - x1 - x2)) + Alpha(a, m, x1, x2, y2) * x + Beta(b, m, x1, x2, y2)
  {
    var x3 := m * m - x1 - x2;
    LineSquare(m, x, x2, y2);
    Roots(x, x1, x2, x3);
    var e, f := 2 * (m * m) * x2, 2 * (m * y2);
    assert (a + e - f - x1 * x2 - (x1 + x2) * x3) * x == a * x + e * x - f * x - (x1 * x2 + (x1 + x2) * x3) * x;
  }

  /** The third intersection lies on the curve once the linear remainder vanishes. */
  lemma ThirdPoint(n: int, a: int, b: int, m: int, x1: int, x2: int, y2: int)
    requires n > 0 && Mod(Alpha(a, m, x1, x2, y2), n) == 0 && Mod(Along(a, b, m, x2, y2, x2), n) == 0
    ensures Mod(Along(a, b, m, x2, y2, m * m - x1 - x2), n) == 0
  {
    hide Along, Alpha, Beta;
    var x3, e, f := m * m - x1 - x2, Alpha(a, m, x1, x2, y2), Beta(b, m, x1, x2, y2);
    LineMeetsCurve(a, b, m, x1, x2, y2, x2);
    LineMeetsCurve(a, b, m, x1, x2, y2, x3);
    assert (x2 - x1) * (x2 - x2) * (x2 - x3) == 0 && (x3 - x1) * (x3 - x2) * (x3 - x3) == 0;
    Multiple(x2, e, n);
    Multiple(x3, e, n);
    assert e * x2 == x2 * e && e * x3 == x3 * e;
    SumDivides(e * x2 + f, e * x2, n);
    assert e * x2 + f - e * x2 == f;
    SumDivides(e * x3, f, n);
  }

  /** A chord through two different points of the curve leaves no linear remainder. */
  lemma ChordRemainder(n: int, a: int, b: int, m: int, x1: int, x2: int, y2: int)
    requires Prime(n) && Mod(x1 - x2, n) != 0
    requires Mod(Along(a, b, m, x2, y2, x1), n) == 0 && Mod(Along(a, b, m, x2, y2, x2), n) == 0
    ensures Mod(Alpha(a, m, x1, x2, y2), n) == 0
  {
    hide Along, Alpha, Beta;
    var x3, e, f := m * m - x1 - x2, Alpha(a, m, x1, x2, y2), Beta(b, m, x1, x2, y2);
    LineMeetsCurve(a, b, m, x1, x2, y2, x1);
    LineMeetsCurve(a, b, m, x1, x2, y2, x2);
    assert (x1 - x1) * (x1 - x2) * (x1 - x3) == 0 && (x2 - x1) * (x2 - x2) * (x2 - x3) == 0;
    SumDivides(e * x1 + f, e * x2 + f, n);
    assert e * x1 + f - (e * x2 + f) == e * (x1 - x2);
    ZeroProduct(e, x1 - x2, n);
  }

  /** The tangent leaves no linear remainder. */
  lemma TangentRemainder(n: int, a: int, m: int, x: int, y: int)
    requires n > 0 && (m * (2 * y)) % n == (3 * x * x + a) % n
    ensures Mod(Alpha(a, m, x, x, y), n) == 0
  {
    assert Alpha(a, m, x, x, y) == 3 * x * x + a - m * (2 * y) by {
      var q := m * m;
      assert (x + x) * (q - x - x) == 2 * q * x - 4 * (x * x);
    }
    Modular.Sub(3 * x * x + a, m * (2 * y), m * (2 * y), m * (2 * y), n);
    assert m * (2 * y) - m * (2 * y) == 0;
    Small(0, n);
  }

  /** On the curve exactly when the equation vanishes along the line at a point of the line. */
  lemma OnLine(n: int, a: int, b: int, m: int, x2: int, y2: int, x: int, y: int)
    requires n > 0 && Mod(y, n) == Mod(m * (x - x2) + y2, n)
    ensures Mod(Along(a, b, m, x2, y2, x), n) == 0 <==> Mod(y * y, n) == Mod(x * x * x + a * x + b, n)
  {
    var l, f := m * (x - x2) + y2, x * x * x + a * x + b;
    Mul(y, l, y, l, n);
    if Mod(y * y, n) == Mod(f, n) {
      Modular.Sub(f, l * l, l * l, l * l, n);
      assert l * l - l * l == 0;
      Small(0, n);
    }
    if Mod(f - l * l, n) == 0 {
      Small(0, n);
      Modular.Add(f - l * l, 0, l * l, l * l, n);
      assert f - l * l + l * l == f && 0 + l * l == l * l;
    }
  }

  /** The reflected third intersection, reduced modulo n, is a point of the curve. */
  lemma LineIsOnCurve(n: int, a: int, b: int, m: int, x1: int, x2: int, y2: int)
    requires n > 0 && Mod(Along(a, b, m, x2, y2, m * m - x1 - x2), n) == 0
    ensures OnCurve(n, a, b, Line(n, m, x1, x2, y2))
  {
    hide Along;
    var x3 := m * m - x1 - x2;
    var y3 := m * (x2 - x3) - y2;
    assert -y3 == m * (x3 - x2) + y2;
    OnLine(n, a, b, m, x2, y2, x3, -y3);
    var X, Y := Mod(x3, n), Mod(y3, n);
    Reduce(x3, n);
    Reduce(y3, n);
    Mul(Y, y3, Y, y3, n);
    assert -y3 * -y3 == y3 * y3;
    Mul(X, x3, X, x3, n);
    Mul(X * X, x3 * x3, X, x3, n);
    Mul(a, a, X, x3, n);
    Modular.Add(X * X * X, x3 * x3 * x3, a * X, a * x3, n);
    Modular.Add(X * X * X + a * X, x3 * x3 * x3 + a * x3, b, b, n);
  }

  lemma TwiceIsOnCurve(c: Ring, a: int, b: int, s: Affine)
    requires c.Valid() && Prime(c.n) && OnCurve(c.n, a, b, s)
    ensures OnCurve(c.n, a, b, Twice(c.n, a, s))
  {
    hide Along, Alpha, Inverse;
    if s.At? && s.y != 0 {
      var m := TangentSlope(c, s.x, s.y, a);
      TangentRemainder(c.n, a, m, s.x, s.y);
      assert m * (s.x - s.x) + s.y == s.y;
      OnLine(c.n, a, b, m, s.x, s.y, s.x, s.y);
      ThirdPoint(c.n, a, b, m, s.x, s.x, s.y);
      LineIsOnCurve(c.n, a, b, m, s.x, s.x, s.y);
    }
  }

  /** The group law stays on the curve. */
  lemma PlusIsOnCurve(c: Ring, a: int, b: int, s: Affine, t: Affine)
    requires c.Valid() && Prime(c.n) && OnCurve(c.n, a, b, s) && OnCurve(c.n, a, b, t)
    ensures OnCurve(c.n, a, b, Plus(c.n, a, s, t))
  {
    hide Along, Alpha, Inverse, Twice;
    if s == t { TwiceIsOnCurve(c, a, b, s); }
    if s.At? && t.At? && s.x != t.x {
      var m, y := ChordSlope(c.n, s.x, s.y, t.x, t.y);
      DifferentModulo(s.x, t.x, c.n);
      assert m * (s.x - t.x) + t.y == y;
      assert m * (t.x - t.x) + t.y == t.y;
      OnLine(c.n, a, b, m, t.x, t.y, s.x, s.y);
      OnLine(c.n, a, b, m, t.x, t.y, t.x, t.y);
      ChordRemainder(c.n, a, b, m, s.x, t.x, t.y);
      ThirdPoint(c.n, a, b, m, s.x, t.x, t.y);
      LineIsOnCurve(c.n, a, b, m, s.x, t.x, t.y);
    }
  }
}
