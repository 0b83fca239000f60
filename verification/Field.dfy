/** mrmonty.c: n-residues modulo a prime as a field; what each operation makes of the numbers it stands for. */
module Field {
  import opened Gcds
  import opened Montgomery
  import opened Residues
  import MultiInverse
  import opened Modular

  ghost predicate Prime(p: int) {
    p > 2 && forall d | 1 < d < p :: p % d != 0
  }

  // ----- n-residues stand for numbers modulo n -----

  lemma TimesStands(c: Ring, x: int, y: int)
    requires c.Valid()
    ensures Times(c, Residue(c, x), Residue(c, y)) == Residue(c, x * y)
  {
    var a, b, n := Residue(c, x), Residue(c, y), c.n;
    Reduce(x * c.R, n);
    Reduce(y * c.R, n);
    Mul(a, x * c.R, b, y * c.R, n);
    Mul(a * b, (x * c.R) * (y * c.R), c.u, c.u, n);
    assert (x * c.R) * (y * c.R) * c.u == (x * y * c.R) * (c.u * c.R);
    Small(1, n);
    Mul(x * y * c.R, x * y * c.R, c.u * c.R, 1, n);
    assert x * y * c.R * 1 == x * y * c.R;
  }

  lemma AddStands(c: Ring, x: int, y: int)
    requires c.n > 0
    ensures Mod(Residue(c, x) + Residue(c, y), c.n) == Residue(c, x + y)
    ensures Mod(Residue(c, x) - Residue(c, y), c.n) == Residue(c, x - y)
  {
    Reduce(x * c.R, c.n);
    Reduce(y * c.R, c.n);
    Modular.Add(Residue(c, x), x * c.R, Residue(c, y), y * c.R, c.n);
    Modular.Sub(Residue(c, x), x * c.R, Residue(c, y), y * c.R, c.n);
    assert (x + y) * c.R == x * c.R + y * c.R && (x - y) * c.R == x * c.R - y * c.R;
  }

  lemma ScaleStands(c: Ring, k: int, x: int)
    requires c.n > 0
    ensures Mod(Residue(c, x) * k, c.n) == Residue(c, k * x)
  {
    ModTimes(x * c.R, k, c.n);
    assert x * c.R * k == k * x * c.R;
  }

  lemma SameResidue(c: Ring, x: int, y: int)
    requires c.Valid()
    ensures Residue(c, x) == Residue(c, y) <==> Mod(x, c.n) == Mod(y, c.n)
  {
    Small(1, c.n);
    if Residue(c, x) == Residue(c, y) { Cancel(x, y, c.R, c.u, c.n); }
    if Mod(x, c.n) == Mod(y, c.n) { Mul(x, y, c.R, c.R, c.n); }
  }

  lemma ZeroResidue(c: Ring, x: int)
    requires c.Valid()
    ensures Residue(c, x) == 0 <==> Mod(x, c.n) == 0
  {
    SameResidue(c, x, 0);
    Small(0, c.n);
  }

  /** Every reduced number is the residue of the number it stands for. */
  lemma ResidueOfPlain(c: Ring, r: int)
    requires c.Valid() && 0 <= r < c.n
    ensures Residue(c, Plain(c, r)) == r
  {
    hide Mod;
    ModTimes(r * c.u, c.R, c.n);
    UnitFactor(c, r);
    assert r * c.u * c.R == r * (c.u * c.R);
    ModSmall(r, c.n);
  }

  lemma UnitFactor(c: Ring, r: int)
    requires c.Valid()
    ensures Mod(r * (c.u * c.R), c.n) == Mod(r, c.n)
  {
    Small(1, c.n);
    Mul(r, r, c.u * c.R, 1, c.n);
    assert r * 1 == r;
  }

  // ----- inverses -----

  /** The coefficients of Bezout's identity. */
  ghost function Coefficients(a: nat, b: nat): (st: (int, int))
    decreases b
  {
    if b == 0 then (1, 0) else
    var (s, t) := Coefficients(b, a % b);
    (t, s - a / b * t)
  }

  lemma {:induction false} BezoutIdentity(a: nat, b: nat)
    ensures var (s, t) := Coefficients(a, b); s * a + t * b == Gcd(a, b)
    decreases b
  {
    if b != 0 {
      BezoutIdentity(b, a % b);
      var (s, t) := Coefficients(b, a % b);
      BezoutStep(a, b, a / b, a % b, s, t);
    }
  }

  lemma BezoutStep(a: int, b: int, q: int, r: int, s: int, t: int)
    requires a == q * b + r
    ensures t * a + (s - q * t) * b == s * b + t * r
  {
    assert t * a == t * (q * b) + t * r;
    assert (s - q * t) * b == s * b - q * t * b;
    assert q * t * b == t * (q * b);
  }

  /** An inverse of a modulo n, when there is one. */
  ghost function Inverse(a: int, n: int): int
    requires n > 0
  {
    Coefficients(Mod(a, n), n).0
  }

  lemma InverseWorks(a: int, n: int)
    requires n > 1 && Gcd(Mod(a, n), n) == 1
    ensures (a * Inverse(a, n)) % n == 1
  {
    hide Gcd, Coefficients;
    var r, s, t := Mod(a, n), Inverse(a, n), Coefficients(Mod(a, n), n).1;
    BezoutIdentity(r, n);
    Witness(s * r, 1, -t, n);
    assert -t * n == -(t * n);
    Reduce(a, n);
    Mul(a, r, s, s, n);
    assert r * s == s * r;
    Small(1, n);
  }

  /** Modulo a prime everything but 0 has an inverse. */
  lemma FieldInverse(a: int, p: int)
    requires Prime(p) && Mod(a, p) != 0
    ensures Gcd(Mod(a, p), p) == 1 && (a * Inverse(a, p)) % p == 1
  {
    hide Gcd, Inverse;
    var r := Mod(a, p);
    var g := Gcd(r, p);
    GcdDivides(r, p);
    assert g > 0 && r % g == 0 && p % g == 0;
    if g > p { Small(p, g); }
    if g == p { Small(r, p); }
    assert g == 1;
    InverseWorks(a, p);
  }

  /** A product vanishes modulo a prime only with one of its factors. */
  lemma ZeroProduct(a: int, b: int, p: int)
    requires Prime(p)
    ensures Mod(a * b, p) == 0 <==> Mod(a, p) == 0 || Mod(b, p) == 0
  {
    Small(0, p);
    if Mod(a, p) == 0 { Mul(a, 0, b, b, p); }
    if Mod(b, p) == 0 { Mul(a, a, b, 0, p); }
    if Mod(a * b, p) == 0 && Mod(a, p) != 0 {
      FieldInverse(a, p);
      var u := Inverse(a, p);
      Mul(a * b, 0, u, u, p);
      Small(1, p);
      Mul(a * u, 1, b, b, p);
      assert a * u * b == a * b * u && 1 * b == b;
    }
  }

  // ----- the operations, with the numbers they stand for as ghosts -----

  method Mulm(c: Ring, a: int, b: int, ghost x: int, ghost y: int) returns (r: int)
    requires c.Valid() && a == Residue(c, x) && b == Residue(c, y)
    ensures r == Residue(c, x * y)
  {
    TimesStands(c, x, y);
    r := Times(c, a, b);
  }

  method Addm(c: Ring, a: int, b: int, ghost x: int, ghost y: int) returns (r: int)
    requires c.Valid() && a == Residue(c, x) && b == Residue(c, y)
    ensures r == Residue(c, x + y)
  {
    AddStands(c, x, y);
    LeastSum(a + b, c.n);
    r := a + b;
    if r >= c.n { r := r - c.n; }
  }

  method Subm(c: Ring, a: int, b: int, ghost x: int, ghost y: int) returns (r: int)
    requires c.Valid() && a == Residue(c, x) && b == Residue(c, y)
    ensures r == Residue(c, x - y)
  {
    AddStands(c, x, y);
    LeastSum(a - b, c.n);
    if a >= b {
      r := a - b;
    } else {
      r := c.n - (b - a);
    }
  }

  method Negate(c: Ring, a: int, ghost x: int) returns (r: int)
    requires c.Valid() && a == Residue(c, x)
    ensures r == Residue(c, -x)
  {
    Small(0, c.n);
    assert 0 * c.R == 0;
    AddStands(c, 0, x);
    LeastSum(0 - a, c.n);
    r := if a == 0 then 0 else c.n - a;
  }

  /** nres_premult: multiplication by a small ordinary integer, through additions when it is at most 6. */
  method Premult(c: Ring, a: int, k0: int, ghost x: int) returns (w: int)
    requires c.Valid() && a == Residue(c, x)
    ensures w == Residue(c, k0 * x)
  {
    hide Mod, Residue;
    if k0 == 0 {
      ScaleStands(c, 0, x);
      assert a * 0 == 0;
      ModSmall(0, c.n);
      return 0;
    }
    var k, negative := k0, false;
    if k < 0 { k, negative := -k, true; }
    if k <= 6 {
      w := SmallMultiple(c, a, k, x);
    } else {
      ScaleStands(c, k, x);
      w := Mod(a * k, c.n);
    }
    if negative {
      w := Negate(c, w, k * x);
      assert -(k * x) == k0 * x;
    }
  }

  method SmallMultiple(c: Ring, a: int, k: int, ghost x: int) returns (w: int)
    requires c.Valid() && a == Residue(c, x) && 1 <= k <= 6
    ensures w == Residue(c, k * x)
  {
    hide Mod, Residue;
    var w0;
    match k
    case 1 => w := a;
    case 2 => w := Addm(c, a, a, x, x);
    case 3 =>
      w0 := Addm(c, a, a, x, x);
      w := Addm(c, a, w0, x, x + x);
    case 4 =>
      w := Addm(c, a, a, x, x);
      w := Addm(c, w, w, x + x, x + x);
    case 5 =>
      w0 := Addm(c, a, a, x, x);
      w0 := Addm(c, w0, w0, x + x, x + x);
      w := Addm(c, a, w0, x, x + x + (x + x));
    case _ =>
      w := Addm(c, a, a, x, x);
      w0 := Addm(c, w, w, x + x, x + x);
      w := Addm(c, w, w0, x + x, x + x + (x + x));
  }

  /** nres_div2: half of an n-residue, the modulus being odd. */
  method Half(c: Ring, a: int, ghost x: int) returns (w: int)
    requires c.Valid() && c.n % 2 == 1 && a == Residue(c, 2 * x)
    ensures w == Residue(c, x)
  {
    var w1 := a;
    if w1 % 2 != 0 { w1 := w1 + c.n; }
    w := w1 / 2;
    HalfIsUnique(c, a, w, x);
  }

  lemma HalfIsUnique(c: Ring, a: int, w: int, x: int)
    requires c.Valid() && c.n % 2 == 1 && a == Residue(c, 2 * x) && (2 * w == a || 2 * w == a + c.n)
    ensures w == Residue(c, x)
  {
    var n, r := c.n, Residue(c, x);
    AddStands(c, x, x);
    LeastSum(r + r, n);
    assert 2 * x == x + x;
    assert 2 * w == 2 * r || 2 * w == 2 * r + n || 2 * w == 2 * r - n;
  }

  /** nres_moddiv by something that is not zero modulo the prime: gives the residue of the quotient. */
  method Divm(c: Ring, a: int, b: int, ghost x: int, ghost y: int) returns (w: int, ghost m: int)
    requires c.Valid() && Prime(c.n) && a == Residue(c, x) && b == Residue(c, y) && b != 0
    ensures m == Mod(x * Inverse(y, c.n), c.n) && (m * y) % c.n == x % c.n
    ensures w == Residue(c, Mod(x * Inverse(y, c.n), c.n)) && Times(c, w, b) == a
  {
    hide Inverse, Gcd, Prime;
    ZeroResidue(c, y);
    FieldInverse(y, c.n);
    FieldInverse(b, c.n) by { Small(b, c.n); }
    assert Mod(b, c.n) == b by { Small(b, c.n); }
    ghost var u := Inverse(y, c.n);
    m := Mod(x * u, c.n);
    QuotientTimes(c.n, x, y, u, m);
    var gcd, err;
    w, gcd, err := MultiInverse.ModDiv(c, a, b, false, a);
    QuotientIsUnique(c, w, m, x, y, u);
  }

  lemma QuotientTimes(n: int, x: int, y: int, u: int, m: int)
    requires n > 1 && (y * u) % n == 1 && m == Mod(x * u, n)
    ensures (m * y) % n == x % n
  {
    Small(1, n);
    Reduce(x * u, n);
    Mul(m, x * u, y, y, n);
    Mul(x, x, y * u, 1, n);
    assert x * u * y == x * (y * u) && x * 1 == x;
  }

  lemma QuotientIsUnique(c: Ring, w: int, m: int, x: int, y: int, u: int)
    requires c.Valid() && 0 <= w < c.n && (y * u) % c.n == 1 && (m * y) % c.n == x % c.n
    requires Times(c, w, Residue(c, y)) == Residue(c, x)
    ensures w == Residue(c, m)
  {
    var v, n := Plain(c, w), c.n;
    ResidueOfPlain(c, w);
    TimesStands(c, v, y);
    SameResidue(c, v * y, x);
    Small(1, n);
    assert u * y == y * u;
    Cancel(v, m, y, u, n);
    SameResidue(c, v, m);
  }
}
