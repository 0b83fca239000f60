/** mrmonty.c: division of n-residues, and Montgomery's trick for many inverses at the price of one. */
module MultiInverse {
  import opened Words
  import opened Bigs
  import opened Gcds
  import opened Montgomery
  import opened Residues
  import LehmerGcd
  import opened Modular

  // ----- the algebra of n-residues -----

  lemma TimesCommutes(c: Ring, x: int, y: int)
    requires c.n > 0
    ensures Times(c, x, y) == Times(c, y, x)
  {
    assert x * y == y * x;
  }

  lemma TimesAssociates(c: Ring, x: int, y: int, z: int)
    requires c.n > 0
    ensures Times(c, Times(c, x, y), z) == Times(c, x, Times(c, y, z))
  {
    hide Mod;
    ModTimes(x * y * c.u, z * c.u, c.n);
    ModTimes(y * z * c.u, x * c.u, c.n);
    var a, b := Mod(x * y * c.u, c.n), Mod(y * z * c.u, c.n);
    assert a * (z * c.u) == a * z * c.u && b * (x * c.u) == x * b * c.u;
    assert (x * y * c.u) * (z * c.u) == (y * z * c.u) * (x * c.u);
  }

  lemma {:induction false} PowerUnit(a: int, b: int, k: nat, n: int)
    requires n > 0 && (a * b) % n == 1 % n
    ensures (Power(a, k) * Power(b, k)) % n == 1 % n
  {
    if k > 0 {
      PowerUnit(a, b, k - 1, n);
      Mul(a * b, 1, Power(a, k - 1) * Power(b, k - 1), 1, n);
      assert (a * b) * (Power(a, k - 1) * Power(b, k - 1)) == Power(a, k) * Power(b, k);
    }
  }

  lemma DividesResidue(a: int, n: int, d: int)
    requires d > 0 && n > 0 && Divides(d, n)
    ensures Divides(d, a) <==> Divides(d, Mod(a, n))
  {
    Multiple(a / n, n, d);
    if Divides(d, a) {
      SumDivides(a, a / n * n, d);
      assert a - a / n * n == Mod(a, n);
    }
    if Divides(d, Mod(a, n)) {
      SumDivides(Mod(a, n), a / n * n, d);
    }
  }

  lemma DividesMeans(d: int, a: int)
    requires d > 0
    ensures Divides(d, a) <==> a % d == 0
  {
  }

  lemma MutualDivisors(a: int, b: int)
    requires a > 0 && b > 0 && a % b == 0 && b % a == 0
    ensures a == b
  {
    if a < b { Small(a, b); }
    if b < a { Small(b, a); }
  }

  /** Multiplying by a unit does not change the gcd with the modulus. */
  lemma GcdOfUnitMultiple(p: nat, v: int, v': int, n: int)
    requires n > 0 && (v * v') % n == 1 % n
    ensures Gcd(Mod(p * v, n), n) == Gcd(p, n)
  {
    hide Gcd, Mod, Divides;
    var y := Mod(p * v, n);
    var g, h := Gcd(p, n), Gcd(y, n);
    GcdDivides(p, n);
    GcdDivides(y, n);
    DividesMeans(g, p);
    DividesMeans(h, y);
    DividesMeans(g, v * p);
    DividesMeans(h, v' * y);
    DividesMeans(g, h);
    DividesMeans(h, g);
    Multiple(v, p, g);
    DividesResidue(p * v, n, g);
    GcdIsGreatest(y, n, g);
    Multiple(v', y, h);
    DividesResidue(v' * y, n, h);
    BackByInverse(p, v, v', n);
    DividesResidue(p, n, h);
    GcdIsGreatest(p, n, h);
    MutualDivisors(g, h);
  }

  lemma BackByInverse(p: int, v: int, v': int, n: int)
    requires n > 0 && (v * v') % n == 1 % n
    ensures Mod(v' * Mod(p * v, n), n) == Mod(p, n)
  {
    Reduce(p * v, n);
    Mul(v', v', Mod(p * v, n), p * v, n);
    Mul(p, p, v * v', 1, n);
    assert p * (v * v') == v' * (p * v) && p * 1 == p;
  }

  // ----- products of many residues -----

  ghost function Product(s: seq<int>): int {
    if s == [] then 1 else Product(s[..|s| - 1]) * s[|s| - 1]
  }

  /** The residues multiplied one after the other. */
  ghost function Chain(c: Ring, s: seq<int>): (r: int)
    requires c.n > 0 && s != []
  {
    if |s| == 1 then s[0] else Times(c, Chain(c, s[..|s| - 1]), s[|s| - 1])
  }

  lemma ProductSnoc(s: seq<int>)
    requires s != []
    ensures Product(s) == Product(s[..|s| - 1]) * s[|s| - 1] && Product([]) == 1
  {
  }

  lemma ChainOfOne(c: Ring, s: seq<int>)
    requires c.n > 0 && s != []
    ensures |s| == 1 ==> Chain(c, s) == s[0]
  {
  }

  lemma PowerUnfolds(u: int, k: nat)
    ensures Power(u, k) == if k == 0 then 1 else u * Power(u, k - 1)
  {
  }

  lemma {:induction false} ChainIsProduct(c: Ring, s: seq<int>)
    requires c.n > 0 && s != [] && forall i | 0 <= i < |s| :: 0 <= s[i] < c.n
    ensures Chain(c, s) == Mod(Product(s) * Power(c.u, |s| - 1), c.n) && Product(s) >= 0
  {
    hide Mod, Power, Product, Chain;
    var k := |s| - 1;
    var t, b := s[..k], s[k];
    ProductSnoc(s);
    ChainOfOne(c, s);
    PowerUnfolds(c.u, k);
    PowerUnfolds(c.u, 0);
    if k == 0 {
      assert t == [];
      ModSmall(b, c.n);
    } else {
      ChainIsProduct(c, t);
      ChainSnoc(c, s);
      OneMoreFactor(c, Product(t), Power(c.u, k - 1), b);
      MulNonNeg(Product(t), b);
    }
  }

  lemma OneMoreFactor(c: Ring, p: int, v: int, b: int)
    requires c.n > 0
    ensures Times(c, Mod(p * v, c.n), b) == Mod(p * b * (c.u * v), c.n)
  {
    hide Mod;
    ModTimes(p * v, b * c.u, c.n);
    var r := Mod(p * v, c.n);
    assert r * (b * c.u) == r * b * c.u;
    assert (p * v) * (b * c.u) == (p * b) * (c.u * v);
  }

  lemma TwoMorePowers(p: int, u: int, k: nat)
    ensures p * Power(u, k) * u * u == p * Power(u, k + 2)
  {
    var v := Power(u, k);
    assert Power(u, k + 2) == u * (u * v);
    Regroup(p, v, u);
  }

  lemma Regroup(p: int, v: int, u: int)
    ensures p * v * u * u == p * (u * (u * v))
  {
    assert p * v * u * u == p * (v * u * u);
    assert v * u * u == u * (u * v);
  }

  /** The gcd that invmodp sees after the double redc is that of the plain product of the elements. */
  lemma GcdOfChain(c: Ring, s: seq<int>)
    requires c.Valid() && s != [] && forall i | 0 <= i < |s| :: 0 <= s[i] < c.n
    ensures Product(s) >= 0
    ensures Gcd(Plain(c, Plain(c, Chain(c, s))), c.n) == Gcd(Product(s), c.n)
    ensures |s| == 1 ==> Gcd(Plain(c, s[0]), c.n) == Gcd(Product(s), c.n)
  {
    hide Mod, Gcd, Power, Product;
    ChainIsProduct(c, s);
    var p, k := Product(s), |s| - 1;
    var v := Power(c.u, k);
    ModTimes(p * v, c.u, c.n);
    ModTimes(p * v * c.u, c.u, c.n);
    TwoMorePowers(p, c.u, k);
    Small(1, c.n);
    PowerUnit(c.u, c.R, k + 2, c.n);
    GcdOfUnitMultiple(p, Power(c.u, k + 2), Power(c.R, k + 2), c.n);
    if |s| == 1 {
      ProductOfOne(s);
      GcdOfUnitMultiple(p, c.u, c.R, c.n);
    }
  }

  lemma ProductOfOne(s: seq<int>)
    requires |s| == 1
    ensures Product(s) == s[0]
  {
    assert s[..0] == [] && Product([]) == 1;
  }

  /** Times the inverse of its twice reduced form, a residue gives the gcd as a residue. */
  lemma InverseOfChain(c: Ring, p: int, z: int, g: int)
    requires c.Valid() && (Plain(c, Plain(c, p)) * z) % c.n == g % c.n
    ensures Times(c, p, z) == Residue(c, g)
  {
    hide Mod;
    ModTimes(p * c.u, c.u, c.n);
    var y := Plain(c, Plain(c, p));
    ModIs(p * c.u * c.u, c.n);
    Reduce(p * c.u * c.u, c.n);
    InverseCongruence(c.n, c.R, c.u, p, y, z, g);
    ModIs(p * z * c.u, c.n);
    ModIs(g * c.R, c.n);
  }

  lemma InverseCongruence(n: int, R: int, u: int, p: int, y: int, z: int, g: int)
    requires n > 2 && (u * R) % n == 1 && y % n == (p * u * u) % n && (y * z) % n == g % n
    ensures (p * z * u) % n == (g * R) % n
  {
    Small(1, n);
    Mul(y, p * u * u, z * R, z * R, n);
    Mul(y * z, g, R, R, n);
    Mul(p * z * u, p * z * u, u * R, 1, n);
    assert (p * u * u) * (z * R) == (p * z * u) * (u * R);
    assert y * (z * R) == y * z * R;
    assert p * z * u * 1 == p * z * u;
  }

  /** Dividing by y and multiplying by y again cancel when the inverse exists. */
  lemma DivisionWorks(c: Ring, x: int, y: int, z: int)
    requires c.Valid() && Mod(Plain(c, y) * z, c.n) == 1
    ensures Times(c, Times(c, x, Residue(c, z)), y) == Mod(x, c.n)
  {
    hide Mod;
    var n, u, R := c.n, c.u, c.R;
    var i := Residue(c, z);
    ModTimes(x * i * u, y * u, n);
    ModTimes(z * R, x * u * (y * u), n);
    ModTimes(y * u, z, n);
    var t := Times(c, x, i);
    assert t * (y * u) == t * y * u;
    assert x * i * u * (y * u) == i * (x * u * (y * u));
    CancelledDivision(n, u, R, x, y, z);
  }

  /** Modulo n, z being the inverse of y * u, everything but x cancels. */
  lemma CancelledDivision(n: int, u: int, R: int, x: int, y: int, z: int)
    requires n > 2 && (u * R) % n == 1 && Mod(y * u * z, n) == 1
    ensures Mod(z * R * (x * u * (y * u)), n) == Mod(x, n)
  {
    Small(1, n);
    Mul(u * R, 1, y * u * z, 1, n);
    Mul(x, x, u * R * (y * u * z), 1, n);
    assert x * 1 == x;
    FiveFactors(z, R, x, u, y * u);
  }

  lemma FiveFactors(z: int, R: int, x: int, u: int, v: int)
    ensures z * R * (x * u * v) == x * (u * R * (v * z))
  {
    assert z * R * (x * u * v) == x * (z * R * (u * v));
    assert z * R * (u * v) == u * R * (v * z);
  }

  /** nres_moddiv: w = x / y; a y that has no inverse silently gives 0, the same operand twice leaves w alone. */
  method ModDiv(c: Ring, x: int, y: int, same: bool, w0: int) returns (w: int, gcd: nat, err: Error)
    requires c.Valid() && 0 <= x < c.n && 0 <= y < c.n
    ensures same ==> err == BadParameters && w == w0 && gcd == 0
    ensures !same ==> err == NoError && 0 <= w < c.n && gcd == LehmerGcd.Size(Gcd(y, c.n))
    ensures !same && Gcd(y, c.n) == 1 ==> Times(c, w, y) == x
    ensures !same && Gcd(y, c.n) != 1 ==> w == 0
  {
    hide Mod, Gcd;
    if same { return w0, 0, BadParameters; }
    err := NoError;
    GcdOfUnitMultiple(y, c.u, c.R, c.n) by { Small(1, c.n); }
    var w6 := Plain(c, y);
    ghost var y0 := w6;
    w6, gcd := LehmerGcd.Invmodp(w6, c.n);
    if gcd != 1 {
      w := 0;
    } else {
      ModIs(y0 * w6, c.n);
      Small(1, c.n);
      DivisionWorks(c, x, y, w6);
      w6 := Residue(c, w6);
      w := Times(c, x, w6);
      ModSmall(x, c.n);
    }
  }

  /** What each w[i] is for x[i]: its inverse as an n-residue, scaled by the gcd of the product and the modulus. */
  ghost predicate Inverses(c: Ring, x: seq<int>, w: seq<int>, lo: nat, t: int)
    requires c.n > 0
  {
    |x| == |w| && lo <= |x| && forall i | lo <= i < |x| :: 0 <= w[i] < c.n && Times(c, w[i], x[i]) == t
  }

  /** The common value is the Montgomery one exactly when the product is coprime to the modulus. */
  lemma OneExactlyWhenCoprime(c: Ring, p: nat)
    requires c.Valid()
    ensures Residue(c, Gcd(p, c.n)) == Residue(c, 1) <==> Gcd(p, c.n) == 1
  {
    hide Gcd, Divides;
    var g := Gcd(p, c.n);
    GcdDivides(p, c.n);
    if Residue(c, g) == Residue(c, 1) {
      Small(1, c.n);
      Cancel(g, 1, c.R, c.u, c.n);
      DividesMeans(g, c.n);
      if g < c.n {
        Small(g, c.n);
      } else {
        if g > c.n { Small(c.n, g); }
        Multiple(1, c.n, c.n) by { Witness(c.n, 0, 1, c.n); Small(0, c.n); }
      }
    }
  }

  /** One element: w[i] becomes (product before i) * (product after i) / (whole product). */
  lemma OneInverse(c: Ring, pre: int, suf: int, xi: int, z: int, whole: int)
    requires c.n > 0 && Times(c, Times(c, pre, xi), suf) == whole
    ensures Times(c, Times(c, Times(c, pre, suf), z), xi) == Times(c, whole, z)
    ensures Times(c, pre, Times(c, suf, xi)) == whole
  {
    hide Times;
    TimesAssociates(c, pre, xi, suf);
    TimesCommutes(c, xi, suf);
    TimesAssociates(c, pre, suf, xi);
    TimesAssociates(c, Times(c, pre, suf), z, xi);
    TimesCommutes(c, z, xi);
    TimesAssociates(c, Times(c, pre, suf), xi, z);
  }

  /**
   * nres_multi_inverse: all the inverses with a single inversion.
   * With two or more elements w[i] * x[i] is the gcd of the product and the modulus as an n-residue, so it is
   * the Montgomery one exactly when the product is coprime to the modulus.
   */
  method MultiInverse(c: Ring, m: int, x: array<int>, w: array<int>) returns (ok: bool, err: Error)
    requires c.Valid() && m <= x.Length && m <= w.Length && forall i | 0 <= i < m :: 0 <= x[i] < c.n
    modifies w
    ensures m <= 0 ==> ok == (m == 0) && err == NoError && w[..] == old(w[..])
    ensures m > 0 && x == w ==> !ok && err == BadParameters && w[..] == old(w[..])
    ensures m == 1 && x != w ==> ok && err == NoError
    ensures m > 1 && x != w ==> ok == (Chain(c, x[..m]) != 0) && err == if ok then NoError else DivByZero
    ensures m > 0 && ok ==> Product(x[..m]) >= 0 && var g := Gcd(Product(x[..m]), c.n);
              Inverses(c, x[..m], w[..m], 0, if m == 1 && g != 1 then 0 else Residue(c, g))
  {
    hide Mod, Gcd, Times, Plain, Residue, Product, Chain;
    err := NoError;
    if m == 0 { return true, err; }
    if m < 0 { return false, err; }
    if x == w { return false, BadParameters; }
    GcdOfChain(c, x[..m]);
    if m == 1 {
      SingleInverse(c, x, w);
      return true, err;
    }
    ghost var pre;
    var w6;
    w6, pre := Prefixes(c, m, x, w);
    if w6 == 0 { return false, DivByZero; }
    ghost var whole := w6;
    w6 := Plain(c, w6);
    w6 := Plain(c, w6);
    var gcd;
    ghost var y := w6;
    w6, gcd := LehmerGcd.Invmodp(w6, c.n);
    InverseOfChain(c, whole, w6, Gcd(y, c.n));
    FromTheTop(c, m, x, w, w6, pre);
    ok := true;
  }

  method SingleInverse(c: Ring, x: array<int>, w: array<int>)
    requires c.Valid() && 1 <= x.Length && 1 <= w.Length && 0 <= x[0] < c.n && x != w
    requires Product(x[..1]) >= 0 && Gcd(Plain(c, x[0]), c.n) == Gcd(Product(x[..1]), c.n)
    modifies w
    ensures var g := Gcd(Product(x[..1]), c.n); Inverses(c, x[..1], w[..1], 0, if g != 1 then 0 else Residue(c, g))
  {
    hide Mod, Gcd, Times, Plain, Residue, Chain;
    assert x[..1][..0] == [] && x[..1][0] == x[0] && Product(x[..1]) == Product([]) * x[0] == x[0];
    w[0] := Residue(c, 1);
    var e, g;
    var q;
    q, g, e := ModDiv(c, w[0], x[0], false, w[0]);
    w[0] := q;
    ZeroTimes(c, 0, x[0]);
  }

  /** pre[i] is the product of the first i elements. */
  ghost predicate PrefixProducts(c: Ring, x: array<int>, m: int, pre: seq<int>)
    requires c.n > 0 && 2 <= m <= x.Length
    reads x
  {
    |pre| == m + 1 && pre[1] == x[0] && forall i | 1 <= i < m :: pre[i + 1] == Times(c, pre[i], x[i])
  }

  /** The forward pass: w[i] is the product of the elements before i, and the whole product is returned. */
  method Prefixes(c: Ring, m: int, x: array<int>, w: array<int>) returns (whole: int, ghost pre: seq<int>)
    requires c.Valid() && 2 <= m <= x.Length && m <= w.Length && x != w
    requires forall i | 0 <= i < m :: 0 <= x[i] < c.n
    modifies w
    ensures PrefixProducts(c, x, m, pre) && whole == Chain(c, x[..m]) == pre[m]
    ensures forall i | 1 <= i < m :: w[i] == pre[i]
  {
    hide Mod, Times;
    w[0] := 1;
    w[1] := x[0];
    pre := [1, x[0]];
    for i := 2 to m
      invariant |pre| == i && pre[1] == x[0] && forall k | 1 <= k < i - 1 :: pre[k + 1] == Times(c, pre[k], x[k])
      invariant forall k | 1 <= k < i :: w[k] == pre[k] == Chain(c, x[..k])
    {
      w[i] := Times(c, w[i - 1], x[i - 1]);
      pre := pre + [w[i]];
      assert x[..i][..i - 1] == x[..i - 1];
    }
    whole := Times(c, w[m - 1], x[m - 1]);
    pre := pre + [whole];
    assert x[..m][..m - 1] == x[..m - 1];
  }

  /** The backward pass: w5 is the product of the elements above i. */
  method FromTheTop(c: Ring, m: int, x: array<int>, w: array<int>, z: int, ghost pre: seq<int>)
    requires c.Valid() && 2 <= m <= x.Length && m <= w.Length && x != w && PrefixProducts(c, x, m, pre)
    requires forall i | 1 <= i < m :: w[i] == pre[i]
    modifies w
    ensures Inverses(c, x[..m], w[..m], 0, Times(c, pre[m], z))
  {
    hide Mod, Times;
    ghost var whole := pre[m];
    ghost var t := Times(c, whole, z);
    var w5 := x[m - 1];
    LastInverse(c, w[m - 1], x[m - 1], z, whole);
    w[m - 1] := Times(c, w[m - 1], z);
    var i := m - 2;
    while i != 0
      invariant 0 <= i <= m - 2 && PrefixProducts(c, x, m, pre)
      invariant forall k | 1 <= k <= i :: w[k] == pre[k]
      invariant forall k | i < k < m :: 0 <= w[k] < c.n && Times(c, w[k], x[k]) == t
      invariant Times(c, pre[i + 1], w5) == whole
    {
      OneInverse(c, w[i], w5, x[i], z, whole);
      w[i] := Times(c, w[i], w5);
      w[i] := Times(c, w[i], z);
      w5 := Times(c, w5, x[i]);
      i := i - 1;
    }
    TimesCommutes(c, x[0], w5);
    LastInverse(c, w5, x[0], z, whole);
    w[0] := Times(c, w5, z);
  }

  lemma ChainSnoc(c: Ring, s: seq<int>)
    requires c.n > 0 && |s| > 1
    ensures Chain(c, s) == Times(c, Chain(c, s[..|s| - 1]), s[|s| - 1])
  {
  }

  lemma LastInverse(c: Ring, pre: int, xi: int, z: int, whole: int)
    requires c.n > 0 && Times(c, pre, xi) == whole
    ensures Times(c, Times(c, pre, z), xi) == Times(c, whole, z)
  {
    hide Times;
    TimesAssociates(c, pre, z, xi);
    TimesCommutes(c, z, xi);
    TimesAssociates(c, pre, xi, z);
  }
}
