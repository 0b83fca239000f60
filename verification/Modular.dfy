/** Congruences: `a % n == b % n` and how sums and products respect it. */
module Modular {
  import opened Words

  /** The least non-negative residue. */
  function Mod(x: int, n: int): (r: int)
    requires n > 0
    ensures 0 <= r < n
  {
    x % n
  }

  lemma ModIs(x: int, n: int)
    requires n > 0
    ensures Mod(x, n) == x % n
  {
  }

  /** A multiple of the modulus makes no difference. */
  lemma Witness(a: int, b: int, k: int, n: int)
    requires n > 0 && a == b + k * n
    ensures a % n == b % n
  {
    DivMod(a, n, b / n + k, b % n);
  }

  lemma Difference(a: int, b: int, n: int) returns (k: int)
    requires n > 0 && a % n == b % n
    ensures a == b + k * n
  {
    k := a / n - b / n;
    assert k * n == a / n * n - b / n * n;
  }

  lemma Add(a: int, b: int, c: int, d: int, n: int)
    requires n > 0 && a % n == b % n && c % n == d % n
    ensures (a + c) % n == (b + d) % n
  {
    var k := Difference(a, b, n);
    var m := Difference(c, d, n);
    assert (k + m) * n == k * n + m * n;
    Witness(a + c, b + d, k + m, n);
  }

  lemma Sub(a: int, b: int, c: int, d: int, n: int)
    requires n > 0 && a % n == b % n && c % n == d % n
    ensures (a - c) % n == (b - d) % n
  {
    var k := Difference(a, b, n);
    var m := Difference(c, d, n);
    assert (k - m) * n == k * n - m * n;
    Witness(a - c, b - d, k - m, n);
  }

  lemma Mul(a: int, b: int, c: int, d: int, n: int)
    requires n > 0 && a % n == b % n && c % n == d % n
    ensures (a * c) % n == (b * d) % n
  {
    var k := Difference(a, b, n);
    var m := Difference(c, d, n);
    Product(a, b, k, c, d, m, n);
    Witness(a * c, b * d, b * m + k * d + k * m * n, n);
  }

  lemma Product(a: int, b: int, k: int, c: int, d: int, m: int, n: int)
    requires a == b + k * n && c == d + m * n
    ensures a * c == b * d + (b * m + k * d + k * m * n) * n
  {
    assert a * c == b * d + b * (m * n) + (k * n) * d + (k * n) * (m * n);
  }

  lemma Reduce(a: int, n: int)
    requires n > 0
    ensures a % n % n == a % n && 0 <= a % n < n
  {
  }

  lemma Small(a: int, n: int)
    requires 0 <= a < n
    ensures a % n == a
  {
    DivMod(a, n, 0, a);
  }

  lemma ModSmall(a: int, n: int)
    requires 0 <= a < n
    ensures Mod(a, n) == a
  {
    Small(a, n);
  }

  /** A factor with an inverse can be cancelled. */
  lemma Cancel(a: int, b: int, c: int, u: int, n: int)
    requires n > 0 && (u * c) % n == 1 % n && (a * c) % n == (b * c) % n
    ensures a % n == b % n
  {
    Mul(a * c, b * c, u, u, n);
    assert a * c * u == a * (u * c) && b * c * u == b * (u * c);
    Mul(a, a, u * c, 1, n);
    Mul(b, b, u * c, 1, n);
    assert a * 1 == a && b * 1 == b;
  }

  lemma Multiple(q: int, b: int, n: int)
    requires n > 0 && b % n == 0
    ensures (q * b) % n == 0
  {
    var k := b / n;
    assert b == k * n;
    assert q * b == 0 + q * k * n;
    Witness(q * b, 0, q * k, n);
    Small(0, n);
  }

  lemma SumDivides(a: int, b: int, n: int)
    requires n > 0 && a % n == 0 && b % n == 0
    ensures (a + b) % n == 0 && (a - b) % n == 0
  {
    Small(0, n);
    Add(a, 0, b, 0, n);
    Sub(a, 0, b, 0, n);
  }
}
