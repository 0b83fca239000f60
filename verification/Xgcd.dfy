/** mrxgcd.c: the extended greatest common divisor by Lehmer's method. */
module LehmerGcd {
  import opened Words
  import opened Gcds
  import Bigs
  import Modular

  const BB: int := B * B
  const MAXBASE: int := 0x8000_0000

  /** A double length machine word. */
  type Large = x: int | 0 <= x < BB

  /** The word of weight Pow(i) in a number, and the number of words. */
  function WordAt(x: nat, i: nat): Word { x / Pow(i) % B }

  function Len(x: nat): (n: nat)
    ensures x < Pow(n) && (n > 0 ==> Pow(n - 1) <= x)
  {
    if x == 0 then 0
    else
      var n := Len(x / B) + 1;
      LenStep(x, n - 1);
      n
  }

  lemma LenStep(x: nat, m: nat)
    requires x > 0 && x / B < Pow(m) && (m > 0 ==> Pow(m - 1) <= x / B)
    ensures x < Pow(m + 1) && Pow(m) <= x
  {
    hide Pow;
    PowStep(m);
    if m > 0 { PowStep(m - 1); } else { Empty(); }
  }

  /** What qdiv returns: the quotient of t when it is below MAXBASE and 0 otherwise. */
  function SmallQuotient(t: int, v: int): int
    requires v > 0
  {
    if t / v < MAXBASE then t / v else 0
  }

  /** The dividend as the wrapping subtractions see it. */
  function Wrapped(u: Large, v: Large): int { if u < v then u + BB else u }

  /**
   * qdiv: up to eight subtractions, then a division. The first subtraction may wrap around; so a dividend
   * that itself wrapped once is divided correctly.
   */
  method Qdiv(u: Large, v: Large) returns (q: Word)
    requires v > 0
    ensures q == SmallQuotient(Wrapped(u, v), v)
  {
    ghost var t := Wrapped(u, v);
    var x: Large := (u - v) % BB;
    var k := 1;
    while k < 8 && x >= v
      invariant 1 <= k <= 8 && t == k * v + x
    {
      x := x - v;
      k := k + 1;
      assert k * v == (k - 1) * v + v;
    }
    if x < v {
      DivMod(t, v, k, x);
      return k;
    }
    var lq := 8 + x / v;
    assert lq * v == 8 * v + x / v * v;
    DivMod(t, v, lq, x % v);
    return if lq >= MAXBASE then 0 else lq;
  }

  /** The accumulated matrix of a batch of steps; the signs of its entries alternate with `dplus`. */
  datatype Batch = Batch(a: int, b: int, c: int, d: int, dplus: bool)

  function Rem1(m: Batch, x: int, y: int): int {
    if m.dplus then m.a * x - m.b * y else m.b * y - m.a * x
  }

  function Rem2(m: Batch, x: int, y: int): int {
    if m.dplus then m.d * y - m.c * x else m.c * x - m.d * y
  }

  /** The batch applied to full-length remainders and cofactors. */
  function Applied(m: Batch, e: Euclid): Euclid {
    Euclid(Rem1(m, e.r1, e.r2), Rem2(m, e.r1, e.r2), m.a * e.s1 + m.b * e.s2, m.c * e.s1 + m.d * e.s2)
  }

  function Next(m: Batch, q: int): Batch {
    Batch(m.c, m.d, m.a + q * m.c, m.b + q * m.d, !m.dplus)
  }

  const Identity := Batch(1, 0, 0, 1, true)

  lemma NextRemainders(m: Batch, q: int, x: int, y: int)
    ensures Rem1(Next(m, q), x, y) == Rem2(m, x, y)
    ensures Rem2(Next(m, q), x, y) == Rem1(m, x, y) - q * Rem2(m, x, y)
  {
    assert (m.a + q * m.c) * x == m.a * x + q * (m.c * x);
    assert (m.b + q * m.d) * y == m.b * y + q * (m.d * y);
  }

  /** Extending the batch by the true quotient is one exact Euclid step. */
  lemma NextIsStep(m: Batch, q: int, e: Euclid)
    requires Rem2(m, e.r1, e.r2) > 0 && q == Rem1(m, e.r1, e.r2) / Rem2(m, e.r1, e.r2)
    ensures Applied(Next(m, q), e) == Step(Applied(m, e))
  {
    hide Rem1, Rem2;
    NextRemainders(m, q, e.r1, e.r2);
    var r1, r2 := Rem1(m, e.r1, e.r2), Rem2(m, e.r1, e.r2);
    assert r1 == q * r2 + r1 % r2;
    assert (m.a + q * m.c) * e.s1 + (m.b + q * m.d) * e.s2 == (m.a * e.s1 + m.b * e.s2) + q * (m.c * e.s1 + m.d * e.s2);
  }

  /** Slack of a combination p*x - q*y computed from common-scaled floors. */
  lemma Enclose(x: int, y: int, S: int, p: int, q: int)
    requires S > 0 && p >= 0 && q >= 0
    ensures var w := p * (x / S) - q * (y / S); (w - q) * S <= p * x - q * y <= (w + p) * S
  {
    var a, b := p * (x / S), q * (y / S);
    EncloseOne(x, S, p);
    EncloseOne(y, S, q);
    assert (a - b - q) * S == a * S - b * S - q * S;
    assert (a - b + p) * S == a * S - b * S + p * S;
  }

  lemma EncloseOne(x: int, S: int, p: int)
    requires S > 0 && p >= 0
    ensures p * (x / S) * S <= p * x <= p * (x / S) * S + p * S
  {
    var U, e := x / S, x % S;
    assert p * x == p * U * S + p * e by { assert x == U * S + e; }
    MulMono(0, e, p);
    MulMono(e, S, p);
  }

  lemma DivBounds(t: int, v: int)
    requires v > 0
    ensures t / v * v <= t < t / v * v + v
    ensures t >= 0 ==> t / v >= 0
  {
    if t / v < 0 { MulMono(t / v, -1, v); }
  }

  /** Two fractions enclosing r1 / r2 with the same floor have the floor of r1 / r2. */
  lemma FloorExact(r1: int, r2: int, S: int, lo1: int, hi1: int, lo2: int, hi2: int, q: int)
    requires S > 0 && lo1 * S <= r1 <= hi1 * S && lo2 * S <= r2 <= hi2 * S
    requires lo1 >= 0 && lo2 > 0 && hi2 > 0 && q == lo1 / hi2 && q == hi1 / lo2
    ensures r2 > 0 && q == r1 / r2
  {
    MulMono(1, lo2, S);
    DivBounds(lo1, hi2);
    DivBounds(hi1, lo2);
    FloorBelow(r1, r2, S, lo1, hi2, q);
    FloorAbove(r1, r2, S, hi1, lo2, q);
    DivMod(r1, r2, q, r1 - q * r2);
  }

  lemma FloorBelow(r1: int, r2: int, S: int, lo1: int, hi2: int, q: int)
    requires S > 0 && lo1 * S <= r1 && r2 <= hi2 * S && q >= 0 && q * hi2 <= lo1
    ensures q * r2 <= r1
  {
    MulMono(r2, hi2 * S, q);
    assert hi2 * S * q == (q * hi2) * S;
    MulMono(q * hi2, lo1, S);
  }

  lemma FloorAbove(r1: int, r2: int, S: int, hi1: int, lo2: int, q: int)
    requires S > 0 && r1 <= hi1 * S && lo2 * S <= r2 && q >= 0 && hi1 < q * lo2 + lo2
    ensures r1 < q * r2 + r2
  {
    MulStep(hi1, q * lo2 + lo2, S);
    assert (q * lo2 + lo2) * S == lo2 * S * (q + 1);
    MulMono(lo2 * S, r2, q + 1);
    assert r2 * (q + 1) == q * r2 + r2;
  }

  /**
   * What keeps the 64-bit simulation from wrapping: x and y bound how far the leading parts u are below and
   * above the scaled remainder r1, z and w how far v is from r2.
   */
  ghost predicate Tame(u: Large, v: Large, x: int, y: int, z: int, w: int, first: bool) {
    && x >= 0 && y >= 0 && z >= 0 && w >= 1
    && if first then x == 0 && y == 1 && z == 0 && w == 1 && v <= u && 2 * u >= BB
       else z >= 1 && v >= z && u - x >= v + w && u + y < BB
  }

  lemma StayTame(u: Large, v: Large, x: int, y: int, z: int, w: int, first: bool, q: int)
    requires Tame(u, v, x, y, z, w, first)
    requires q >= 1 && v - z > 0 && v + w < BB && u - x >= v + w && q == (u - x) / (v + w) && q == (u + y) / (v - z)
    ensures 0 <= u - q * v < v && Tame(v, u - q * v, z, w, x + q * w, y + q * z, false)
  {
    DivBounds(u - x, v + w);
    DivBounds(u + y, v - z);
    StayTameBetween(u, v, x, y, z, w, first, q);
  }

  lemma StayTameBetween(u: Large, v: Large, x: int, y: int, z: int, w: int, first: bool, q: int)
    requires Tame(u, v, x, y, z, w, first) && q >= 1 && v - z > 0 && v + w < BB
    requires q * (v + w) <= u - x && u + y < q * (v - z) + (v - z)
    ensures 0 <= u - q * v < v && Tame(v, u - q * v, z, w, x + q * w, y + q * z, false)
  {
    TameSums(u, v, x, y, z, w, q);
    NextIsTame(v, z, w, u - q * v, x, y, q * w, q * z);
  }

  lemma NextIsTame(v: Large, z: int, w: int, v': int, x: int, y: int, qw: int, qz: int)
    requires x >= 0 && y >= 0 && z >= 0 && w >= 1 && qw >= 1 && v + w < BB
    requires v' >= x + qw && v - z >= v' + y + qz && y + qz >= 1
    ensures 0 <= v' < v && Tame(v, v', z, w, x + qw, y + qz, false)
  {
  }

  lemma TameSums(u: int, v: int, x: int, y: int, z: int, w: int, q: int)
    requires q >= 1 && x >= 0 && y >= 0 && z >= 0 && w >= 1
    requires q * (v + w) <= u - x && u + y < q * (v - z) + (v - z)
    ensures u - q * v >= x + q * w && v - z >= u - q * v + y + q * z
    ensures q * w >= 1 && q * z >= z
  {
    assert q * (v + w) == q * v + q * w && q * (v - z) == q * v - q * z;
    MulMono(1, q, z);
    MulMono(1, q, w);
  }

  /** In the very first step u and v may be equal; the wrapped division then disagrees with the other bound. */
  lemma EqualLeads(u: Large)
    requires 2 * u >= BB && u + 1 < BB
    ensures SmallQuotient(Wrapped((u + 1) % BB, u), u) == 1
    ensures SmallQuotient(Wrapped((u - 0) % BB, u + 1), u + 1) != 1
  {
    DivMod(u + 1, u, 1, 1);
    assert Wrapped(u % BB, u + 1) == u + BB;
    if (u + BB) / (u + 1) < 2 { MulMono((u + BB) / (u + 1), 1, u + 1); }
  }

  lemma Unwrapped(t: int, v: Large)
    requires v <= t < BB + v
    ensures Wrapped(t % BB, v) == t
  {
  }

  lemma Agreed(u: Large, v: Large, x: int, y: int, z: int, w: int, first: bool, q: int)
    requires Tame(u, v, x, y, z, w, first) && v - z > 0 && v + w < BB && q != 0
    requires q == SmallQuotient(Wrapped((u + y) % BB, v - z), v - z)
    requires q == SmallQuotient(Wrapped((u - x) % BB, v + w), v + w)
    ensures u - x >= v + w && q == (u - x) / (v + w) && q == (u + y) / (v - z) && q >= 1
  {
    hide Wrapped;
    if first && u == v {
      EqualLeads(u);
    } else {
      Unwrapped(u - x, v + w);
      Unwrapped(u + y, v - z);
      DivBounds(u - x, v + w);
      assert u - x >= v + w;
    }
  }

  /** The two divisions that must agree before a quotient is accepted; 0 when they do not or cannot be made. */
  method Agree(u: Large, v: Large, x: Word, y: Word, z: Word, w: Word, ghost first: bool) returns (q: Word)
    requires Tame(u, v, x, y, z, w, first)
    ensures q != 0 ==> v - z > 0 && v + w < BB && u - x >= v + w && q == (u - x) / (v + w) && q == (u + y) / (v - z)
  {
    hide SmallQuotient, Wrapped;
    if (v - z) % BB % B == 0 || (v + w) % BB % B == 0 { return 0; }
    NotZero(v, z, w);
    q := Qdiv((u + y) % BB, v - z);
    if q == 0 { return 0; }
    var q' := Qdiv((u - x) % BB, v + w);
    if q != q' { return 0; }
    Agreed(u, v, x, y, z, w, first, q);
  }

  /** The tests on the truncated denominators also rule out that they vanish or wrap to zero. */
  lemma NotZero(v: Large, z: Word, w: Word)
    requires v >= z && v + w <= BB && (v - z) % BB % B != 0 && (v + w) % BB % B != 0
    ensures v - z > 0 && v + w < BB
  {
  }

  /** How far below and above the true remainders the leading parts can be, by the sign pattern of the batch. */
  ghost predicate TameBatch(m: Batch, u: Large, v: Large, first: bool) {
    if m.dplus then Tame(u, v, m.b, m.a, m.c, m.d, first) else Tame(u, v, m.a, m.b, m.d, m.c, first)
  }

  /** A quotient accepted on the leading parts is the true quotient of the full-length remainders. */
  lemma AcceptedIsExact(m: Batch, e: Euclid, S: int, u: int, v: int, q: int)
    requires S > 0 && m.a >= 0 && m.b >= 0 && m.c >= 0 && m.d >= 0
    requires u == Rem1(m, e.r1 / S, e.r2 / S) && v == Rem2(m, e.r1 / S, e.r2 / S)
    requires var (x, y, z, w) := if m.dplus then (m.b, m.a, m.c, m.d) else (m.a, m.b, m.d, m.c);
             v - z > 0 && u - x >= v + w && q == (u - x) / (v + w) && q == (u + y) / (v - z)
    ensures Rem2(m, e.r1, e.r2) > 0 && q == Rem1(m, e.r1, e.r2) / Rem2(m, e.r1, e.r2)
  {
    var r1, r2 := Rem1(m, e.r1, e.r2), Rem2(m, e.r1, e.r2);
    if m.dplus {
      Enclose(e.r1, e.r2, S, m.a, m.b);
      Enclose(e.r2, e.r1, S, m.d, m.c);
      FloorExact(r1, r2, S, u - m.b, u + m.a, v - m.c, v + m.d, q);
    } else {
      Enclose(e.r2, e.r1, S, m.b, m.a);
      Enclose(e.r1, e.r2, S, m.c, m.d);
      FloorExact(r1, r2, S, u - m.a, u + m.b, v - m.d, v + m.c, q);
    }
  }

  /** The state of a batch of k steps: what it stands for, and the bounds that keep it in machine words. */
  ghost predicate InBatch(e: Euclid, S: int, m: Batch, u: Large, v: Large, last: bool, k: nat) {
    && S > 0 && Reaches(e, k, Applied(m, e)) && m.dplus == (k % 2 == 0)
    && u == Rem1(m, e.r1 / S, e.r2 / S) && v == Rem2(m, e.r1 / S, e.r2 / S)
    && (if k == 0 then m == Identity else 0 <= m.a <= m.b < MAXBASE && 1 <= m.c <= m.d < MAXBASE && m.b >= 1)
    && (if last then S == 1 && v < u else TameBatch(m, u, v, k == 0))
  }

  /** The quotient for the next step of a batch: exact when the whole numbers fit, else what both bounds agree on. */
  method NextQuotient(u: Large, v: Large, last: bool, a: Word, b: Word, c: Word, d: Word, dplus: bool,
                      ghost e: Euclid, ghost S: int, ghost k: nat) returns (q: Word)
    requires InBatch(e, S, Batch(a, b, c, d, dplus), u, v, last, k)
    ensures q != 0 ==>
              var m := Batch(a, b, c, d, dplus);
              && Rem2(m, e.r1, e.r2) > 0 && q == Rem1(m, e.r1, e.r2) / Rem2(m, e.r1, e.r2)
              && 0 <= u - q * v < v && (!last ==> TameBatch(Next(m, q), v, u - q * v, false))
  {
    ghost var m := Batch(a, b, c, d, dplus);
    if last {
      if v == 0 { return 0; }
      q := Qdiv(u, v);
      DivBounds(u, v);
      assert e.r1 / 1 == e.r1 && e.r2 / 1 == e.r2;
    } else {
      if dplus { q := Agree(u, v, b, a, c, d, k == 0); } else { q := Agree(u, v, a, b, d, c, k == 0); }
      if q != 0 {
        AcceptedIsExact(m, e, S, u, v, q);
        if dplus { StayTame(u, v, b, a, c, d, k == 0, q); } else { StayTame(u, v, a, b, d, c, k == 0, q); }
      }
    }
  }

  /** The entries of the batch stay below MAXBASE. */
  lemma EntriesFit(a: int, b: int, c: int, d: int, q: int)
    requires 0 <= a && 0 <= b && 0 <= c <= d && 1 <= d && q >= 1
    requires (a <= b && 1 <= c) || (a == 1 && b == 0 && c == 0 && d == 1)
    requires if q == 1 then b + d < MAXBASE else q < (MAXBASE - b) / d
    ensures 1 <= a + q * c <= b + q * d < MAXBASE && a + q * c >= c
  {
    MulMono(c, d, q);
    MulMono(1, q, c);
    if q > 1 {
      DivBounds(MAXBASE - b, d);
      MulMono(q + 1, (MAXBASE - b) / d, d);
      assert (q + 1) * d == q * d + d;
    }
  }

  /** The inner loop: one batch equals that many exact Euclid steps on the full-length numbers. */
  method Simulate(u0: Large, v0: Large, last: bool, iter0: nat, ghost e: Euclid, ghost S: int)
    returns (a: Word, b: Word, c: Word, d: Word, dplus: bool, iter: nat)
    requires S > 0 && u0 == e.r1 / S && v0 == e.r2 / S
    requires if last then S == 1 && v0 < u0 else v0 <= u0 && 2 * u0 >= BB
    ensures iter >= iter0 && Reaches(e, iter - iter0, Applied(Batch(a, b, c, d, dplus), e))
    ensures dplus == ((iter - iter0) % 2 == 0) && (b == 0 <==> iter == iter0)
  {
    hide Rem1, Rem2, Reaches;
    var u: Large, v: Large := u0, v0;
    a, b, c, d, dplus := 1, 0, 0, 1, true;
    iter := iter0;
    ghost var k := 0;
    StartBatch(e, S);
    while true
      invariant InBatch(e, S, Batch(a, b, c, d, dplus), u, v, last, k) && iter == iter0 + k
      decreases v
    {
      ghost var m := Batch(a, b, c, d, dplus);
      var q := NextQuotient(u, v, last, a, b, c, d, dplus, e, S, k);
      if q == 0 { break; }
      if q == 1 {
        if (b + d) % B >= MAXBASE { break; }
      } else {
        if q >= (MAXBASE - b) / d { break; }
      }
      EntriesFit(a, b, c, d, q);
      NextIsStep(m, q, e);
      NextRemainders(m, q, e.r1 / S, e.r2 / S);
      OneMore(e, k, Applied(m, e));
      a, c := c, a + q * c;
      b, d := d, b + q * d;
      u, v := v, u - q * v;
      iter := iter + 1;
      dplus := !dplus;
      k := k + 1;
      assert Batch(a, b, c, d, dplus) == Next(m, q);
    }
  }

  lemma StartBatch(e: Euclid, S: int)
    requires S > 0
    ensures Reaches(e, 0, Applied(Identity, e))
    ensures Rem1(Identity, e.r1 / S, e.r2 / S) == e.r1 / S && Rem2(Identity, e.r1 / S, e.r2 / S) == e.r2 / S
  {
  }

  /** A number read from word i up is its part from word i + 1 up and that word. */
  lemma WordsAbove(x: nat, i: nat)
    ensures x / Pow(i) == x / Pow(i + 1) * B + WordAt(x, i)
  {
    hide Pow;
    PowStep(i);
    DivDiv(x, Pow(i), B);
  }

  lemma NothingAbove(x: nat, n: nat)
    requires x < Pow(n)
    ensures x / Pow(n) == 0
  {
    hide Pow;
    DivMod(x, Pow(n), 0, x);
  }

  /** The two and the three top words of a number of at most n words. */
  lemma TopWords(x: nat, n: nat)
    requires n >= 1 && x < Pow(n)
    ensures WordAt(x, n - 1) == x / Pow(n - 1)
    ensures n >= 2 ==> WordAt(x, n - 1) * B + WordAt(x, n - 2) == x / Pow(n - 2)
    ensures n >= 3 ==> (WordAt(x, n - 1) * B + WordAt(x, n - 2)) * B + WordAt(x, n - 3) == x / Pow(n - 3)
  {
    hide Pow;
    NothingAbove(x, n);
    WordsAbove(x, n - 1);
    if n >= 2 { WordsAbove(x, n - 2); }
    if n >= 3 { WordsAbove(x, n - 3); }
  }

  /** muldvm: a double word divided by a word above its high half. */
  method Muldvm(a: Word, c: Word, m: Word) returns (q: Word, r: Word)
    requires a < m
    ensures a * B + c == q * m + r && r < m
  {
    ghost var t: int := a * B + c;
    DivBounds(t, m);
    assert t / m < B by { if t / m >= B { MulMono(B, t / m, m); } }
    q, r := (a * B + c) / m, (a * B + c) % m;
  }

  /** Dividing three words by one, a word of the quotient at a time. */
  method Squeeze(a: Word, c: Word, f: Word, m: Word) returns (u: Large)
    requires a < m
    ensures u == ((a * B + c) * B + f) / m
  {
    var top, bot, sr, r;
    top, sr := Muldvm(a, c, m);
    bot, r := Muldvm(sr, f, m);
    u := top * B + bot;
    assert (a * B + c) * B + f == (top * m + sr) * B + f == (top * B + bot) * m + r;
    DivMod((a * B + c) * B + f, m, u, r);
  }

  lemma AtLeastHalf(t: int, m: int)
    requires 2 <= m && (m - 1) * BB <= t
    ensures 2 * (t / m) >= BB
  {
    DivBounds(t, m);
    var q, half := t / m, BB / 2;
    if q < half { MulMono(q + 1, half, m); }
  }

  /** The words of a number, as many as there are in s. */
  ghost predicate WordsOf(x: nat, s: seq<Word>) {
    forall i | 0 <= i < |s| :: s[i] == WordAt(x, i)
  }

  /** Three top words of each number over one more than the top word: as much significance as fits. */
  method Squeezed(s1: seq<Word>, s2: seq<Word>, m: Word, ghost w1: nat, ghost w2: nat)
    returns (u: Large, v: Large, ghost S: int)
    requires |s1| == |s2| >= 3 && WordsOf(w1, s1) && WordsOf(w2, s2)
    requires Pow(|s1| - 1) <= w1 < Pow(|s1|) && w2 < w1 && m != 0 && m == (s1[|s1| - 1] + 1) % B
    ensures S > 0 && u == w1 / S && v == w2 / S && 2 * u >= BB
  {
    hide Pow, WordAt, WordsOf;
    var n := |s1|;
    TopThreeWords(w1, s1, m);
    TopThreeWords(w2, s2, m);
    DivOrder(w2, w1, Pow(n - 1));
    TopWordPositive(w1, n - 1);
    assert m == s1[n - 1] + 1;
    u := Squeeze(s1[n - 1], s1[n - 2], s1[n - 3], m);
    v := Squeeze(s2[n - 1], s2[n - 2], s2[n - 3], m);
    MulMono(1, Pow(n - 3), m);
    S := Pow(n - 3) * m;
    ThreeAtLeast(s1[n - 1], s1[n - 2], s1[n - 3]);
    AtLeastHalf((s1[n - 1] * B + s1[n - 2]) * B + s1[n - 3], m);
  }

  lemma ThreeAtLeast(a: Word, c: Word, f: Word)
    ensures a * BB <= (a * B + c) * B + f
  {
  }

  /** The three top words divided by m are the number divided by m and the weight of the third. */
  lemma TopThreeWords(x: nat, s: seq<Word>, m: int)
    requires |s| >= 3 && WordsOf(x, s) && x < Pow(|s|) && m > 0
    ensures s[|s| - 1] == x / Pow(|s| - 1)
    ensures ((s[|s| - 1] * B + s[|s| - 2]) * B + s[|s| - 3]) / m == x / (Pow(|s| - 3) * m)
  {
    hide Pow, WordAt;
    TopWords(x, |s|);
    DivDiv(x, Pow(|s| - 3), m);
  }

  lemma TopWordPositive(x: nat, i: nat)
    requires Pow(i) <= x
    ensures x / Pow(i) >= 1
  {
    hide Pow;
    DivOrder(Pow(i), x, Pow(i));
    DivMod(Pow(i), Pow(i), 1, 0);
  }

  /** The two top words of each number. */
  method TopPair(s1: seq<Word>, s2: seq<Word>, ghost w1: nat, ghost w2: nat) returns (u: Large, v: Large, ghost S: int)
    requires |s1| == |s2| >= 2 && WordsOf(w1, s1) && WordsOf(w2, s2) && w1 < Pow(|s1|) && w2 < w1
    ensures S == Pow(|s1| - 2) && u == w1 / S && v == w2 / S
    ensures s1[|s1| - 1] == B - 1 ==> 2 * u >= BB
    ensures |s1| == 2 ==> S == 1 && u == w1 && v == w2 && w1 < BB
  {
    hide Pow, WordAt;
    var n := |s1|;
    TopWords(w1, n);
    TopWords(w2, n);
    u := s1[n - 1] * B + s1[n - 2];
    v := s2[n - 1] * B + s2[n - 2];
    S := Pow(n - 2);
    SmallPowers();
  }

  lemma SingleWords(s1: seq<Word>, s2: seq<Word>, w1: nat, w2: nat)
    requires |s1| == |s2| == 1 && WordsOf(w1, s1) && WordsOf(w2, s2) && w1 < Pow(1) && w2 < w1
    ensures s1[0] == w1 && s2[0] == w2 && w1 < BB
  {
    hide Pow, WordAt;
    SmallPowers();
    TopWords(w1, 1);
    TopWords(w2, 1);
  }

  /**
   * The leading parts of w1 and w2: their floors after division by a common scale, or the numbers themselves.
   * s1 and s2 are their words, as many as the greater number w1 has.
   */
  method LeadingParts(s1: seq<Word>, s2: seq<Word>, last0: bool, ghost w1: nat, ghost w2: nat)
    returns (u: Large, v: Large, last: bool, ghost S: int)
    requires |s1| == |s2| == Len(w1) && WordsOf(w1, s1) && WordsOf(w2, s2) && 0 < w2 < w1 && (last0 ==> w1 < BB)
    ensures S > 0 && u == w1 / S && v == w2 / S && (last0 ==> last) && (last ==> w1 < BB)
    ensures if last then S == 1 && v < u else v <= u && 2 * u >= BB
  {
    hide Pow, WordAt;
    last := last0;
    var n := |s1|;
    SmallPowers();
    if n >= 3 { PowMono(2, n - 1); }
    if n == 1 {
      last := true;
      SingleWords(s1, s2, w1, w2);
      u, v := s1[0], s2[0];
      S := 1;
    } else {
      var m := (s1[n - 1] + 1) % B;
      if n > 2 && m != 0 {
        u, v, S := Squeezed(s1, s2, m, w1, w2);
      } else {
        u, v, S := TopPair(s1, s2, w1, w2);
        if n == 2 { last := true; }
      }
    }
    DivOrder(w2, w1, S);
  }

  /** The words of x up to position n. */
  function WordsUpTo(x: nat, n: nat): (s: seq<Word>)
    ensures |s| == n && WordsOf(x, s)
  {
    seq(n, i requires 0 <= i < n => WordAt(x, i))
  }

  lemma SmallPowers()
    ensures Pow(0) == 1 && Pow(1) == B && Pow(2) == BB
  {
    assert Pow(1) == B * Pow(0) && Pow(2) == B * Pow(1);
  }

  /** size: the value of a small number, MR_TOOBIG for a large one. */
  const MR_TOOBIG: int := 0x4000_0000

  function Size(x: nat): (n: nat)
    ensures n == 1 <==> x == 1
  {
    if x < MR_TOOBIG then x else MR_TOOBIG
  }

  function Abs(x: int): nat { if x < 0 then -x else x }

  /** The division step of the main loop, on w1, w2 and the cofactors w3, w4. */
  method DivisionStep(w1: nat, w2: nat, w3: nat, w4: nat) returns (x1: nat, x2: nat, x3: nat, x4: nat)
    requires w2 > 0
    ensures Euclid(x1, x2, x3, x4) == Step(Euclid(w1, w2, w3, w4))
  {
    DivBounds(w1, w2);
    var w5 := w1 / w2;
    x1, x2 := w2, w1 % w2;
    MulNonNeg(w4, w5);
    var w0 := w4 * w5;
    x3, x4 := w4, w3 + w0;
  }

  /** The batched step: the matrix applied to the numbers and to the cofactors. */
  method BatchStep(w1: nat, w2: nat, w3: nat, w4: nat, a: Word, b: Word, c: Word, d: Word, dplus: bool)
    returns (x1: nat, x2: nat, x3: nat, x4: nat)
    requires var f := Applied(Batch(a, b, c, d, dplus), Euclid(w1, w2, w3, w4)); f.r1 >= 0 && f.r2 >= 0
    ensures Euclid(x1, x2, x3, x4) == Applied(Batch(a, b, c, d, dplus), Euclid(w1, w2, w3, w4))
  {
    var w5, w0 := w1 * c, w2 * b;
    x1, x2 := w1 * a, w2 * d;
    if !dplus {
      x1, x2 := w0 - x1, w5 - x2;
    } else {
      x1, x2 := x1 - w0, x2 - w5;
    }
    MulNonNeg(w3, c);
    MulNonNeg(w3, a);
    MulNonNeg(w4, b);
    MulNonNeg(w4, d);
    w5, w0 := w3 * c, w4 * b;
    x3, x4 := w3 * a, w4 * d;
    if a == 0 { x3 := w0; } else { x3 := x3 + w0; }
    x4 := x4 + w5;
  }

  lemma StepsStayNonNegative(x: nat, y: nat, i: nat, e: Euclid, k: nat, f: Euclid)
    requires Reaches(Euclid(x, y, 1, 0), i, e) && Reaches(e, k, f)
    ensures f.r1 >= 0 && f.r2 >= 0 && f.s1 >= 0 && f.s2 >= 0
    ensures Reaches(Euclid(x, y, 1, 0), i + k, f)
    ensures k > 0 ==> f.r2 < f.r1 <= e.r2
  {
    Chain(Euclid(x, y, 1, 0), i, e, k, f);
    StepsKeepBezout(x, y, i + k, f);
    StepsDecrease(e, k, f);
  }

  lemma {:induction false} StepsDecrease(e: Euclid, k: nat, f: Euclid)
    requires Reaches(e, k, f)
    ensures k > 0 ==> f.r2 < f.r1 <= e.r2
  {
    if k > 0 {
      var p :| Reaches(e, k - 1, p) && p.r2 > 0 && f == Step(p);
      StepsDecrease(e, k - 1, p);
    }
  }

  lemma NoSteps(e: Euclid)
    ensures Reaches(e, 0, e)
  {
  }

  lemma OneStep(e: Euclid)
    requires e.r2 > 0
    ensures Reaches(e, 1, Step(e))
  {
    OneMore(e, 0, e);
  }

  /** What a batch promises: applied to the state it is that many exact Euclid steps. */
  ghost predicate Ahead(e: Euclid, m: Batch, ahead: nat) {
    (m.b == 0 <==> ahead == 0) && (m.b != 0 ==> Reaches(e, ahead, Applied(m, e)))
  }

  lemma AheadIs(e: Euclid, m: Batch, ahead: nat)
    ensures Ahead(e, m, ahead) <==> (m.b == 0 <==> ahead == 0) && (m.b != 0 ==> Reaches(e, ahead, Applied(m, e)))
  {
  }

  /** The first half of a pass: a division, or the batch worked out before. */
  method Advance(w1: nat, w2: nat, w3: nat, w4: nat, a: Word, b: Word, c: Word, d: Word, dplus: bool, iter: nat,
                 ghost x: nat, ghost y: nat, ghost k: nat, ghost ahead: nat)
    returns (x1: nat, x2: nat, x3: nat, x4: nat, iter': nat, ghost k': nat)
    requires w2 > 0 && Reaches(Euclid(x, y, 1, 0), k, Euclid(w1, w2, w3, w4))
    requires Ahead(Euclid(w1, w2, w3, w4), Batch(a, b, c, d, dplus), ahead)
    ensures x2 < w2 && x2 < x1 <= w2 && Reaches(Euclid(x, y, 1, 0), k', Euclid(x1, x2, x3, x4))
    ensures k' == k + (if b == 0 then 1 else ahead) && iter' == if b == 0 then iter + 1 else iter
  {
    hide Applied, Step, Reaches, Ahead;
    ghost var e, m := Euclid(w1, w2, w3, w4), Batch(a, b, c, d, dplus);
    AheadIs(e, m, ahead);
    iter' := iter;
    if b == 0 {
      OneStep(e);
      StepsStayNonNegative(x, y, k, e, 1, Step(e));
      x1, x2, x3, x4 := DivisionStep(w1, w2, w3, w4);
      iter' := iter + 1;
      k' := k + 1;
    } else {
      StepsStayNonNegative(x, y, k, e, ahead, Applied(m, e));
      x1, x2, x3, x4 := BatchStep(w1, w2, w3, w4, a, b, c, d, dplus);
      k' := k + ahead;
    }
  }

  /** The second half: the next batch, worked out on the leading parts. */
  method LookAhead(w1: nat, w2: nat, last0: bool, iter: nat, ghost w3: nat, ghost w4: nat)
    returns (a: Word, b: Word, c: Word, d: Word, dplus: bool, iter': nat, last: bool, ghost ahead: nat)
    requires 0 < w2 < w1 && (last0 ==> w1 < BB)
    ensures Ahead(Euclid(w1, w2, w3, w4), Batch(a, b, c, d, dplus), ahead)
    ensures iter' == iter + ahead && (last ==> w1 < BB)
  {
    hide Applied, Reaches, Ahead;
    var u, v;
    ghost var S;
    var n := Len(w1);
    u, v, last, S := LeadingParts(WordsUpTo(w1, n), WordsUpTo(w2, n), last0, w1, w2);
    a, b, c, d, dplus, iter' := Simulate(u, v, last, iter, Euclid(w1, w2, w3, w4), S);
    ahead := iter' - iter;
    AheadIs(Euclid(w1, w2, w3, w4), Batch(a, b, c, d, dplus), ahead);
  }

  lemma NothingAhead(e: Euclid, m: Batch)
    requires m.b == 0
    ensures Ahead(e, m, 0)
  {
  }

  /** The main loop: Euclid steps, one at a time or batched, until the second remainder vanishes. */
  method Reduce(x: nat, y: nat) returns (w1: nat, w3: nat, w4: nat, iter: nat)
    ensures exists k: nat :: Reaches(Euclid(x, y, 1, 0), k, Euclid(w1, 0, w3, w4)) && iter % 2 == k % 2
    ensures y == 0 ==> w4 == 0
  {
    hide Applied, Step, Reaches, Ahead;
    var w2: nat;
    w1, w2, w3, w4 := x, y, 1, 0;
    iter := 0;
    ghost var k: nat := 0;
    var last, dplus := false, true;
    var a: Word, b: Word, c: Word, d: Word := 0, 0, 0, 0;
    ghost var ahead: nat := 0;
    NoSteps(Euclid(x, y, 1, 0));
    NothingAhead(Euclid(w1, w2, w3, w4), Batch(a, b, c, d, dplus));
    while w2 != 0
      invariant Reaches(Euclid(x, y, 1, 0), k, Euclid(w1, w2, w3, w4))
      invariant w2 != 0 ==> Ahead(Euclid(w1, w2, w3, w4), Batch(a, b, c, d, dplus), ahead) && iter % 2 == (k + ahead) % 2
      invariant w2 == 0 ==> iter % 2 == k % 2
      invariant last ==> w1 < BB && w2 < BB
      invariant y == 0 ==> w2 == w4 == 0
      decreases w2
    {
      AheadIs(Euclid(w1, w2, w3, w4), Batch(a, b, c, d, dplus), ahead);
      w1, w2, w3, w4, iter, k := Advance(w1, w2, w3, w4, a, b, c, d, dplus, iter, x, y, k, ahead);
      if w2 == 0 { break; }
      a, b, c, d, dplus, iter, last, ahead := LookAhead(w1, w2, last, iter, w3, w4);
      iter := iter % 2;
    }
    assert Reaches(Euclid(x, y, 1, 0), k, Euclid(w1, 0, w3, w4));
  }

  /** The parity of the steps and the sign of x decide whether the cofactor is w3 or y - w3. */
  predicate Flipped(x: int, k: nat) { (k + (if x < 0 then 1 else 0)) % 2 == 1 }

  lemma SameParity(x: int, k: nat, iter: nat)
    requires iter % 2 == k % 2
    ensures Flipped(x, k) <==> (iter + (if x < 0 then 1 else 0)) % 2 == 1
  {
  }

  function Cofactor(x: int, y: int, k: nat, w3: int): int {
    if Flipped(x, k) then y - w3 else w3
  }

  lemma CofactorWorks(x: int, y: int, k: nat, g: nat, w3: nat, s2: nat)
    requires Bezout(Abs(x), Abs(y), k, Euclid(g, 0, w3, s2))
    ensures g == Gcd(Abs(x), Abs(y))
    ensures y == 0 ==> x * Cofactor(x, y, k, w3) == g
    ensures y != 0 ==> (g - x * Cofactor(x, y, k, w3)) % Abs(y) == 0
    ensures y > 0 ==> 0 <= Cofactor(x, y, k, w3) <= y
  {
    hide Gcd;
    GcdZero(g);
    if y != 0 {
      var Y, xd := Abs(y), Cofactor(x, y, k, w3);
      var m := if !Flipped(x, k) then 0 else if y > 0 then x else -x;
      CofactorSigns(x, y, k, w3);
      SignedTimes(x, y, m, Flipped(x, k));
      assert g - x * xd == (g - Sign(k) * w3 * Abs(x)) + -m * Y;
      Modular.Witness(g - x * xd, g - Sign(k) * w3 * Abs(x), -m, Y);
    }
  }

  lemma SignedTimes(x: int, y: int, m: int, flip: bool)
    requires m == if !flip then 0 else if y > 0 then x else -x
    ensures -m * Abs(y) == -(if flip then x * y else 0)
  {
  }

  lemma CofactorSigns(x: int, y: int, k: nat, w3: int)
    ensures x * Cofactor(x, y, k, w3) == Sign(k) * w3 * Abs(x) + (if Flipped(x, k) then x * y else 0)
  {
    assert x * (y - w3) == x * y - x * w3;
  }

  /**
   * xgcd: z = gcd(x, y) = x * xd + y * yd. Only xd is worked out when `distinct` is false, that is when xd and yd
   * are the same variable. For y = 0 the last step divides by zero; the numbers returned are right all the same.
   */
  method Xgcd(x: int, y: int, distinct: bool) returns (xd: int, yd: int, z: nat, size: nat, err: Bigs.Error)
    ensures z == Gcd(Abs(x), Abs(y)) && size == Size(z)
    ensures err == if distinct && y == 0 then Bigs.DivByZero else Bigs.NoError
    ensures distinct ==> z == x * xd + y * yd
    ensures y > 0 ==> 0 <= xd <= y && (x * xd) % y == z % y
    ensures y == 0 ==> x * xd == z
  {
    hide Gcd, Bezout, Reaches, Step, Sign, Flipped;
    var w1, w3, w4, iter := Reduce(Abs(x), Abs(y));
    ghost var k: nat :| Reaches(Euclid(Abs(x), Abs(y), 1, 0), k, Euclid(w1, 0, w3, w4)) && iter % 2 == k % 2;
    StepsKeepBezout(Abs(x), Abs(y), k, Euclid(w1, 0, w3, w4));
    CofactorWorks(x, y, k, w1, w3, w4);
    SameParity(x, k, iter);
    if x < 0 { iter := iter + 1; }
    xd := if iter % 2 == 1 then y - w3 else w3;
    z, size, err := w1, Size(w1), Bigs.NoError;
    yd := 0;
    if distinct {
      if y == 0 {
        // the division is refused, and w4 is what it was
        err, yd := Bigs.DivByZero, w4;
      } else {
        yd := (-x * xd + w1) / y;
      }
    }
    Exact(x, y, xd, w1);
  }

  lemma Exact(x: int, y: int, xd: int, g: nat)
    requires y != 0 ==> (g - x * xd) % Abs(y) == 0
    ensures y != 0 ==> g == x * xd + y * ((-x * xd + g) / y)
    ensures y > 0 ==> (x * xd) % y == g % y
  {
    if y != 0 {
      var t := -x * xd + g;
      assert t == g - x * xd;
      assert t == t / y * y + t % y;
      assert y < 0 ==> t % y == t % -y;
      if y > 0 { Modular.Witness(g, x * xd, t / y, y); }
    }
  }

  /** invmodp: a true inverse when the gcd is 1. */
  method Invmodp(x: int, y: int) returns (z: int, gcd: nat)
    ensures gcd == Size(Gcd(Abs(x), Abs(y)))
    ensures y > 0 ==> 0 <= z <= y && (x * z) % y == Gcd(Abs(x), y) % y
    ensures y > 0 && gcd == 1 ==> (x * z) % y == 1 % y
  {
    var yd, g, err;
    z, yd, g, gcd, err := Xgcd(x, y, false);
  }
}
