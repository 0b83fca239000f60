/** mrmonty.c: arithmetic on n-residues. */
module Residues {
  import opened Words
  import opened Bigs
  import opened AddSub
  import opened Multiplication
  import opened MontgomeryReduction
  import opened Montgomery
  import opened Modular

  /** A modulus n, the radix R and the inverse u of R modulo n. */
  datatype Ring = Ring(n: int, R: int, u: int) {
    predicate Valid() {
      n > 2 && (u * R) % n == 1
    }
  }

  /** What nres_modmult computes: a * b / R mod n. */
  function Times(c: Ring, a: int, b: int): (r: int)
    requires c.n > 0
    ensures 0 <= r < c.n
  {
    Mod(a * b * c.u, c.n)
  }

  /** What redc computes: the number an n-residue stands for. */
  function Plain(c: Ring, a: int): (r: int)
    requires c.n > 0
    ensures 0 <= r < c.n
  {
    Mod(a * c.u, c.n)
  }

  /** What nres computes: the n-residue of a number. */
  function Residue(c: Ring, a: int): (r: int)
    requires c.n > 0
    ensures 0 <= r < c.n
  {
    Mod(a * c.R, c.n)
  }

  /** The context fields as a ring. */
  ghost function RingOf(mo: Monty): Ring
    requires mo.modulus.len <= mo.modulus.w.Length
    reads mo, mo.modulus, mo.modulus.w
  {
    var n := mo.modulus.Abs();
    Ring(n, Pow(mo.modulus.len), Power((mo.ndash * n + 1) / B, mo.modulus.len))
  }

  lemma LowWord(s: seq<Word>)
    requires s != []
    ensures Val(s) % B == s[0]
  {
    hide Val, Pow;
    assert s == [s[0]] + s[1..];
    Cons(s[0], s[1..]);
  }

  /** A prepared context is a ring in which the radix is invertible. */
  lemma RingIsValid(mip: Mip, mo: Monty)
    requires Prepared(mip, mo)
    ensures RingOf(mo).Valid() && RingOf(mo).n == mo.modulus.Abs() && RingOf(mo).R == Pow(mo.modulus.len)
    ensures mo.one.Abs() == Residue(RingOf(mo), 1)
  {
    hide Val, Pow, Power;
    var m := mo.modulus;
    var n, d: int := m.Abs(), mo.ndash;
    LowWord(m.w[..m.len]);
    var k := n / B;
    assert n == k * B + m.w[0];
    assert d * n + 1 == (d * m.w[0] + 1) + (d * k) * B;
    Witness(d * n + 1, d * m.w[0] + 1, d * k, B);
    RadixInvertible(d, n, m.len);
    Small(1, n);
  }

  /** REDC's result is determined: it is the number the residue stands for. */
  lemma RedcIsPlain(c: Ring, x: int, y: int)
    requires c.Valid() && 0 <= y < c.n && (y * c.R) % c.n == x % c.n
    ensures y == Mod(x * c.u, c.n)
  {
    Mul(y * c.R, x, c.u, c.u, c.n);
    Small(1, c.n);
    Mul(y, y, c.u * c.R, 1, c.n);
    assert y * c.R * c.u == y * (c.u * c.R) && y * 1 == y;
    Small(y, c.n);
  }

  // ----- the operations on big numbers -----

  /** A number that holds an n-residue and has the room of one, apart from the context. */
  ghost predicate Holds(mip: Mip, mo: Monty, x: Big)
    reads x, x.w, mo.modulus, mo.modulus.w, mip.w0, mo
  {
    && Slot(mip, mo, x) && x.Valid() && !x.neg && mo.modulus.len <= mo.modulus.w.Length && x.Abs() < mo.modulus.Abs()
    && x.len <= mo.modulus.len
  }

  ghost predicate Slot(mip: Mip, mo: Monty, x: Big)
    reads mo.modulus
  {
    && x != mo.modulus && x.w != mo.modulus.w && x != mip.w0 && x.w != mip.w0.w && x != mo.one && x.w != mo.one.w
    && mo.modulus.len < x.w.Length
  }

  /** nres_modmult, whichever of x, y and w are the same number. */
  method ModMult(mip: Mip, mo: Monty, x: Big, y: Big, w: Big)
    requires Prepared(mip, mo) && mip.check && Holds(mip, mo, x) && Holds(mip, mo, y) && Slot(mip, mo, w) && w.Valid()
    requires Apart(x, y) && Apart(x, w) && Apart(y, w)
    modifies mip, w, w.w, mip.w0, mip.w0.w
    ensures Prepared(mip, mo) && mip.check && Holds(mip, mo, w)
    ensures RingOf(mo) == old(RingOf(mo)) && RingOf(mo).Valid()
    ensures w.Abs() == Times(RingOf(mo), old(x.Abs()), old(y.Abs()))
  {
    hide Val, Pow, Power, Mod;
    RingIsValid(mip, mo);
    ghost var c, a, b := RingOf(mo), x.Abs(), y.Abs();
    NonZero(x);
    NonZero(y);
    ZeroTimes(c, a, b);
    if x.len == 0 && x == w { return; }
    if y.len == 0 && y == w { return; }
    if x.len == 0 || y.len == 0 {
      w.Zero();
      return;
    }
    ProductFits(mip, mo, x, y);
    MultiplyReduce(mip, mo, x, y, w);
    RedcIsPlain(c, a * b, w.Abs());
  }

  /** The product is formed in w0 with the overflow check off, and reduced. */
  method MultiplyReduce(mip: Mip, mo: Monty, x: Big, y: Big, w: Big)
    requires Prepared(mip, mo) && mip.check && Holds(mip, mo, x) && Holds(mip, mo, y) && Slot(mip, mo, w) && w.Valid()
    requires Apart(x, y) && Apart(x, w) && Apart(y, w)
    requires x.Abs() * y.Abs() < mo.modulus.Abs() * Pow(mo.modulus.len) && x.len + y.len <= 2 * mo.modulus.len
    modifies mip, w, w.w, mip.w0, mip.w0.w
    ensures Prepared(mip, mo) && mip.check && Holds(mip, mo, w)
    ensures (w.Abs() * Pow(mo.modulus.len)) % mo.modulus.Abs() == old(x.Abs() * y.Abs()) % mo.modulus.Abs()
  {
    hide Val, Pow, Power, Mod;
    ghost var a, b := x.Abs(), y.Abs();
    MulNonNeg(a, b);
    mip.check := false;
    Multiply(mip, x, y, mip.w0);
    assert mip.w0.Value() == a * b;
    NonNegative(mip.w0);
    Redc(mip, mo.modulus, mo.ndash, mip.w0, w);
    LenBound(w, mo.modulus.len);
    mip.check := true;
  }

  lemma ZeroTimes(c: Ring, a: int, b: int)
    requires c.n > 0
    ensures a == 0 || b == 0 ==> Times(c, a, b) == 0
  {
    Small(0, c.n);
  }

  lemma ProductFits(mip: Mip, mo: Monty, x: Big, y: Big)
    requires Prepared(mip, mo) && Holds(mip, mo, x) && Holds(mip, mo, y)
    ensures x.Abs() * y.Abs() < mo.modulus.Abs() * Pow(mo.modulus.len) && x.len + y.len <= 2 * mo.modulus.len
  {
    hide Val, Pow, Power, Mod;
    var n, p := mo.modulus.Abs(), Pow(mo.modulus.len);
    MulStep(x.Abs(), n, p);
    if x.Abs() > 0 { MulMono(y.Abs(), p, x.Abs()); }
    assert x.Abs() * y.Abs() <= x.Abs() * p < n * p;
  }

  /** nres_modadd. */
  method ModAdd(mip: Mip, mo: Monty, x: Big, y: Big, w: Big)
    requires Prepared(mip, mo) && mip.check && Holds(mip, mo, x) && Holds(mip, mo, y) && Slot(mip, mo, w) && w.Valid()
    requires Apart(x, y) && Apart(x, w) && Apart(y, w)
    modifies mip`ernum, w, w.w
    ensures Prepared(mip, mo) && mip.check && Holds(mip, mo, w)
    ensures w.Abs() == Mod(old(x.Abs()) + old(y.Abs()), mo.modulus.Abs())
  {
    hide Val, Pow, Power, Mod;
    ghost var n, t := mo.modulus.Abs(), x.Abs() + y.Abs();
    Padd(mip, x, y, w);
    assert w.Abs() == t;
    var more := Compare(w, mo.modulus);
    if more >= 0 { Psub(mip, w, mo.modulus, w); }
    LeastSum(t, n);
    LenBound(w, mo.modulus.len);
  }

  lemma LeastSum(t: int, n: int)
    requires n > 0 && -n < t < 2 * n
    ensures Mod(t, n) == if t < 0 then t + n else if t < n then t else t - n
  {
    DivMod(t, n, if t < 0 then -1 else if t < n then 0 else 1, if t < 0 then t + n else if t < n then t else t - n);
  }

  /** nres_modsub. */
  method ModSub(mip: Mip, mo: Monty, x: Big, y: Big, w: Big)
    requires Prepared(mip, mo) && mip.check && Holds(mip, mo, x) && Holds(mip, mo, y) && Slot(mip, mo, w) && w.Valid()
    requires Apart(x, y) && Apart(x, w) && Apart(y, w)
    modifies mip`ernum, w, w.w
    ensures Prepared(mip, mo) && mip.check && Holds(mip, mo, w)
    ensures w.Abs() == Mod(old(x.Abs()) - old(y.Abs()), mo.modulus.Abs())
  {
    hide Val, Pow, Power, Mod;
    ghost var n, t := mo.modulus.Abs(), x.Abs() - y.Abs();
    LeastSum(t, n);
    var more := Compare(x, y);
    if more >= 0 {
      Psub(mip, x, y, w);
    } else {
      Psub(mip, y, x, w);
      assert w.Abs() == -t;
      LenBound(w, mo.modulus.len);
      Psub(mip, mo.modulus, w, w);
    }
    LenBound(w, mo.modulus.len);
  }
}
