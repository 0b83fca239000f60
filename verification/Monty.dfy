/** mrmonty.c: setting up a modulus, conversion to n-residues and arithmetic on them. */
module Montgomery {
  import opened Words
  import opened Bits
  import opened Bigs
  import opened AddSub
  import opened Division
  import opened MontgomeryReduction
  import opened Gcds
  import LehmerGcd
  import opened Modular

  /** The context fields that describe the modulus. */
  class Monty {
    const modulus: Big
    const one: Big
    var ndash: Word

    constructor (nd: nat)
      ensures fresh(modulus) && fresh(one) && fresh(modulus.w) && fresh(one.w)
      ensures modulus != one && modulus.w != one.w && modulus.Valid() && one.Valid() && modulus.len == 0
      ensures modulus.w.Length == one.w.Length == nd + 1
    {
      hide Val, Pow;
      var m := new Big(nd + 1);
      var o := new Big(nd + 1);
      modulus, one, ndash := m, o, 0;
    }
  }

  // ----- the residue ring seen from outside -----

  /** A power; of the inverse of B modulo n it gives the inverse of R = B^k. */
  ghost function Power(t: int, k: nat): int {
    if k == 0 then 1 else t * Power(t, k - 1)
  }

  /** With ndash * n = -1 mod B, B and with it R = B^k are invertible modulo n. */
  lemma {:induction false} RadixInvertible(ndash: int, n: int, k: nat)
    requires n > 0 && (ndash * n + 1) % B == 0
    ensures (Power((ndash * n + 1) / B, k) * Pow(k)) % n == 1 % n
  {
    hide Pow;
    var t := (ndash * n + 1) / B;
    if k == 0 {
      Empty();
    } else {
      RadixInvertible(ndash, n, k - 1);
      PowStep(k - 1);
      Modular.Witness(t * B, 1, ndash, n);
      Modular.Mul(t * B, 1, Power(t, k - 1) * Pow(k - 1), 1, n);
      assert (t * B) * (Power(t, k - 1) * Pow(k - 1)) == Power(t, k) * Pow(k);
    }
  }

  /** REDC undoes the conversion to an n-residue: redc(nres(x)) = x mod n. */
  lemma RedcOfNres(n: int, ndash: int, rn: nat, x: int, r: int, y: int)
    requires n > 0 && (ndash * n + 1) % B == 0
    requires r == (x * Pow(rn)) % n && 0 <= y < n && (y * Pow(rn)) % n == r % n
    ensures y == x % n
  {
    hide Pow;
    RadixInvertible(ndash, n, rn);
    Modular.Reduce(x * Pow(rn), n);
    Modular.Cancel(y, x, Pow(rn), Power((ndash * n + 1) / B, rn), n);
    Modular.Small(y, n);
  }

  /** Multiplying n-residues and reducing multiplies what they stand for: modmult(nres x, nres y) = nres(x * y). */
  lemma ModmultOfNres(n: int, ndash: int, rn: nat, x: int, y: int, rx: int, ry: int, w: int)
    requires n > 0 && (ndash * n + 1) % B == 0
    requires rx == (x * Pow(rn)) % n && ry == (y * Pow(rn)) % n
    requires 0 <= w < n && (w * Pow(rn)) % n == (rx * ry) % n
    ensures w == (x * y * Pow(rn)) % n
  {
    hide Pow;
    var R := Pow(rn);
    Modular.Reduce(x * R, n);
    Modular.Reduce(y * R, n);
    Modular.Mul(rx, x * R, ry, y * R, n);
    assert (x * R) * (y * R) == (x * y * R) * R;
    RadixInvertible(ndash, n, rn);
    Modular.Cancel(w, x * y * R, R, Power((ndash * n + 1) / B, rn), n);
    Modular.Small(w, n);
  }

  // ----- which moduli can be set up -----

  /** An odd divisor of a power of two is 1. */
  lemma {:induction false} OddDivisor(d: int, k: nat)
    requires d > 0 && d % 2 == 1 && Two(k) % d == 0
    ensures d == 1
  {
    if k > 0 {
      var m, h := Two(k) / d, Two(k - 1);
      assert 2 * h == m * d;
      HalfMultiple(m, d, h);
      OddDivisor(d, k - 1);
    } else {
      if d > 1 { Modular.Small(1, d); }
    }
  }

  lemma HalfMultiple(m: int, d: int, h: int)
    requires d > 0 && 2 * h == m * d && d % 2 == 1
    ensures h % d == 0
  {
    OddTimesOdd(m, d);
    var c := m / 2;
    assert m * d == 2 * (c * d) by { assert m == 2 * c; }
    Modular.Witness(h, 0, c, d);
    Modular.Small(0, d);
  }

  lemma OddTimesOdd(m: int, d: int)
    ensures (m * d) % 2 == 1 <==> m % 2 == 1 && d % 2 == 1
  {
    var a, b := m / 2, d / 2;
    assert m * d == 2 * (2 * a * b + a * (d % 2) + b * (m % 2)) + (m % 2) * (d % 2);
  }

  /** A word is invertible modulo B exactly when it is odd. */
  lemma OddIsUnit(w: Word)
    ensures Gcd(w, B) == 1 <==> w % 2 == 1
  {
    hide Gcd;
    var g := Gcd(w, B);
    GcdDivides(w, B);
    WordIsTwo32();
    if w % 2 == 1 {
      OddFactor(w, g);
      OddDivisor(g, 32);
    } else {
      GcdIsGreatest(w, B, 2);
    }
  }

  lemma OddFactor(w: int, g: int)
    requires g > 0 && w % g == 0 && w % 2 == 1
    ensures g % 2 == 1
  {
    var k := w / g;
    assert w == k * g;
    OddTimesOdd(k, g);
  }

  // ----- words of a canonical number -----

  /** Numbers without leading zero words are equal word for word when they are equal. */
  lemma Canonical(s: seq<Word>, t: seq<Word>)
    requires Val(s) == Val(t) && (s != [] ==> s[|s| - 1] != 0) && (t != [] ==> t[|t| - 1] != 0)
    ensures s == t
  {
    hide Val, Pow;
    if |s| > |t| { Longer(s, t); }
    if |s| < |t| { Longer(t, s); }
    Injective(s, t);
  }

  /** The modulus is odd and above 2 and ndash fits it; nothing is said about the value of one. */
  ghost predicate ModulusReady(mip: Mip, mo: Monty)
    reads mip, mo, mo.modulus, mo.modulus.w, mo.one, mo.one.w, mip.w0, mip.w0.w
  {
    && Ready(mip, mo.modulus, mo.ndash) && mo.modulus.Abs() > 2
    && mo.one != mo.modulus && mo.one.w != mo.modulus.w && mo.one != mip.w0 && mo.one.w != mip.w0.w
    && mo.one.Valid() && !mo.one.neg
  }

  /** prepare_monty has run: the modulus is set up and one is 1 as an n-residue. */
  ghost predicate Prepared(mip: Mip, mo: Monty)
    reads mip, mo, mo.modulus, mo.modulus.w, mo.one, mo.one.w, mip.w0, mip.w0.w
  {
    ModulusReady(mip, mo) && mo.one.Abs() == Mod(Pow(mo.modulus.len), mo.modulus.Abs())
  }

  /** Adding the modulus to a negative remainder gives the least non-negative residue. */
  lemma LeastResidue(x: int, n: int)
    requires n > 0
    ensures var r := Remainder(x, n); -n < r < n && (if r < 0 then r + n else r) == Mod(x, n) && (x >= 0 ==> r >= 0)
  {
    var r := Remainder(x, n);
    TruncatedDivision(x, n, Quotient(x, n), r);
    var v := if r < 0 then r + n else r;
    DivMod(x, n, if r < 0 then Quotient(x, n) - 1 else Quotient(x, n), v);
  }

  /** The modulus as a set of words is determined by its value, so division gives it back as it was. */
  method DivideByModulus(mip: Mip, x: Big, modulus: Big, ndash: Word)
    requires Ready(mip, modulus, ndash) && x.Valid() && x != modulus && x.w != modulus.w && Apart(x, mip.w0)
    requires x.len < mip.w0.w.Length && 1 <= x.w.Length
    modifies mip, x, x.w, modulus, modulus.w, mip.w0, mip.w0.w
    ensures mip.ernum == if old(mip.check && x.len - modulus.len + 1 > mip.nib) then Overflow else NoError
    ensures mip.ernum == NoError ==> Ready(mip, modulus, ndash) && mip.check == old(mip.check)
    ensures mip.ernum == NoError ==> modulus.len == old(modulus.len) && modulus.Abs() == old(modulus.Abs()) > 0
    ensures mip.ernum == NoError ==> x.Valid() && x.Value() == Remainder(old(x.Value()), modulus.Abs())
  {
    hide Val, Pow, Remainder, Quotient, Mod;
    ghost var S := modulus.w[..modulus.len];
    NonZero(modulus);
    Divide(mip, x, modulus, modulus);
    if mip.ernum == NoError {
      NonZero(modulus);
      Canonical(S, modulus.w[..modulus.len]);
    }
  }

  /** The first half of nres: the least non-negative residue of x. */
  method LeastInto(mip: Mip, modulus: Big, ndash: Word, x: Big, y: Big)
    requires Ready(mip, modulus, ndash) && x.Valid() && y.Valid()
    requires Apart(x, mip.w0) && Apart(y, mip.w0) && Apart(x, y) && Apart(y, modulus) && y != modulus && y != mip.w0
    requires x.len <= y.w.Length && x.len < mip.w0.w.Length && modulus.len < y.w.Length
    modifies mip, y, y.w, modulus, modulus.w, mip.w0, mip.w0.w
    ensures mip.ernum == if old(mip.check && x.len - modulus.len + 1 > mip.nib) then Overflow else NoError
    ensures mip.ernum == NoError ==> Ready(mip, modulus, ndash) && mip.check == old(mip.check)
    ensures mip.ernum == NoError ==> modulus.len == old(modulus.len) && modulus.Abs() == old(modulus.Abs()) > 0
    ensures mip.ernum == NoError ==> y.Valid() && !y.neg && y.Abs() == Mod(old(x.Value()), modulus.Abs())
  {
    hide Val, Pow, Remainder, Quotient, Mod;
    ghost var xv, n := x.Value(), modulus.Abs();
    Copy(x, y);
    assert modulus.Abs() == n;
    DivideByModulus(mip, y, modulus, ndash);
    if mip.ernum != NoError { return; }
    assert modulus.Abs() == n > 0;
    LeastResidue(xv, n);
    assert y.Value() == Remainder(xv, n);
    ghost var res := Mod(xv, n);
    assert y.Value() == res || y.Value() + n == res;
    LenBound(y, modulus.len);
    NonZero(y);
    assert y.neg ==> y.Abs() == n - res;
    assert !y.neg ==> y.Abs() == res;
    if y.neg { AddModulus(mip, modulus, y); }
    assert modulus.Abs() == n;
    NonNegative(y);
  }

  method AddModulus(mip: Mip, modulus: Big, y: Big)
    requires mip.Valid() && modulus.Valid() && !modulus.neg && y.Valid() && y.neg && Apart(y, modulus) && y != modulus
    requires y.len <= modulus.len < modulus.w.Length && modulus.len < y.w.Length && y.Abs() < modulus.Abs()
    modifies mip`ernum, y, y.w, modulus`neg
    ensures mip.Valid() && modulus.neg == old(modulus.neg) && modulus.Abs() == old(modulus.Abs())
    ensures y.Valid() && !y.neg && y.Abs() == modulus.Abs() - old(y.Abs())
  {
    hide Val, Pow;
    AddSub.Add(mip, y, modulus, y);
    NonZero(y);
  }

  /** nres: y = x * B^rn mod n, whatever the sign of x. */
  method Nres(mip: Mip, modulus: Big, ndash: Word, x: Big, y: Big)
    requires Ready(mip, modulus, ndash) && x.Valid() && y.Valid()
    requires Apart(x, mip.w0) && Apart(y, mip.w0) && Apart(x, y) && Apart(y, modulus) && y != modulus && y != mip.w0
    requires x.len <= y.w.Length && x.len < mip.w0.w.Length && modulus.len < y.w.Length
    modifies mip, y, y.w, modulus, modulus.w, mip.w0, mip.w0.w
    ensures mip.ernum == if old(mip.check && x.len - modulus.len + 1 > mip.nib) then Overflow else NoError
    ensures mip.ernum == NoError ==> modulus.len == old(modulus.len) && modulus.Abs() == old(modulus.Abs()) > 0
    ensures mip.ernum == NoError ==> mip.check && (modulus.len < mip.nib ==> Ready(mip, modulus, ndash))
    ensures mip.ernum == NoError ==> y.Valid() && !y.neg && y.Abs() == Mod(old(x.Value()) * Pow(modulus.len), modulus.Abs())
  {
    hide Val, Pow, Remainder, Quotient, Mod;
    ghost var xv := x.Value();
    LeastInto(mip, modulus, ndash, x, y);
    if mip.ernum != NoError { return; }
    ghost var n := modulus.Abs();
    ScaleResidue(mip, modulus, ndash, y);
    ModTimes(xv, Pow(modulus.len), n);
  }

  lemma ModTimes(x: int, p: int, n: int)
    requires n > 0
    ensures Mod(Mod(x, n) * p, n) == Mod(x * p, n)
  {
    Modular.Reduce(x, n);
    Modular.Mul(x % n, x, p, p, n);
  }

  lemma ScaledFits(r: int, n: int, p: int)
    requires 0 <= r < n <= p && 0 < p
    ensures 0 <= r * p < p * p
  {
    MulNonNeg(r, p);
    MulStep(r, p, p);
  }

  /** The second half of nres: shift by the length of the modulus and reduce, with the overflow check off. */
  method ScaleResidue(mip: Mip, modulus: Big, ndash: Word, y: Big)
    requires Ready(mip, modulus, ndash) && y.Valid() && !y.neg && y.Abs() < modulus.Abs()
    requires Apart(y, mip.w0) && y != mip.w0 && Apart(y, modulus) && y != modulus && modulus.len < y.w.Length
    modifies mip, y, y.w, modulus, modulus.w, mip.w0, mip.w0.w
    ensures mip.ernum == NoError && mip.check && (modulus.len < mip.nib ==> Ready(mip, modulus, ndash))
    ensures modulus.len == old(modulus.len) && modulus.Abs() == old(modulus.Abs()) > 0
    ensures y.Valid() && !y.neg && y.Abs() == Mod(old(y.Abs()) * Pow(modulus.len), modulus.Abs())
  {
    hide Val, Pow, Remainder, Quotient, Mod;
    ghost var r, n, p := y.Abs(), modulus.Abs(), Pow(modulus.len);
    mip.check := false;
    LenBound(y, modulus.len);
    Shift(mip, y, modulus.len, mip.w0);
    ScaledFits(r, n, p);
    PowAdd(modulus.len, modulus.len);
    LenBound(mip.w0, modulus.len + modulus.len);
    DivideByModulus(mip, mip.w0, modulus, ndash);
    LeastResidue(r * p, n);
    ghost var res := Mod(r * p, n);
    assert mip.w0.Value() == res;
    NonNegative(mip.w0);
    assert mip.w0.Abs() == res < n;
    LenBound(mip.w0, modulus.len);
    Copy(mip.w0, y);
    mip.check := true;
  }

  /** The buffers of the context are long enough for an n of this many words. */
  ghost predicate ContextRoom(mip: Mip, mo: Monty, n: Big)
    reads mip, n, mo, mo.modulus, mo.one, mip.w0
  {
    && n.len < mo.modulus.w.Length && n.len < mo.one.w.Length && 1 < mo.one.w.Length && 2 * n.len < mip.w0.w.Length
    && n.len < mip.nib && n != mo.modulus && n.w != mo.modulus.w && n != mo.one && n.w != mo.one.w
    && n != mip.w0 && n.w != mip.w0.w
    && mo.one != mo.modulus && mo.one.w != mo.modulus.w && mo.one != mip.w0 && mo.one.w != mip.w0.w
    && mo.modulus != mip.w0 && mo.modulus.w != mip.w0.w
  }

  /** What is needed of ndash: the negated inverse of the low word, when there is one. */
  method Ndash(n0: Word) returns (ndash: Word, ok: bool)
    ensures ok == (n0 % 2 == 1)
    ensures ok ==> (ndash * n0 + 1) % B == 0
  {
    var inv, gcd := LehmerGcd.Invmodp(n0, B);
    OddIsUnit(n0);
    ok := gcd == 1;
    ndash := 0;
    if ok {
      var k := Difference(n0 * inv, 1, B);
      ndash := (0 - inv) % B;
      var j := (0 - inv) / B;
      assert 0 - inv == j * B + ndash;
      assert ndash * n0 + 1 == 0 + (-k - j * n0) * B by {
        assert ndash * n0 == -(n0 * inv) - j * n0 * B;
      }
      Witness(ndash * n0 + 1, 0, -k - j * n0, B);
    }
  }

  /** The low word decides the parity. */
  lemma LowWordParity(s: seq<Word>)
    requires s != []
    ensures Val(s) % 2 == s[0] % 2
  {
    hide Val, Pow;
    assert s == [s[0]] + s[1..];
    Cons(s[0], s[1..]);
  }

  /** A number of one word is that word; a longer one is at least B. */
  lemma FirstWord(n: Big)
    requires n.Valid() && n.len > 0
    ensures n.Abs() % 2 == n.w[0] % 2 && n.Abs() > 0
    ensures if n.len == 1 then n.Abs() == n.w[0] else n.Abs() >= B
  {
    hide Val, Pow;
    var s := n.w[..n.len];
    LowWordParity(s);
    NonZero(n);
    Empty();
    if n.len == 1 {
      Cons(s[0], []);
      assert s == [s[0]] + [];
    } else {
      Leading(s);
      PowMono(1, n.len - 1);
      PowStep(0);
    }
  }

  /** size: the value of a one-word number, MR_TOOBIG when it does not fit an int, with the sign. */
  method SmallSize(n: Big) returns (size: int)
    requires n.Valid()
    ensures size <= 2 <==> n.Value() <= 2
    ensures size == if n.neg then 0 - (LehmerGcd.Size(n.Abs()) as int) else LehmerGcd.Size(n.Abs())
  {
    hide Val, Pow;
    NonZero(n);
    Empty();
    if n.len == 0 {
      assert n.w[..0] == [];
      return 0;
    }
    FirstWord(n);
    size := if n.len == 1 && n.w[0] < LehmerGcd.MR_TOOBIG then n.w[0] else LehmerGcd.MR_TOOBIG;
    if n.neg { size := -size; }
  }

  /** convert(1, x). */
  method SetOne(x: Big)
    requires x.Valid() && 1 <= x.w.Length
    modifies x, x.w
    ensures x.Valid() && x.Value() == 1 && x.len == 1
  {
    hide Val, Pow;
    x.Zero();
    x.w[0] := 1;
    x.len := 1;
    Empty();
    Cons(1, []);
    assert x.w[..1] == [1] + [];
  }

  /**
   * prepare_monty: any odd modulus above 2 can be set up, and nothing else. A modulus that is set up already is left
   * as it is. A modulus that is too small changes nothing; an even one leaves the old modulus with a one that is 1.
   */
  method PrepareMonty(mip: Mip, mo: Monty, n: Big)
    requires mip.Valid() && mip.check && n.Valid() && mo.modulus.Valid() && mo.one.Valid() && mip.w0.Clean(mip.w0.len)
    requires ContextRoom(mip, mo, n) && (mo.modulus.len > 0 ==> ModulusReady(mip, mo))
    modifies mip, mo, mo.modulus, mo.modulus.w, mo.one, mo.one.w, mip.w0, mip.w0.w
    ensures mip.ernum == if old(n.Value() > 2 && n.Value() % 2 == 1) then NoError else BadModulus
    ensures mip.ernum == NoError ==> ModulusReady(mip, mo) && mip.check && mo.modulus.Value() == old(n.Value())
    ensures mip.ernum == NoError && old(mo.modulus.Value() != n.Value() || Prepared(mip, mo)) ==> Prepared(mip, mo)
    ensures mip.ernum == NoError && old(mo.modulus.Value() == n.Value()) ==>
              unchanged(mip, mo, mo.modulus, mo.modulus.w, mo.one, mo.one.w, mip.w0, mip.w0.w)
    ensures mip.ernum == BadModulus ==> mip.check && unchanged(mo, mo.modulus, mo.modulus.w, mip.w0, mip.w0.w)
    ensures mip.ernum == BadModulus && old(n.Value()) <= 2 ==> unchanged(mo.one, mo.one.w)
    ensures mip.ernum == BadModulus && old(n.Value()) > 2 ==> mo.one.Valid() && mo.one.Value() == 1
  {
    hide Val, Pow, Mod;
    ghost var nv := n.Value();
    NonZero(n);
    NonZero(mo.modulus);
    if mo.modulus.len != 0 {
      ReadyIsOdd(mip, mo);
      var c := Compare(n, mo.modulus);
      if c == 0 { return; }
    }
    var size := SmallSize(n);
    if size <= 2 {
      mip.ernum := BadModulus;
      return;
    }
    FirstWord(n);
    SetOne(mo.one);
    var nd, ok := Ndash(n.w[0]);
    if !ok {
      mip.ernum := BadModulus;
      return;
    }
    InstallModulus(mip, mo, n, nd);
  }

  /**
   * An even modulus m is refused, the error is cleared, and the old modulus n is set up again: the call returns early
   * and one is left wrong, unless B^len happens to be 1 modulo n.
   */
  method StaleOne(mip: Mip, mo: Monty, n: Big, m: Big)
    requires Prepared(mip, mo) && mip.check && n.Valid() && m.Valid() && ContextRoom(mip, mo, n) && ContextRoom(mip, mo, m)
    requires n.Value() == mo.modulus.Value() && m.Value() > 2 && m.Value() % 2 == 0
    modifies mip, mo, mo.modulus, mo.modulus.w, mo.one, mo.one.w, mip.w0, mip.w0.w
    ensures mip.ernum == NoError && ModulusReady(mip, mo) && mo.modulus.Value() == n.Value() && mo.one.Value() == 1
    ensures Prepared(mip, mo) <==> Mod(Pow(mo.modulus.len), mo.modulus.Abs()) == 1
  {
    hide Val, Pow, Mod;
    NonZero(mo.modulus);
    ReadyIsOdd(mip, mo);
    PrepareMonty(mip, mo, m);
    mip.ernum := NoError;
    NonNegative(mo.one);
    assert ModulusReady(mip, mo) && n.Value() > 2 && n.Value() % 2 == 1;
    PrepareMonty(mip, mo, n);
  }

  /** Modulo 7, for one, it is not. */
  lemma OneIsWrongForSeven()
    ensures Mod(Pow(1), 7) == 4
  {
    assert Pow(1) == B * Pow(0);
  }

  /** The low word of a prepared modulus has an inverse, so the modulus is odd. */
  lemma ReadyIsOdd(mip: Mip, mo: Monty)
    requires ModulusReady(mip, mo)
    ensures mo.modulus.Abs() % 2 == 1
  {
    hide Val, Pow, Mod;
    FirstWord(mo.modulus);
    OddByInverse(mo.ndash, mo.modulus.w[0]);
  }

  lemma OddBelowMultiple(p: int)
    requires (p + 1) % B == 0
    ensures p % 2 == 1
  {
  }

  lemma OddByInverse(d: int, w: int)
    requires (d * w + 1) % B == 0
    ensures w % 2 == 1
  {
    OddBelowMultiple(d * w);
    OddTimesOdd(d, w);
  }

  /** The modulus, its negated inverse and the residue of one are stored in the context. */
  method InstallModulus(mip: Mip, mo: Monty, n: Big, nd: Word)
    requires mip.Valid() && mip.check && n.Valid() && mo.modulus.Valid() && mip.w0.Clean(mip.w0.len)
    requires ContextRoom(mip, mo, n) && n.Value() > 2 && n.len > 0 && (nd * n.w[0] + 1) % B == 0
    requires mo.one.Valid() && mo.one.Value() == 1 && mo.one.len == 1
    modifies mip, mo, mo.modulus, mo.modulus.w, mo.one, mo.one.w, mip.w0, mip.w0.w
    ensures mip.ernum == NoError && mip.check && Prepared(mip, mo) && mo.modulus.Value() == old(n.Value())
  {
    hide Val, Pow, Mod;
    NonNegative(n);
    mo.ndash := nd;
    Copy(n, mo.modulus);
    assert mo.modulus.w[0] == mo.modulus.w[..mo.modulus.len][0] == n.w[0];
    Nres(mip, mo.modulus, mo.ndash, mo.one, mo.one);
    assert 1 * Pow(mo.modulus.len) == Pow(mo.modulus.len);
  }
}
