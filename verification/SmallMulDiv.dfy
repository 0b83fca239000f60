/** mrarth1.c: multiplying and dividing a big number by a single word. */
module SmallMulDiv {
  import opened Words
  import opened Bigs

  lemma WordProduct(a: Word, b: Word, carry: Word)
    ensures 0 <= a * b + carry < B * B && 0 <= (a * b + carry) / B < B
  {
    MulMono(a, B - 1, b);
    MulMono(b, B - 1, B - 1);
    MulMono(0, a, b);
  }

  lemma MulColumn(v: int, carry: int, p: int, x: int, xi: int, sn: int, lo: int, hi: int)
    requires v + carry * p == x * sn && xi * sn + carry == lo + hi * B
    ensures (v + lo * p) + hi * (B * p) == (x + xi * p) * sn
  {
    assert (xi * sn + carry) * p == (lo + hi * B) * p;
  }

  /** mr_pmul: z = x * sn; an error when the carry out of x has no word left to go to. */
  method Pmul(mip: Mip, x: Big, sn: Word, z: Big)
    requires mip.Valid() && x.Valid() && z.Clean(z.len) && Apart(x, z) && x.len <= z.w.Length
    requires !(mip.check && x.len >= mip.nib) && x.Abs() * sn >= Pow(x.len) ==> x.len < z.w.Length
    modifies mip`ernum, z, z.w
    ensures mip.ernum == if old(mip.check && x.len >= mip.nib && x.Abs() * sn >= Pow(x.len)) then Overflow else NoError
    ensures mip.ernum == NoError ==> z.Valid() && z.Value() == old(x.Value()) * sn && z.len <= old(x.len) + 1
    ensures mip.ernum == NoError ==> z.neg == (old(x.neg) && z.len > 0)
    ensures mip.ernum == NoError && sn > 0 && old(x.Abs()) * sn < Pow(old(x.len)) ==> z.len == old(x.len)
  {
    hide Val, Pow;
    Empty();
    ghost var X, ax, sx0 := x.w[..x.len], x.Abs(), x.Value();
    if x != z {
      z.Zero();
      if sn == 0 { return; }
    } else if sn == 0 {
      z.Zero();
      return;
    }
    var sx, xl := x.neg, x.len;
    if xl > 0 {
      Leading(X);
      MulMono(1, sn, ax);
    }
    var carry := PmulWords(x, xl, sn, z);
    StoreCarry(mip, z, xl, carry, sx, ax * sn);
    SignedTimes(sx, ax, sn);
  }

  lemma SignedTimes(neg: bool, v: int, k: int)
    ensures (if neg then -v else v) * k == if neg then -(v * k) else v * k
  {
  }

  /** The end of mr_pmul: the last carry gets a word of its own. */
  method StoreCarry(mip: Mip, z: Big, xl: nat, carry: Word, sx: bool, ghost total: int)
    requires mip.Valid() && z.Clean(xl) && Val(z.w[..xl]) + carry * Pow(xl) == total
    requires !(mip.check && xl >= mip.nib) && total >= Pow(xl) ==> xl < z.w.Length
    requires if xl == 0 then total == 0 else total >= Pow(xl - 1)
    modifies mip`ernum, z, z.w
    ensures mip.ernum == if old(mip.check && xl >= mip.nib) && total >= Pow(xl) then Overflow else NoError
    ensures mip.ernum == NoError ==> z.Valid() && z.Abs() == total && z.neg == (sx && z.len > 0)
    ensures mip.ernum == NoError ==> z.len == if total >= Pow(xl) then xl + 1 else xl
  {
    hide Val, Pow;
    if xl > 0 { Leading(z.w[..xl]); } else { Empty(); }
    if carry > 0 {
      MulMono(1, carry, Pow(xl));
      if mip.check && xl >= mip.nib {
        mip.ernum := Overflow;
        return;
      }
      ghost var low := z.w[..xl];
      z.w[xl] := carry;
      assert z.w[..xl + 1] == low + [carry];
      Snoc(low, carry);
      z.len := xl + 1;
    } else {
      z.len := xl;
    }
    z.neg := z.len != 0 && sx;
  }

  method PmulWords(x: Big, xl: nat, sn: Word, z: Big) returns (carry: Word)
    requires xl <= x.w.Length && xl <= z.w.Length && z.Clean(xl)
    modifies z.w
    ensures z.Clean(xl)
    ensures Val(z.w[..xl]) + carry * Pow(xl) == old(Val(x.w[..xl])) * sn
  {
    hide Val, Pow;
    Empty();
    ghost var X := x.w[..xl];
    carry := 0;
    var m := 0;
    assert z.w[..0] == X[..0] == [];
    while m < xl
      invariant 0 <= m <= xl && z.Clean(xl)
      invariant forall k | m <= k < xl :: x.w[k] == X[k]
      invariant Val(z.w[..m]) + carry * Pow(m) == Val(X[..m]) * sn
    {
      WordProduct(x.w[m], sn, carry);
      ghost var low, c0 := z.w[..m], carry;
      var dble := x.w[m] * sn + carry;
      carry := dble / B;
      z.w[m] := dble % B;
      assert z.w[..m + 1] == low + [dble % B];
      Snoc(low, dble % B);
      Prefix(X, m);
      PowStep(m);
      MulColumn(Val(low), c0, Pow(m), Val(X[..m]), X[m], sn, dble % B, carry);
      m := m + 1;
    }
    assert X[..xl] == X;
  }

  lemma DivideWord(sr: int, w: Word, sn: Word)
    requires 0 <= sr < sn
    ensures 0 <= (sr * B + w) / sn < B && 0 <= (sr * B + w) % sn < sn
    ensures (sr * B + w) / sn * sn + (sr * B + w) % sn == sr * B + w
  {
    var q := (sr * B + w) / sn;
    if q >= B { MulMono(B, q, sn); }
  }

  lemma DivColumn(x: int, q: int, sn: int, sr: int, xi: int, qi: int, r: int)
    requires x == q * sn + sr && sr * B + xi == qi * sn + r
    ensures xi + B * x == (qi + B * q) * sn + r
  {
  }

  /** mr_sdiv: |z| = |x| / sn, keeping the sign, and the remainder of |x|. */
  method Sdiv(x: Big, sn: Word, z: Big) returns (sr: Word)
    requires x.Valid() && z.Valid() && Apart(x, z) && x.len <= z.w.Length && sn > 0
    modifies z, z.w
    ensures z.Valid() && z.Abs() == old(x.Abs()) / sn && sr == old(x.Abs()) % sn
    ensures z.neg == (old(x.neg) && z.len > 0) && z.len <= old(x.len)
  {
    hide Val, Pow;
    ghost var ax, X := x.Abs(), x.w[..x.len];
    if x != z { z.Zero(); }
    sr := SdivWords(x, x.len, sn, z, X);
    z.len, z.neg := x.len, x.neg;
    z.Lzero();
    DivMod(ax, sn, z.Abs(), sr);
  }

  /** The words of the quotient from the top down, with the remainder so far. */
  method SdivWords(x: Big, xl: nat, sn: Word, z: Big, ghost X: seq<Word>) returns (sr: Word)
    requires Apart(x, z) && xl <= x.w.Length && xl <= z.w.Length && sn > 0 && X == x.w[..xl] && z.Clean(xl)
    modifies z.w
    ensures z.Clean(xl) && sr < sn && Val(X) == Val(z.w[..xl]) * sn + sr
  {
    hide Val, Pow;
    Empty();
    sr := 0;
    assert X[xl..] == z.w[xl..xl] == [];
    var i := xl;
    while i > 0
      invariant 0 <= i <= xl && z.Clean(xl) && sr < sn
      invariant forall k | 0 <= k < i :: x.w[k] == X[k]
      invariant Val(X[i..]) == Val(z.w[i..xl]) * sn + sr
    {
      i := i - 1;
      ghost var high, r0 := z.w[i + 1..xl], sr;
      DivideWord(sr, x.w[i], sn);
      var dble := sr * B + x.w[i];
      z.w[i] := dble / sn;
      sr := dble % sn;
      assert z.w[i..xl] == [dble / sn] + high;
      assert X[i..] == [X[i]] + X[i + 1..];
      Cons(dble / sn, high);
      Cons(X[i], X[i + 1..]);
      DivColumn(Val(X[i + 1..]), Val(high), sn, r0, X[i], dble / sn, sr);
    }
    assert X[0..] == X && z.w[0..xl] == z.w[..xl];
  }
}
