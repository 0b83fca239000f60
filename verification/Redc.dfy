/** mrmonty.c: Montgomery's REDC on word arrays, and the modular operations made of it. */
module MontgomeryReduction {
  import opened Words
  import opened Bigs
  import opened AddSub
  import opened Multiplication
  import Modular

  /** The multiplier of a row makes its lowest word vanish. */
  lemma RowClears(ndash: Word, n0: Word, w: Word)
    requires (ndash * n0 + 1) % B == 0
    ensures ((ndash * w) % B * n0 + w) % B == 0
  {
    var m: int := (ndash * w) % B;
    var k := (ndash * w) / B;
    assert ndash * w == k * B + m;
    var t: int := w;
    assert m * n0 + w == t * (ndash * n0 + 1) - k * n0 * B;
    Modular.Multiple(t, ndash * n0 + 1, B);
    Modular.Witness(m * n0 + w, t * (ndash * n0 + 1), -(k * n0), B);
  }

  /** Two additions into a word of which together at most one overflows. */
  lemma DelayedCarry(w: Word, delay: int, carry: Word)
    requires 0 <= delay <= 1
    ensures var s := (w + delay) % B; var t := (s + carry) % B;
            var out := if t < carry then 1 else if s < delay then 1 else 0;
            w + delay + carry == t + out * B
  {
  }

  /** The words below i have been cleared, and q multiples of the modulus have been added to x. */
  ghost predicate Cleared(w0: Big, rn: nat, i: nat, delay: int, x: int, n: int, q: int)
    requires i <= rn && rn + rn <= w0.w.Length
    reads w0.w
  {
    && w0.Clean(rn + rn) && 0 <= delay <= 1 && 0 <= q < Pow(i)
    && Val(w0.w[..rn + rn]) + delay * Pow(rn + i) == x + n * q
    && forall k | 0 <= k < i :: w0.w[k] == 0
  }

  lemma ClearStep(v: int, delay: int, p: int, v1: int, carry: int, high: int, out: int, w: int, w1: int, m: int, pi: int, n: int, x: int, q: int)
    requires v1 + carry * p == v + m * pi * n && w + delay + carry == w1 + out * B
    requires (v + w * p + high) + delay * p == x + n * q
    ensures (v1 + w1 * p + high) + out * (B * p) == x + n * (q + m * pi)
  {
    assert (w + delay + carry) * p == (w1 + out * B) * p;
    assert n * (q + m * pi) == n * q + m * pi * n;
  }

  /** From S to T a row of m * n was added at word i, with its carry and the delayed one going into word p. */
  lemma RowAdds(S: seq<Word>, T: seq<Word>, p: nat, delay: int, carry: int, out: int, m: int, pi: int, n: int, x: int, q: int)
    requires p < |S| == |T| && T[p + 1..] == S[p + 1..] && S[p] + delay + carry == T[p] + out * B
    requires Val(T[..p]) + carry * Pow(p) == Val(S[..p]) + m * pi * n
    requires Val(S) + delay * Pow(p) == x + n * q
    ensures Val(T) + out * Pow(p + 1) == x + n * (q + m * pi)
  {
    hide Val, Pow;
    Split(S, p);
    Split(T, p);
    PowStep(p);
    ClearStep(Val(S[..p]), delay, Pow(p), Val(T[..p]), carry, Pow(p + 1) * Val(S[p + 1..]), out, S[p], T[p], m, pi, n, x, q);
  }

  /** One row of REDC: a multiple of the modulus is added so that word i becomes zero. */
  method ClearWord(w0: Big, modulus: Big, ndash: Word, rn: nat, i: nat, delay: int, ghost x: int, ghost q: int)
    returns (out: int, ghost q': int)
    requires modulus.len == rn <= modulus.w.Length && w0.w != modulus.w && i < rn && rn + rn <= w0.w.Length
    requires (ndash * modulus.w[0] + 1) % B == 0
    requires Cleared(w0, rn, i, delay, x, modulus.Abs(), q)
    modifies w0.w
    ensures Cleared(w0, rn, i + 1, out, x, modulus.Abs(), q')
  {
    hide Val, Pow;
    ghost var n, S := modulus.Abs(), w0.w[..rn + rn];
    var m: Word := ndash * w0.w[i] % B;
    RowClears(ndash, modulus.w[0], w0.w[i]);
    var carry := RowSum(w0, m, i, modulus, 0, rn);
    assert modulus.w[..0] == [];
    Empty();
    out := AddCarries(w0, rn + i, delay, carry);
    q' := q + m * Pow(i);
    ghost var T := w0.w[..rn + rn];
    assert T[..rn + i] == w0.w[..i + rn] && S[..rn + i] == old(w0.w[..i + rn]);
    assert T[rn + i + 1..] == S[rn + i + 1..];
    RowAdds(S, T, rn + i, delay, carry, out, m, Pow(i), n, x, q);
    PowStep(i);
    TopWord(q, m, Pow(i));
  }

  /** The delayed carry and the carry of the row both go into the word above the row. */
  method AddCarries(w0: Big, p: nat, delay: int, carry: Word) returns (out: int)
    requires p < w0.w.Length && 0 <= delay <= 1
    modifies w0.w
    ensures forall k | 0 <= k < w0.w.Length && k != p :: w0.w[k] == old(w0.w[k])
    ensures 0 <= out <= 1 && w0.w[p] + out * B == old(w0.w[p]) + delay + carry
    ensures w0.w[..p] == old(w0.w[..p])
  {
    DelayedCarry(w0.w[p], delay, carry);
    w0.w[p] := (w0.w[p] + delay) % B;
    out := if w0.w[p] < delay then 1 else 0;
    w0.w[p] := (w0.w[p] + carry) % B;
    if w0.w[p] < carry { out := 1; }
  }

  /** The modulus is set up: odd, with ndash = -1/n mod B, and with its spare word. */
  ghost predicate Ready(mip: Mip, modulus: Big, ndash: Word)
    reads mip, modulus, modulus.w, mip.w0, mip.w0.w
  {
    && mip.Valid() && modulus.Valid() && !modulus.neg && 1 <= modulus.len < modulus.w.Length
    && (ndash * modulus.w[0] + 1) % B == 0
    && modulus != mip.w0 && modulus.w != mip.w0.w
    && mip.w0.Clean(mip.w0.len) && 2 * modulus.len < mip.w0.w.Length
    && (mip.check ==> modulus.len < mip.nib)
  }

  lemma RedcBound(t: int, p: int, x: int, n: int, q: int)
    requires t * p == x + n * q && 0 <= x < n * p && 0 <= q < p && n > 0
    ensures 0 <= t < 2 * n
  {
    MulStep(q, p, n);
    if t >= 2 * n { MulMono(2 * n, t, p); }
    if t < 0 { MulMono(t, -1, p); MulNonNeg(n, q); }
  }

  lemma RedcCongruent(t: int, p: int, x: int, n: int, q: int, y: int)
    requires t * p == x + n * q && n > 0 && (y == t || y == t - n)
    ensures (y * p) % n == x % n
  {
    assert (t - n) * p == t * p - n * p;
    Modular.Witness(y * p, x, if y == t then q else q - p, n);
    assert (q - p) * n == n * q - n * p;
  }

  /** The rows of REDC: all the low words are cleared, and the number is read from the middle. */
  method RedcRows(mip: Mip, modulus: Big, ndash: Word) returns (ghost q: int)
    requires Ready(mip, modulus, ndash)
    requires mip.w0.Valid() && !mip.w0.neg && mip.w0.Abs() < modulus.Abs() * Pow(modulus.len)
    modifies mip`ernum, mip.w0, mip.w0.w
    ensures mip.ernum == NoError && mip.w0.Valid() && !mip.w0.neg && 0 <= q < Pow(modulus.len)
    ensures mip.w0.Abs() * Pow(modulus.len) == old(mip.w0.Abs()) + modulus.Abs() * q
    ensures mip.w0.len <= modulus.len + 1
  {
    hide Val, Pow;
    var w0, rn := mip.w0, modulus.len;
    ghost var x := w0.Abs();
    Fits(w0, modulus);
    ZeroTail(w0.w[..rn + rn], w0.len);
    assert w0.w[..rn + rn][..w0.len] == w0.w[..w0.len];
    Empty();
    var delay := 0;
    q := 0;
    for i := 0 to rn
      invariant Cleared(w0, rn, i, delay, x, modulus.Abs(), q) && !w0.neg && mip.Valid()
    {
      delay, q := ClearWord(w0, modulus, ndash, rn, i, delay, x, q);
    }
    DropLow(mip, rn, delay);
  }

  /** The last delayed carry is stored and the cleared low words are shifted out. */
  method DropLow(mip: Mip, rn: nat, delay: int)
    requires mip.Valid() && 1 <= rn && rn + rn < mip.w0.w.Length && 0 <= delay <= 1 && !mip.w0.neg
    requires mip.w0.Clean(rn + rn) && forall k | 0 <= k < rn :: mip.w0.w[k] == 0
    requires mip.check ==> rn < mip.nib
    modifies mip`ernum, mip.w0, mip.w0.w
    ensures mip.ernum == NoError && mip.w0.Valid() && !mip.w0.neg && mip.w0.len <= rn + 1
    ensures mip.w0.Abs() * Pow(rn) == old(Val(mip.w0.w[..rn + rn])) + delay * Pow(rn + rn)
  {
    hide Val, Pow;
    var w0 := mip.w0;
    ghost var S := w0.w[..rn + rn];
    w0.w[rn + rn] := delay;
    ghost var F := w0.w[..rn + rn + 1];
    assert F == S + [delay];
    Snoc(S, delay);
    assert F == F[..rn] + F[rn..];
    Append(F[..rn], F[rn..]);
    Zeros(F[..rn]);
    ghost var v, p := Val(F[rn..]), Pow(rn);
    assert v * p == p * v == Val(F);
    w0.len := rn + rn + 1;
    Shift(mip, w0, -(rn as int), w0);
    assert w0.w[..w0.len] == F[rn..];
    assert w0.Abs() == v;
    w0.Lzero();
    assert w0.Abs() == v;
  }

  lemma Fits(x: Big, modulus: Big)
    requires x.Valid() && modulus.Valid() && x.Abs() < modulus.Abs() * Pow(modulus.len)
    ensures x.len <= modulus.len + modulus.len
  {
    hide Val, Pow;
    PowAdd(modulus.len, modulus.len);
    MulMono(modulus.Abs(), Pow(modulus.len), Pow(modulus.len));
    LenBound(x, modulus.len + modulus.len);
  }

  /** The rows and the one subtraction, on the workspace number. */
  method RedcInWorkspace(mip: Mip, modulus: Big, ndash: Word)
    requires Ready(mip, modulus, ndash) && mip.w0.Valid() && !mip.w0.neg && mip.w0.Abs() < modulus.Abs() * Pow(modulus.len)
    modifies mip`ernum, mip.w0, mip.w0.w
    ensures mip.ernum == NoError && mip.w0.Valid() && !mip.w0.neg && mip.w0.Abs() < modulus.Abs()
    ensures mip.w0.len <= modulus.len
    ensures (mip.w0.Abs() * Pow(modulus.len)) % modulus.Abs() == old(mip.w0.Abs()) % modulus.Abs()
  {
    hide Val, Pow;
    var w0 := mip.w0;
    ghost var n, p, xv := modulus.Abs(), Pow(modulus.len), w0.Abs();
    NonZero(modulus);
    ghost var q := RedcRows(mip, modulus, ndash);
    ghost var t := w0.Abs();
    RedcBound(t, p, xv, n, q);
    var more := Compare(w0, modulus);
    if more >= 0 { Psub(mip, w0, modulus, w0); }
    RedcCongruent(t, p, xv, n, q, w0.Abs());
    LenBound(w0, modulus.len);
  }

  /** redc: the number below n congruent to x / B^rn. */
  method Redc(mip: Mip, modulus: Big, ndash: Word, x: Big, y: Big)
    requires Ready(mip, modulus, ndash) && x.Valid() && !x.neg && y.Clean(y.len)
    requires Apart(x, mip.w0) && Apart(y, mip.w0) && Apart(x, y) && y != modulus && y.w != modulus.w
    requires x.Abs() < modulus.Abs() * Pow(modulus.len) && modulus.len <= y.w.Length
    modifies mip`ernum, y, y.w, mip.w0, mip.w0.w
    ensures Ready(mip, modulus, ndash) && y.Valid() && !y.neg && y.Abs() < modulus.Abs()
    ensures (y.Abs() * Pow(modulus.len)) % modulus.Abs() == old(x.Abs()) % modulus.Abs()
  {
    hide Val, Pow;
    ghost var xv := x.Abs();
    Fits(x, modulus);
    Copy(x, mip.w0);
    assert mip.w0.Abs() == xv;
    RedcInWorkspace(mip, modulus, ndash);
    Copy(mip.w0, y);
  }
}
