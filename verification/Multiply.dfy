/** mrarth2.c: the product of two big numbers, with the separate squaring path. */
module Multiplication {
  import opened Words
  import opened Bigs
  import opened AddSub

  const SQR_FASTER_THRESHOLD := 5

  /** A double word splits into its halves. */
  lemma Halves(a: Word, b: Word, carry: Word, s: Word)
    ensures 0 <= a * b + carry + s < B * B
    ensures 0 <= (a * b + carry + s) / B < B
  {
    MulMono(a, B - 1, b);
    MulMono(b, B - 1, B - 1);
    MulMono(0, a, b);
  }

  /** One column of a row: x_i * y_j with the carry, p being the weight of x_i and q that of y_j. */
  lemma RowColumn(v: int, carry: int, pq: int, sv: int, s: int, xi: int, p: int, yv: int, yj: int, q: int, lo: int, hi: int)
    requires v + carry * pq == sv + xi * p * yv
    requires pq == p * q && xi * yj + carry + s == lo + hi * B
    ensures (v + lo * pq) + hi * (B * pq) == (sv + s * pq) + xi * p * (yv + yj * q)
  {
    assert (xi * yj + carry + s) * pq == (lo + hi * B) * pq;
    assert xi * p * (yv + yj * q) == xi * p * yv + (xi * yj) * pq;
  }

  /** Words j0.. of `y` times the word `xi` of weight i are added into `w0`, leaving a carry. */
  method RowSum(w0: Big, xi: Word, i: nat, y: Big, j0: nat, yl: nat) returns (carry: Word)
    requires j0 <= yl <= y.w.Length && i + yl <= w0.w.Length && w0.w != y.w
    modifies w0.w
    ensures forall k | 0 <= k < w0.w.Length && !(i + j0 <= k < i + yl) :: w0.w[k] == old(w0.w[k])
    ensures Val(w0.w[..i + yl]) + carry * Pow(i + yl)
         == old(Val(w0.w[..i + yl])) + xi * Pow(i) * (Val(y.w[..yl]) - Val(y.w[..j0]))
    ensures j0 < yl ==> w0.w[i + j0] == (xi * y.w[j0] + old(w0.w[i + j0])) % B
  {
    hide Val, Pow;
    ghost var S, Y := w0.w[..i + yl], y.w[..yl];
    ghost var y0 := Val(Y[..j0]);
    ghost var first := if j0 < yl then (xi * y.w[j0] + w0.w[i + j0]) % B else 0;
    carry := 0;
    var j := j0;
    assert S[..i + j0] == w0.w[..i + j0];
    while j < yl
      invariant j0 <= j <= yl && (j == j0 ==> carry == 0)
      invariant forall k | 0 <= k < w0.w.Length && !(i + j0 <= k < i + j) :: w0.w[k] == old(w0.w[k])
      invariant Val(w0.w[..i + j]) + carry * Pow(i + j) == Val(S[..i + j]) + xi * Pow(i) * (Val(Y[..j]) - y0)
      invariant j0 < j ==> w0.w[i + j0] == first
    {
      carry := RowWord(w0, xi, i, y.w[j], j, carry, S, Y, y0);
      j := j + 1;
    }
    assert S[..i + yl] == S && Y[..yl] == Y && Y[..j0] == y.w[..j0];
  }

  method RowWord(w0: Big, xi: Word, i: nat, yj: Word, j: nat, carry: Word, ghost S: seq<Word>, ghost Y: seq<Word>, ghost y0: int)
    returns (hi: Word)
    requires i + j < |S| <= w0.w.Length && w0.w[i + j] == S[i + j] && j < |Y| && yj == Y[j]
    requires Val(w0.w[..i + j]) + carry * Pow(i + j) == Val(S[..i + j]) + xi * Pow(i) * (Val(Y[..j]) - y0)
    modifies w0.w
    ensures forall k | 0 <= k < w0.w.Length && k != i + j :: w0.w[k] == old(w0.w[k])
    ensures w0.w[i + j] == (xi * yj + carry + S[i + j]) % B
    ensures Val(w0.w[..i + j + 1]) + hi * Pow(i + j + 1)
         == Val(S[..i + j + 1]) + xi * Pow(i) * (Val(Y[..j + 1]) - y0)
  {
    hide Val, Pow;
    Halves(xi, yj, carry, w0.w[i + j]);
    ghost var low, s := w0.w[..i + j], w0.w[i + j];
    var dble := xi * yj + carry + w0.w[i + j];
    w0.w[i + j] := dble % B;
    hi := dble / B;
    assert w0.w[..i + j + 1] == low + [dble % B];
    Snoc(low, dble % B);
    Prefix(S, i + j);
    Prefix(Y, j);
    PowAdd(i, j);
    PowStep(i + j);
    RowColumn(Val(low), carry, Pow(i + j), Val(S[..i + j]), s, xi, Pow(i), Val(Y[..j]) - y0, Y[j], Pow(j), dble % B, hi);
  }

  /** A row of a product: the carry lands in a word that was zero. */
  method Row(w0: Big, xi: Word, i: nat, y: Big, j0: nat, yl: nat)
    requires j0 <= yl <= y.w.Length && i + yl < w0.w.Length && w0.w != y.w
    requires w0.Clean(i + yl)
    modifies w0.w
    ensures w0.Clean(i + yl + 1)
    ensures Val(w0.w[..i + yl + 1]) == old(Val(w0.w[..i + yl])) + xi * Pow(i) * (Val(y.w[..yl]) - Val(y.w[..j0]))
  {
    hide Val, Pow;
    var carry := RowSum(w0, xi, i, y, j0, yl);
    ghost var low := w0.w[..i + yl];
    w0.w[i + yl] := carry;
    assert w0.w[..i + yl + 1] == low + [carry];
    Snoc(low, carry);
  }

  /** The schoolbook double loop. */
  method Schoolbook(x: Big, xl: nat, y: Big, yl: nat, w0: Big)
    requires xl <= x.w.Length && yl <= y.w.Length && xl + yl <= w0.w.Length
    requires w0.w != x.w && w0.w != y.w && w0.Clean(0)
    modifies w0.w
    ensures w0.Clean(xl + yl) && Val(w0.w[..xl + yl]) == Val(x.w[..xl]) * Val(y.w[..yl])
  {
    hide Val, Pow;
    ghost var X := x.w[..xl];
    Empty();
    Zeros(w0.w[..yl]);
    assert y.w[..0] == [] && X[..0] == [];
    for i := 0 to xl
      invariant w0.Clean(i + yl) && Val(w0.w[..i + yl]) == Val(X[..i]) * Val(y.w[..yl])
    {
      Row(w0, x.w[i], i, y, 0, yl);
      Prefix(X, i);
      assert y.w[..0] == [];
      assert (Val(X[..i]) + X[i] * Pow(i)) * Val(y.w[..yl])
        == Val(X[..i]) * Val(y.w[..yl]) + X[i] * Pow(i) * Val(y.w[..yl]);
    }
    assert X[..xl] == X;
  }

  /** The products above the diagonal in the first `i` rows of a square. */
  ghost function OffDiagonal(x: seq<Word>, i: nat): int
    requires i <= |x|
  {
    if i == 0 then 0 else OffDiagonal(x, i - 1) + x[i - 1] * Pow(i - 1) * (Val(x) - Val(x[..i]))
  }

  /** The squares on the diagonal in the first `i` rows. */
  ghost function Diagonal(x: seq<Word>, i: nat): int
    requires i <= |x|
  {
    if i == 0 then 0 else Diagonal(x, i - 1) + x[i - 1] * x[i - 1] * Pow(2 * (i - 1))
  }

  /** Twice the products above the diagonal and the diagonal make the square. */
  lemma {:induction false} SquareSplit(x: seq<Word>, i: nat)
    requires i <= |x|
    ensures 2 * OffDiagonal(x, i) + Diagonal(x, i)
         == Val(x) * Val(x) - (Val(x) - Val(x[..i])) * (Val(x) - Val(x[..i]))
  {
    hide Val, Pow;
    if i == 0 {
      assert x[..0] == [];
      Empty();
    } else {
      SquareSplit(x, i - 1);
      Prefix(x, i - 1);
      PowAdd(i - 1, i - 1);
      SquareStep(Val(x), Val(x[..i - 1]), x[i - 1], Pow(i - 1));
    }
  }

  lemma SquareStep(v: int, a: int, w: int, p: int)
    ensures 2 * (w * p * (v - (a + w * p))) + w * w * (p * p)
         == (v - a) * (v - a) - (v - (a + w * p)) * (v - (a + w * p))
  {
    var t := w * p;
    assert w * w * (p * p) == t * t;
  }

  /** The fast squaring path: off-diagonal rows, doubling in place, then the diagonal. */
  method Squaring(mip: Mip, x: Big, xl: nat, w0: Big)
    requires mip.Valid() && 2 <= xl <= x.w.Length && xl + xl <= w0.w.Length && w0.w != x.w && w0 != x
    requires w0.Clean(0) && !w0.neg && (mip.check ==> xl + xl <= mip.nib)
    modifies mip`ernum, w0, w0.w
    ensures mip.ernum == NoError && w0.Clean(xl + xl)
    ensures Val(w0.w[..xl + xl]) == Val(x.w[..xl]) * Val(x.w[..xl])
  {
    hide Val, Pow;
    ghost var X := x.w[..xl];
    Zeros(w0.w[..xl]);
    for i := 0 to xl - 1
      invariant w0.Clean(i + xl) && Val(w0.w[..i + xl]) == OffDiagonal(X, i)
      invariant !w0.neg && mip.Valid()
    {
      Row(w0, x.w[i], i, x, i + 1, xl);
      assert X[..i + 1] == x.w[..i + 1];
    }
    w0.len := xl + xl - 1;
    WholeSquare(X);
    Padd(mip, w0, w0, w0);
    ghost var D := w0.w[..xl + xl];
    ZeroTail(D, w0.len);
    assert D[..w0.len] == w0.w[..w0.len];
    AddDiagonal(x, xl, w0, D);
  }

  lemma WholeSquare(x: seq<Word>)
    requires x != []
    ensures 2 * OffDiagonal(x, |x| - 1) + Diagonal(x, |x|) == Val(x) * Val(x) < Pow(|x| + |x|)
    ensures Diagonal(x, |x|) >= 0
  {
    hide Val, Pow;
    var n := |x|;
    assert x[..n] == x;
    SquareSplit(x, n);
    TimesZero(Val(x) - Val(x[..n]), Val(x) - Val(x[..n]));
    TimesZero(x[n - 1] * Pow(n - 1), Val(x) - Val(x[..n]));
    DiagonalPositive(x, |x|);
    PowAdd(|x|, |x|);
    SquareBelow(Val(x), Pow(|x|));
  }

  lemma TimesZero(a: int, d: int)
    requires d == 0
    ensures a * d == 0
  {
  }

  lemma SquareBelow(v: int, p: int)
    requires 0 <= v < p
    ensures v * v < p * p
  {
    MulMono(v, p, v);
    MulStep(v, p, p);
  }

  lemma {:induction false} DiagonalPositive(x: seq<Word>, i: nat)
    requires i <= |x|
    ensures Diagonal(x, i) >= 0
  {
    hide Pow;
    if i > 0 {
      DiagonalPositive(x, i - 1);
      var w: int := x[i - 1];
      MulNonNeg(w, w);
      MulNonNeg(w * w, Pow(2 * (i - 1)));
    }
  }

  /** One step of the diagonal: the square of a word, and its high half with the carry into the next word. */
  lemma DiagonalColumn(v: int, carry: int, p: int, s0: int, s1: int, xi: int, lo: int, hi: int, w1: int, c: int)
    requires xi * xi + carry + s0 == lo + hi * B && s1 + hi == w1 + c * B
    ensures (v + lo * p + w1 * (B * p)) + c * (B * (B * p))
         == (v + carry * p) + s0 * p + s1 * (B * p) + xi * xi * p
  {
    assert (xi * xi + carry + s0) * p == (lo + hi * B) * p;
    assert (s1 + hi) * (B * p) == (w1 + c * B) * (B * p);
  }

  method AddDiagonal(x: Big, xl: nat, w0: Big, ghost D: seq<Word>)
    requires xl <= x.w.Length && xl + xl <= w0.w.Length && w0.w != x.w
    requires w0.Clean(xl + xl) && D == w0.w[..xl + xl]
    requires Val(D) + Diagonal(x.w[..xl], xl) < Pow(xl + xl)
    modifies w0.w
    ensures w0.Clean(xl + xl) && Val(w0.w[..xl + xl]) == Val(D) + Diagonal(x.w[..xl], xl)
  {
    hide Val, Pow;
    ghost var X := x.w[..xl];
    Empty();
    assert w0.w[..0] == D[..0] == [];
    var carry := 0;
    for i := 0 to xl
      invariant 0 <= carry < B && w0.Clean(xl + xl)
      invariant forall k | i + i <= k < xl + xl :: w0.w[k] == D[k]
      invariant Val(w0.w[..i + i]) + carry * Pow(i + i) == Val(D[..i + i]) + Diagonal(X, i)
    {
      carry := AddSquare(w0, i + i, x.w[i], carry, D);
      assert Diagonal(X, i + 1) == Diagonal(X, i) + X[i] * X[i] * Pow(i + i);
    }
    assert D[..xl + xl] == D;
    if carry >= 1 { MulMono(1, carry, Pow(xl + xl)); }
  }

  /** Add the square of a word at position `ti`; the carry out of the next word is passed on. */
  method AddSquare(w0: Big, ti: nat, xi: Word, carry: Word, ghost D: seq<Word>) returns (c: Word)
    requires ti + 2 <= |D| <= w0.w.Length && w0.w[ti] == D[ti] && w0.w[ti + 1] == D[ti + 1]
    modifies w0.w
    ensures forall k | 0 <= k < w0.w.Length && k != ti && k != ti + 1 :: w0.w[k] == old(w0.w[k])
    ensures Val(w0.w[..ti + 2]) + c * Pow(ti + 2) - Val(D[..ti + 2])
         == old(Val(w0.w[..ti])) + carry * Pow(ti) - Val(D[..ti]) + xi * xi * Pow(ti)
  {
    hide Val, Pow;
    Halves(xi, xi, carry, w0.w[ti]);
    ghost var low := w0.w[..ti];
    var dble := xi * xi + carry + w0.w[ti];
    w0.w[ti] := dble % B;
    var hi := dble / B;
    w0.w[ti + 1] := (w0.w[ti + 1] + hi) % B;
    c := if w0.w[ti + 1] < hi then 1 else 0;
    ghost var p := Pow(ti);
    assert Val(w0.w[..ti + 2]) == Val(low) + dble % B * p + w0.w[ti + 1] * (B * p) by {
      assert w0.w[..ti + 2] == low + [dble % B] + [w0.w[ti + 1]];
      Snoc(low, dble % B);
      Snoc(low + [dble % B], w0.w[ti + 1]);
      PowStep(ti);
    }
    assert Val(D[..ti + 2]) == Val(D[..ti]) + D[ti] * p + D[ti + 1] * (B * p) by {
      Prefix(D, ti);
      Prefix(D, ti + 1);
      PowStep(ti);
    }
    PowStep(ti);
    PowStep(ti + 1);
    DiagonalColumn(Val(low), carry, Pow(ti), D[ti], D[ti + 1], xi, dble % B, hi, w0.w[ti + 1], c);
  }

  /** multiply: z = x * y, whichever of the operands and the workspace z is. */
  method Multiply(mip: Mip, x: Big, y: Big, z: Big)
    requires mip.Valid() && x.Valid() && y.Valid() && z.Clean(z.len) && mip.w0.Clean(mip.w0.len)
    requires Apart(x, y) && Apart(x, z) && Apart(y, z)
    requires x != mip.w0 && y != mip.w0 && Apart(x, mip.w0) && Apart(y, mip.w0) && Apart(z, mip.w0)
    requires !mip.check || x.len + y.len <= mip.nib ==>
               x.len + y.len <= mip.w0.w.Length && x.len + y.len <= z.w.Length
    modifies mip`ernum, z, z.w, mip.w0, mip.w0.w
    ensures mip.ernum == if old(x.len > 0 && y.len > 0 && mip.check && x.len + y.len > mip.nib) then Overflow else NoError
    ensures mip.ernum == NoError ==> z.Valid() && mip.w0.Clean(mip.w0.len) && z.Value() == old(x.Value() * y.Value())
  {
    hide Val, Pow;
    Empty();
    if y.len == 0 || x.len == 0 {
      z.Zero();
      return;
    }
    var w0 := if x != mip.w5 && y != mip.w5 && z == mip.w5 then z else mip.w0;
    var sz := x.neg != y.neg;
    var xl, yl := x.len, y.len;
    ghost var ax, ay := x.Abs(), y.Abs();
    assert x.Value() * y.Value() == if sz then -(ax * ay) else ax * ay;
    w0.Zero();
    if mip.check && xl + yl > mip.nib {
      mip.ernum := Overflow;
      return;
    }
    Product(mip, x, y, w0, sz);
    Copy(w0, z);
  }

  /** The choice between the two loops, the length and the sign of the result. */
  method Product(mip: Mip, x: Big, y: Big, w0: Big, sz: bool)
    requires mip.Valid() && x.Valid() && y.Valid() && Apart(x, y)
    requires x != w0 && y != w0 && x.w != w0.w && y.w != w0.w
    requires x.len + y.len <= w0.w.Length && w0.Clean(0) && !w0.neg && (mip.check ==> x.len + y.len <= mip.nib)
    modifies mip`ernum, w0, w0.w
    ensures mip.ernum == NoError && w0.Valid() && w0.len <= x.len + y.len
    ensures w0.Value() == if sz then -(x.Abs() * y.Abs()) else x.Abs() * y.Abs()
  {
    hide Val, Pow;
    var xl, yl := x.len, y.len;
    if x == y && xl > SQR_FASTER_THRESHOLD {
      Squaring(mip, x, xl, w0);
    } else {
      Schoolbook(x, xl, y, yl, w0);
    }
    w0.len, w0.neg := xl + yl, sz;
    w0.Lzero();
  }
}
