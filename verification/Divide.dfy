/** mrarth2.c: long division of big numbers. */
module Division {
  import opened Words
  import opened Bigs
  import opened AddSub
  import opened SmallMulDiv

  /** Truncated division: the quotient rounds toward zero and the remainder has the sign of x. */
  function Quotient(x: int, y: int): (q: int)
    requires y != 0
  {
    var q := Magnitude(x) / Magnitude(y);
    if (x < 0) == (y < 0) then q else -q
  }

  function Remainder(x: int, y: int): (r: int)
    requires y != 0
  {
    var r := Magnitude(x) % Magnitude(y);
    if x < 0 then -r else r
  }

  function Magnitude(x: int): (m: int)
    ensures m == x || m == -x
    ensures m >= 0
  {
    if x < 0 then -x else x
  }

  /** The law of truncated division, and that it determines quotient and remainder. */
  lemma TruncatedDivision(x: int, y: int, q: int, r: int)
    requires y != 0
    ensures q == Quotient(x, y) && r == Remainder(x, y)
       <==> x == q * y + r && Magnitude(r) < Magnitude(y) && (r != 0 ==> (r < 0 <==> x < 0))
  {
    var X, Y := Magnitude(x), Magnitude(y);
    var s := if (x < 0) == (y < 0) then q else -q;
    SignedProduct(q, y, s, Y, x < 0);
    if x == q * y + r && Magnitude(r) < Y && (r != 0 ==> (r < 0 <==> x < 0)) {
      DivMod(X, Y, s, Magnitude(r));
    }
  }

  lemma SignedProduct(q: int, y: int, s: int, Y: int, minus: bool)
    requires Y == Magnitude(y) && s == (if minus == (y < 0) then q else -q)
    ensures q * y == if minus then -(s * Y) else s * Y
  {
  }

  /** The quotient digit estimate from the three leading words of the dividend and two of the divisor. */
  method Guess(u2: Word, u1: Word, u0: Word, ldy: Word, sdy: Word) returns (attemp: Word)
    requires 0 < ldy && u2 <= ldy
    ensures attemp * (ldy * B + sdy) <= (u2 * B + u1) * B + u0
    ensures attemp == B - 1 || (attemp + 1) * (ldy * B + sdy) > (u2 * B + u1) * B + u0
  {
    var carry := 0;
    var ra: Word;
    if u2 == ldy {
      attemp := B - 1;
      ra := (ldy + u1) % B;
      if ra < ldy { carry := 1; }
    } else {
      DivideWord(u2, u1, ldy);
      attemp := (u2 * B + u1) / ldy;
      ra := (u2 * B + u1) % ldy;
      Beyond(attemp, ldy, u2 * B + u1, sdy, u0);
    }
    attemp := Refine(u2 * B + u1, u0, ldy, sdy, attemp, ra, carry);
  }

  /** The refine loop: `ra` with `carry` is what the estimate leaves of the two leading words `t`. */
  method Refine(ghost t: int, u0: Word, ldy: Word, sdy: Word, attemp0: Word, ra0: Word, carry0: int) returns (attemp: Word)
    requires 0 < ldy && 0 <= carry0 <= 1 && ra0 + carry0 * B == t - attemp0 * ldy
    requires attemp0 == B - 1 || (attemp0 + 1) * (ldy * B + sdy) > t * B + u0
    ensures attemp * (ldy * B + sdy) <= t * B + u0
    ensures attemp == B - 1 || (attemp + 1) * (ldy * B + sdy) > t * B + u0
  {
    attemp := attemp0;
    var ra: Word, carry: int := ra0, carry0;
    while carry == 0
      invariant 0 <= carry <= 1 && ra + carry * B == t - attemp * ldy
      invariant attemp == B - 1 || (attemp + 1) * (ldy * B + sdy) > t * B + u0
      decreases 1 - carry, attemp
    {
      Expand(attemp, ldy, sdy, t, u0, ra);
      WordProduct(attemp, sdy, 0);
      var dble := attemp * sdy;
      var r, tst := dble % B, dble / B;
      if tst < ra || (tst == ra && r <= u0) {
        return;
      }
      attemp := attemp - 1;
      ra := (ra + ldy) % B;
      if ra < ldy { carry := 1; }
    }
    CarryStops(attemp, sdy, ra, u0);
    Expand(attemp, ldy, sdy, t, u0, ra + B);
  }

  lemma CarryStops(q: Word, sdy: Word, ra: Word, u0: Word)
    ensures q * sdy <= (ra + B) * B + u0
  {
    WordProduct(q, sdy, 0);
  }

  lemma Beyond(q: int, ldy: int, t: int, sdy: int, u0: int)
    requires 0 <= sdy && 0 <= u0 < B && q * ldy <= t < q * ldy + ldy && 0 <= q
    ensures (q + 1) * (ldy * B + sdy) > t * B + u0
  {
    MulNonNeg(q + 1, sdy);
    assert (q + 1) * (ldy * B + sdy) == (q * ldy + ldy) * B + (q + 1) * sdy;
  }

  /** Comparing the second digits decides whether the estimate times both divisor digits exceeds the dividend. */
  lemma Expand(q: int, ldy: int, sdy: int, t: int, u0: int, ra: int)
    requires ra == t - q * ldy
    ensures q * (ldy * B + sdy) > t * B + u0 <==> q * sdy > ra * B + u0
    ensures ra + ldy == t - (q - 1) * ldy
    ensures (q - 1 + 1) * (ldy * B + sdy) == q * (ldy * B + sdy)
  {
    assert q * (ldy * B + sdy) == q * ldy * B + q * sdy;
  }

  /** The estimate is the quotient digit or one more: one step of adding back is enough. */
  lemma GuessIsClose(W: int, Y: int, T: int, V: int, beta: int, A: int)
    requires beta > 0 && 0 <= A < B && 0 <= T
    requires T * beta <= W < (T + 1) * beta && V * beta <= Y < (V + 1) * beta
    requires W < B * Y && B * beta <= Y
    requires A * V <= T && (A == B - 1 || (A + 1) * V > T)
    ensures A * Y - Y < W < A * Y + Y
  {
    GuessNotTooBig(W, Y, T, V, beta, A);
    if A == B - 1 {
      assert A * Y + Y == B * Y;
    } else {
      GuessNotTooSmall(W, Y, T, V, beta, A);
    }
  }

  lemma GuessNotTooBig(W: int, Y: int, T: int, V: int, beta: int, A: int)
    requires beta > 0 && 0 <= A < B
    requires T * beta <= W && Y < (V + 1) * beta && B * beta <= Y && A * V <= T
    ensures A * Y - Y < W
  {
    MulMono(Y, (V + 1) * beta, A);
    assert (V + 1) * beta * A == (A * V) * beta + A * beta;
    MulMono(A * V, T, beta);
    MulStep(A, B, beta);
  }

  lemma GuessNotTooSmall(W: int, Y: int, T: int, V: int, beta: int, A: int)
    requires beta > 0 && 0 <= A
    requires W < (T + 1) * beta && V * beta <= Y && (A + 1) * V > T
    ensures W < A * Y + Y
  {
    MulMono(T + 1, (A + 1) * V, beta);
    assert (A + 1) * V * beta == (V * beta) * (A + 1);
    MulMono(V * beta, Y, A + 1);
    assert Y * (A + 1) == A * Y + Y;
  }

  /** The high half of a product with the borrow, plus a borrow out of the column, still fits a word. */
  lemma BorrowFits(a: Word, y: Word, borrow: Word)
    ensures var t := a * y + borrow;
            0 <= t / B < B && (t / B == B - 1 ==> t % B == 0)
  {
    MulMono(a, B - 1, y);
    MulMono(y, B - 1, B - 1);
    MulMono(0, a, y);
  }

  /** One column of the partial subtraction. */
  method SubtractProduct(w: Word, a: Word, yi: Word, borrow: Word) returns (d: Word, c: Word)
    ensures w - (a * yi + borrow) == d - c * B
  {
    BorrowFits(a, yi, borrow);
    var dble := a * yi + borrow;
    var dig := dble % B;
    c := dble / B;
    if w < dig { c := c + 1; }
    d := (w - dig) % B;
  }

  lemma MulSubColumn(v: int, borrow: int, p: int, wv: int, w: int, a: int, yv: int, yi: int, d: int, c: int)
    requires v - borrow * p == wv - a * yv
    requires w - (a * yi + borrow) == d - c * B
    ensures (v + d * p) - c * (B * p) == (wv + w * p) - a * (yv + yi * p)
  {
    assert (w - (a * yi + borrow)) * p == (d - c * B) * p;
    assert a * (yv + yi * p) == a * yv + a * yi * p;
  }

  /** The partial subtraction: attemp * y is taken from the words m.. of the dividend, leaving a borrow. */
  method MulSub(w0: Big, m: nat, y: Big, y0: nat, attemp: Word) returns (borrow: Word)
    requires y0 <= y.w.Length && m + y0 <= w0.w.Length && w0.w != y.w
    modifies w0.w
    ensures forall k | 0 <= k < w0.w.Length && !(m <= k < m + y0) :: w0.w[k] == old(w0.w[k])
    ensures Val(w0.w[m..m + y0]) - borrow * Pow(y0) == old(Val(w0.w[m..m + y0])) - attemp * Val(y.w[..y0])
  {
    hide Val, Pow;
    Empty();
    ghost var S, Y := w0.w[m..m + y0], y.w[..y0];
    borrow := 0;
    assert w0.w[m..m + 0] == S[..0] == Y[..0] == [];
    for i := 0 to y0
      invariant forall k | 0 <= k < w0.w.Length && !(m <= k < m + i) :: w0.w[k] == old(w0.w[k])
      invariant Val(w0.w[m..m + i]) - borrow * Pow(i) == Val(S[..i]) - attemp * Val(Y[..i])
    {
      borrow := MulSubWord(w0, m, i, y.w[i], attemp, borrow, S, Y);
    }
    assert S[..y0] == S && Y[..y0] == Y;
  }

  method MulSubWord(w0: Big, m: nat, i: nat, yi: Word, attemp: Word, borrow: Word, ghost S: seq<Word>, ghost Y: seq<Word>)
    returns (c: Word)
    requires i < |S| == |Y| && m + i < w0.w.Length && w0.w[m + i] == S[i] && yi == Y[i]
    requires Val(w0.w[m..m + i]) - borrow * Pow(i) == Val(S[..i]) - attemp * Val(Y[..i])
    modifies w0.w
    ensures forall k | 0 <= k < w0.w.Length && k != m + i :: w0.w[k] == old(w0.w[k])
    ensures Val(w0.w[m..m + i + 1]) - c * Pow(i + 1) == Val(S[..i + 1]) - attemp * Val(Y[..i + 1])
  {
    hide Val, Pow;
    ghost var low := w0.w[m..m + i];
    var d;
    d, c := SubtractProduct(w0.w[m + i], attemp, yi, borrow);
    w0.w[m + i] := d;
    assert w0.w[m..m + i + 1] == low + [d];
    Snoc(low, d);
    Prefix(S, i);
    Prefix(Y, i);
    PowStep(i);
    MulSubColumn(Val(low), borrow, Pow(i), Val(S[..i]), S[i], attemp, Val(Y[..i]), yi, d, c);
  }

  /** The compensation when the estimate was one too big: y is added back and the last carry dropped. */
  method AddBack(w0: Big, m: nat, y: Big, y0: nat) returns (ghost carry: int)
    requires y0 <= y.w.Length && m + y0 <= w0.w.Length && w0.w != y.w
    modifies w0.w
    ensures forall k | 0 <= k < w0.w.Length && !(m <= k < m + y0) :: w0.w[k] == old(w0.w[k])
    ensures 0 <= carry <= 1
    ensures Val(w0.w[m..m + y0]) + carry * Pow(y0) == old(Val(w0.w[m..m + y0])) + Val(y.w[..y0])
  {
    hide Val, Pow;
    Empty();
    ghost var S, Y := w0.w[m..m + y0], y.w[..y0];
    var c := 0;
    assert w0.w[m..m + 0] == S[..0] == Y[..0] == [];
    for i := 0 to y0
      invariant 0 <= c <= 1
      invariant forall k | 0 <= k < w0.w.Length && !(m <= k < m + i) :: w0.w[k] == old(w0.w[k])
      invariant Val(w0.w[m..m + i]) + c * Pow(i) == Val(Y[..i]) + Val(S[..i])
    {
      ghost var low, c0 := w0.w[m..m + i], c;
      CarryRule(y.w[i], w0.w[m + i], c);
      var psum := (w0.w[m + i] + y.w[i] + c) % B;
      c := NextCarry(psum, y.w[i], c);
      w0.w[m + i] := psum;
      assert w0.w[m..m + i + 1] == low + [psum];
      Snoc(low, psum);
      Prefix(S, i);
      Prefix(Y, i);
      PowStep(i);
      AddColumn(Val(low), Val(Y[..i]), Val(S[..i]), Y[i], S[i], c0, Pow(i), psum, c);
    }
    assert S[..y0] == S && Y[..y0] == Y;
    carry := c;
  }

  /** The two top words of a divisor, and the three top words of a window, as Guess sees them. */
  lemma TopTwo(s: seq<Word>)
    requires |s| >= 2
    ensures var V := s[|s| - 1] * B + s[|s| - 2];
            V * Pow(|s| - 2) <= Val(s) < (V + 1) * Pow(|s| - 2)
  {
    hide Val, Pow;
    var n := |s|;
    Prefix(s, n - 1);
    Prefix(s, n - 2);
    assert s[..n] == s;
    PowStep(n - 2);
    Gather(Val(s[..n - 2]), s[n - 2], s[n - 1], Pow(n - 2));
  }

  lemma TopThree(s: seq<Word>)
    requires |s| >= 3
    ensures var T := (s[|s| - 1] * B + s[|s| - 2]) * B + s[|s| - 3];
            T * Pow(|s| - 3) <= Val(s) < (T + 1) * Pow(|s| - 3)
  {
    hide Val, Pow;
    var n := |s|;
    Prefix(s, n - 1);
    Prefix(s, n - 2);
    Prefix(s, n - 3);
    assert s[..n] == s;
    PowStep(n - 3);
    PowStep(n - 2);
    var t: int := s[n - 1] * B + s[n - 2];
    assert Val(s) == Val(s[..n - 3]) + s[n - 3] * Pow(n - 3) + t * (B * Pow(n - 3));
    Gather(Val(s[..n - 3]), s[n - 3], t, Pow(n - 3));
  }

  lemma Gather(v: int, w: int, t: int, p: int)
    requires 0 <= v < p
    ensures (t * B + w) * p <= v + w * p + t * (B * p) < (t * B + w + 1) * p
  {
  }

  /** A window below B * y has a top word no bigger than that of y. */
  lemma TopBound(w: seq<Word>, y: seq<Word>)
    requires |y| >= 1 && |w| == |y| + 1 && Val(w) < B * Val(y)
    ensures w[|w| - 1] <= y[|y| - 1]
  {
    hide Val, Pow;
    var n := |y|;
    assert y == y[..n - 1] + [y[n - 1]] && w == w[..n] + [w[n]];
    Snoc(y[..n - 1], y[n - 1]);
    Snoc(w[..n], w[n]);
    PowStep(n - 1);
    TopCompare(Val(w), w[n], Val(y), y[n - 1], Pow(n - 1));
  }

  lemma TopCompare(wv: int, wt: int, yv: int, yt: int, p: int)
    requires wt * (B * p) <= wv < B * yv && yv < yt * p + p && 0 < p
    ensures wt <= yt
  {
    assert (yt + 1) * (B * p) == B * (yt * p + p);
    if wt > yt { MulMono(yt + 1, wt, B * p); }
  }

  /** One quotient digit: the window of y0 + 1 words at m is replaced by its remainder modulo y. */
  method Digit(w0: Big, m: nat, y: Big, y0: nat) returns (attemp: Word)
    requires 2 <= y0 <= y.w.Length && m + y0 < w0.w.Length && w0.w != y.w && y.w[y0 - 1] > 0
    requires Val(w0.w[m..m + y0 + 1]) < B * Val(y.w[..y0])
    modifies w0.w
    ensures forall k | 0 <= k < w0.w.Length && !(m <= k <= m + y0) :: w0.w[k] == old(w0.w[k])
    ensures w0.w[m + y0] == 0 && Val(w0.w[m..m + y0]) < Val(y.w[..y0])
    ensures old(Val(w0.w[m..m + y0 + 1])) == attemp * Val(y.w[..y0]) + Val(w0.w[m..m + y0])
  {
    hide Val, Pow;
    ghost var W, Y := w0.w[m..m + y0 + 1], y.w[..y0];
    ghost var wv, yv := Val(W), Val(Y);
    var k := m + y0 - 1;
    TopBound(W, Y);
    attemp := Guess(w0.w[k + 1], w0.w[k], w0.w[k - 1], y.w[y0 - 1], y.w[y0 - 2]);
    assert attemp * yv - yv < wv < attemp * yv + yv by {
      TopTwo(Y);
      TopThree(W);
      Leading(Y);
      PowStep(y0 - 2);
      GuessIsClose(wv, yv, (W[y0] * B + W[y0 - 1]) * B + W[y0 - 2], Y[y0 - 1] * B + Y[y0 - 2], Pow(y0 - 2), attemp);
    }
    attemp := Reduce(w0, m, y, y0, attemp);
  }

  /** The partial subtraction of a close estimate, and its correction when it was one too big. */
  method Reduce(w0: Big, m: nat, y: Big, y0: nat, guess: Word) returns (attemp: Word)
    requires 1 <= y0 <= y.w.Length && m + y0 < w0.w.Length && w0.w != y.w
    requires guess * Val(y.w[..y0]) - Val(y.w[..y0]) < Val(w0.w[m..m + y0 + 1]) < guess * Val(y.w[..y0]) + Val(y.w[..y0])
    modifies w0.w
    ensures forall k | 0 <= k < w0.w.Length && !(m <= k <= m + y0) :: w0.w[k] == old(w0.w[k])
    ensures w0.w[m + y0] == 0 && Val(w0.w[m..m + y0]) < Val(y.w[..y0])
    ensures old(Val(w0.w[m..m + y0 + 1])) == attemp * Val(y.w[..y0]) + Val(w0.w[m..m + y0])
  {
    hide Val, Pow;
    ghost var wv, yv := Val(w0.w[m..m + y0 + 1]), Val(y.w[..y0]);
    ghost var low := w0.w[m..m + y0];
    attemp := guess;
    assert w0.w[m..m + y0 + 1] == low + [w0.w[m + y0]];
    Snoc(low, w0.w[m + y0]);
    if attemp > 0 {
      var borrow := MulSub(w0, m, y, y0, attemp);
      ghost var top := w0.w[m + y0] as int - borrow;
      ghost var left := Val(w0.w[m..m + y0]);
      BorrowTop(wv, Val(low), w0.w[m + y0], borrow, Pow(y0), left, attemp * yv);
      if w0.w[m + y0] < borrow {
        w0.w[m + y0] := 0;
        assert left == Val(w0.w[m..m + y0]);
        ghost var carry := AddBack(w0, m, y, y0);
        OneTooBig(wv, attemp, yv, left, top, Pow(y0), carry, Val(w0.w[m..m + y0]));
        attemp := attemp - 1;
      } else {
        NotTooBig(wv - attemp * yv, left, top, Pow(y0), yv);
        w0.w[m + y0] := w0.w[m + y0] - borrow;
        assert left == Val(w0.w[m..m + y0]);
      }
    } else {
      NotTooBig(wv, Val(low), w0.w[m + y0], Pow(y0), yv);
    }
  }

  lemma BorrowTop(wv: int, low: int, top: int, borrow: int, p: int, left: int, ay: int)
    requires wv == low + top * p && left - borrow * p == low - ay
    ensures wv - ay == left + (top - borrow) * p
  {
  }

  lemma NotTooBig(r: int, left: int, top: int, p: int, yv: int)
    requires r == left + top * p && 0 <= left < p && top >= 0 && r < yv < p
    ensures top == 0 && r == left
  {
    if top > 0 { MulMono(1, top, p); }
  }

  lemma OneTooBig(wv: int, a: int, yv: int, left: int, top: int, p: int, carry: int, fixed: int)
    requires wv - a * yv == left + top * p && top < 0 && 0 <= left < p && 0 <= yv < p
    requires a * yv - yv < wv
    requires 0 <= carry <= 1 && fixed + carry * p == left + yv && 0 <= fixed < p
    ensures wv == (a - 1) * yv + fixed && fixed < yv
  {
    assert (a - 1) * yv == a * yv - yv;
    if top < -1 { MulMono(top, -2, p); }
  }

  /** normalise: scale the divisor so that its top word is large; it keeps its length. */
  method Normalise(mip: Mip, y: Big) returns (norm: Word)
    requires mip.Valid() && y.Valid() && y.len > 0 && !y.neg
    modifies mip`ernum, y, y.w
    ensures mip.ernum == NoError && norm >= 1
    ensures y.Valid() && !y.neg && y.len == old(y.len) && y.Abs() == old(y.Abs()) * norm
  {
    hide Val, Pow;
    var len := y.len;
    var r := (y.w[len - 1] + 1) % B;
    norm := if r == 0 then 1 else B / r;
    assert (y.w[len - 1] + 1) * norm <= B;
    assert y.w[..len] == y.w[..len - 1] + [y.w[len - 1]];
    Snoc(y.w[..len - 1], y.w[len - 1]);
    PowStep(len - 1);
    ScaleFits(y.Abs(), y.w[len - 1], Pow(len - 1), norm);
    if norm != 1 { Pmul(mip, y, norm, y); }
  }

  lemma ScaleFits(v: int, top: int, p: int, norm: int)
    requires 0 <= v < top * p + p && (top + 1) * norm <= B && norm >= 1 && p >= 1
    ensures v * norm < B * p
  {
    MulStep(v, (top + 1) * p, norm);
    assert (top + 1) * p * norm == (top + 1) * norm * p;
    MulMono((top + 1) * norm, B, p);
  }

  lemma WindowBelow(w: int, r: int, yv: int)
    requires 0 <= w < B && r < yv
    ensures w + B * r < B * yv
  {
  }

  /** One step of long division on values: bring down a word, take off the digit. */
  lemma Horner(yv: int, d: int, r: int, w: int, q: int, r': int)
    requires w + B * r == q * yv + r'
    ensures w + B * (yv * d + r) == yv * (q + B * d) + r'
  {
  }

  /**
   * Between two digits of a long division: the words of the dividend `xs` below m are untouched, and what is
   * left of the words above is their remainder modulo y, the digits so far being their quotient.
   */
  ghost predicate Running(w0: Big, m: nat, y: Big, y0: nat, xs: seq<Word>, digits: seq<Word>)
    requires m <= |xs| && m + y0 <= w0.w.Length && y0 <= y.w.Length
    reads w0.w, y.w
  {
    && w0.w[..m] == xs[..m] && w0.Clean(m + y0)
    && Val(w0.w[m..m + y0]) < Val(y.w[..y0])
    && Val(xs[m..]) == Val(y.w[..y0]) * Val(digits) + Val(w0.w[m..m + y0])
  }

  method NextDigit(w0: Big, m: nat, y: Big, y0: nat, ghost xs: seq<Word>, ghost digits: seq<Word>) returns (attemp: Word)
    requires 2 <= y0 <= y.w.Length && m < |xs| && m + y0 < w0.w.Length && w0.w != y.w && y.w[y0 - 1] > 0
    requires Running(w0, m + 1, y, y0, xs, digits)
    modifies w0.w
    ensures Running(w0, m, y, y0, xs, [attemp] + digits)
  {
    hide Val, Pow;
    ghost var yv, high := Val(y.w[..y0]), w0.w[m + 1..m + 1 + y0];
    assert w0.w[m] == w0.w[..m + 1][m] == xs[..m + 1][m];
    assert xs[..m] == xs[..m + 1][..m] == w0.w[..m + 1][..m] == w0.w[..m];
    assert w0.w[m..m + y0 + 1] == [xs[m]] + high;
    assert xs[m..] == [xs[m]] + xs[m + 1..];
    Cons(xs[m], high);
    Cons(xs[m], xs[m + 1..]);
    WindowBelow(xs[m], Val(high), yv);
    attemp := Digit(w0, m, y, y0);
    Horner(yv, Val(digits), Val(high), xs[m], attemp, Val(w0.w[m..m + y0]));
    Cons(attemp, digits);
  }

  /** The quotient words m..n are the digits; below m it is still zero. */
  ghost predicate Stored(z: Big, m: nat, n: nat, digits: seq<Word>)
    requires m <= n
    reads z.w
  {
    z.Clean(n) && z.w[m..n] == digits && forall k | 0 <= k < m :: z.w[k] == 0
  }

  /** The words of the quotient left out of its length `top` are zero. */
  ghost predicate LeadingZeros(digits: seq<Word>, m: nat, top: int) {
    forall i | 0 <= i < |digits| && top - m <= i :: digits[i] == 0
  }

  /** A leading zero digit shortens the quotient; any other digit is stored. */
  method StoreDigit(z: Big, store: bool, m: nat, ghost n: nat, attemp: Word, leading: bool, ghost digits: seq<Word>, ghost top: int)
    returns (drop: bool)
    requires m < n && |digits| == n - m - 1 && leading == (top == m + 1) && m + 1 <= top <= n
    requires LeadingZeros(digits, m + 1, top)
    requires store ==> n <= z.w.Length && Stored(z, m + 1, n, digits)
    modifies if store then {z.w} else {}
    ensures LeadingZeros([attemp] + digits, m, if drop then top - 1 else top) && (drop ==> leading)
    ensures store ==> Stored(z, m, n, [attemp] + digits)
  {
    drop := leading && attemp == 0;
    ghost var zs := if store then z.w[m + 1..n] else [];
    if !drop && store { z.w[m] := attemp; }
    if store { assert z.w[m..n] == [z.w[m]] + zs; }
  }

  /** The main loop: quotient digits from the top, the dividend replaced by the remainder. */
  method LongDivision(w0: Big, w00: nat, y: Big, y0: nat, z: Big, store: bool) returns (wn: nat, ghost q: int)
    requires 2 <= y0 <= w00 && y0 <= y.w.Length && y.w[y0 - 1] > 0
    requires w00 < w0.w.Length && w0.Clean(w00 + 1) && w0.w != y.w
    requires Val(w0.w[w00 - y0 + 1..w00 + 1]) < Val(y.w[..y0])
    requires store ==> z.Clean(0) && w00 - y0 + 1 <= z.w.Length && z.w != y.w && z.w != w0.w
    modifies w0.w, if store then {z.w} else {}
    ensures w0.Clean(y0) && Val(w0.w[..y0]) < Val(y.w[..y0])
    ensures old(Val(w0.w[..w00 + 1])) == q * Val(y.w[..y0]) + Val(w0.w[..y0])
    ensures y0 - 1 <= wn <= w00
    ensures store ==> z.Clean(wn - y0 + 1) && Val(z.w[..wn - y0 + 1]) == q
  {
    hide Val, Pow, Running, LeadingZeros, Stored;
    ghost var xs, n := w0.w[..w00 + 1], w00 - y0 + 1;
    ghost var digits: seq<Word> := [];
    wn := w00;
    var m := w00 - y0 + 1;
    RunningStart(w0, n, y, y0, xs);
    NothingStored(z, store, n);
    while m > 0
      invariant 0 <= m <= n && m <= wn - y0 + 1 <= n && |digits| == n - m
      invariant Running(w0, m, y, y0, xs, digits)
      invariant LeadingZeros(digits, m, wn - y0 + 1)
      invariant store ==> Stored(z, m, n, digits)
    {
      m := m - 1;
      var attemp := NextDigit(w0, m, y, y0, xs, digits);
      var drop := StoreDigit(z, store, m, n, attemp, m + y0 - 1 == wn - 1, digits, wn - y0 + 1);
      digits := [attemp] + digits;
      if drop { wn := wn - 1; }
    }
    RunningEnd(w0, y, y0, xs, digits);
    q := Val(digits);
    if store { AllStored(z, n, digits, wn - y0 + 1); }
  }

  lemma RunningStart(w0: Big, n: nat, y: Big, y0: nat, xs: seq<Word>)
    requires n + y0 <= w0.w.Length && y0 <= y.w.Length && xs == w0.w[..n + y0] && w0.Clean(n + y0)
    requires Val(w0.w[n..n + y0]) < Val(y.w[..y0])
    ensures Running(w0, n, y, y0, xs, [])
  {
    hide Val, Pow;
    Empty();
    assert xs[n..] == w0.w[n..n + y0];
  }

  lemma RunningEnd(w0: Big, y: Big, y0: nat, xs: seq<Word>, digits: seq<Word>)
    requires y0 <= w0.w.Length && y0 <= y.w.Length && Running(w0, 0, y, y0, xs, digits)
    ensures w0.Clean(y0) && Val(w0.w[..y0]) < Val(y.w[..y0])
    ensures Val(xs) == Val(digits) * Val(y.w[..y0]) + Val(w0.w[..y0])
  {
    hide Val, Pow;
    var d, q := Val(y.w[..y0]), Val(digits);
    assert xs[0..] == xs && w0.w[0..y0] == w0.w[..y0];
    assert d * q == q * d;
  }

  lemma NothingStored(z: Big, store: bool, n: nat)
    requires store ==> n <= z.w.Length && z.Clean(0)
    ensures LeadingZeros([], n, n) && (store ==> Stored(z, n, n, []))
  {
  }

  lemma AllStored(z: Big, n: nat, digits: seq<Word>, top: nat)
    requires |digits| == n <= z.w.Length && top <= n && Stored(z, 0, n, digits) && LeadingZeros(digits, 0, top)
    ensures z.Clean(top) && Val(z.w[..top]) == Val(digits)
  {
    hide Val, Pow;
    assert z.w[0..n] == z.w[..n] && z.w[..n][..top] == z.w[..top];
    ZeroTail(digits, top);
  }

  /** Scaling both operands keeps the quotient, and divides evenly out of the remainder. */
  lemma Unscale(x: int, y: int, d: int, q: int, r: int)
    requires d >= 1 && y > 0 && x * d == q * (y * d) + r && 0 <= r < y * d
    ensures q == x / y && r / d == x % y && r % d == 0 && (y * d) / d == y
  {
    var e := x - q * y;
    assert r == e * d by { assert q * (y * d) == (q * y) * d; }
    if e >= y { MulMono(y, e, d); }
    if e <= -1 { MulMono(e, -1, d); }
    DivMod(r, d, e, 0);
    DivMod(x, y, q, e);
    DivMod(y * d, d, y, 0);
  }

  /** After scaling, the words of the dividend at and above w00 - y0 + 1 are below the divisor. */
  lemma FirstWindow(s: seq<Word>, w00: nat, y0: nat, x: int, y: int, d: int)
    requires |s| == w00 + 1 && 1 <= y0 <= w00 && d >= 1
    requires Val(s) == x * d && 0 <= x < Pow(w00) && y >= Pow(y0 - 1)
    ensures Val(s[w00 - y0 + 1..]) < y * d
  {
    hide Val, Pow;
    var m := w00 - y0 + 1;
    assert s == s[..m] + s[m..];
    Append(s[..m], s[m..]);
    PowAdd(m, y0 - 1);
    WindowScaled(x, d, Val(s[m..]), Pow(m), Pow(y0 - 1), y);
  }

  lemma WindowScaled(x: int, d: int, v: int, p: int, q: int, y: int)
    requires p * v <= x * d && x < p * q && d >= 1 && p >= 1 && q <= y
    ensures v < y * d
  {
    assert (p * q) * d == (q * d) * p;
    MulStep(x, p * q, d);
    MulMono(q, y, d);
    if v >= y * d { MulMono(q * d, v, p); }
  }

  /** The words the routine reads and writes all have room. */
  ghost predicate DivideRoom(mip: Mip, x: Big, y: Big, z: Big)
    reads mip, x, y
  {
    && x.len < mip.w0.w.Length
    && (z != y ==> 1 <= z.w.Length && x.len - y.len + 1 <= z.w.Length)
    && (z != x ==> 1 <= x.w.Length)
  }

  ghost predicate DivideShape(mip: Mip, x: Big, y: Big, z: Big) {
    var w0 := mip.w0;
    && Apart(x, y) && Apart(x, z) && Apart(y, z) && Apart(x, w0) && Apart(y, w0) && Apart(z, w0)
    && y != w0 && z != w0
  }

  /** Both operands are scaled so that the divisor is normalised; the quotient starts as zero. */
  method Scale(mip: Mip, y: Big) returns (d: Word)
    requires mip.Valid() && !mip.check && y != mip.w0 && Apart(y, mip.w0)
    requires mip.w0.Valid() && y.Valid() && !mip.w0.neg && !y.neg
    requires 2 <= y.len <= mip.w0.len < mip.w0.w.Length
    modifies mip`ernum, y, y.w, mip.w0, mip.w0.w
    ensures mip.ernum == NoError && d >= 1
    ensures y.Valid() && !y.neg && y.len == old(y.len) && y.Abs() == old(y.Abs()) * d
    ensures mip.w0.Clean(old(mip.w0.len) + 1) && !mip.w0.neg
    ensures Val(mip.w0.w[..old(mip.w0.len) + 1]) == old(mip.w0.Abs()) * d
    ensures Val(mip.w0.w[old(mip.w0.len) - y.len + 1..old(mip.w0.len) + 1]) < y.Abs()
  {
    hide Val, Pow;
    var w0 := mip.w0;
    var y0, w00 := y.len, w0.len;
    ghost var xv, yv := w0.Abs(), y.Abs();
    Leading(y.w[..y0]);
    d := Normalise(mip, y);
    if d != 1 { Pmul(mip, w0, d, w0); }
    ghost var s := w0.w[..w00 + 1];
    ZeroTail(s, w0.len);
    assert s[..w0.len] == w0.w[..w0.len];
    FirstWindow(s, w00, y0, xv, yv, d);
    assert s[w00 - y0 + 1..] == w0.w[w00 - y0 + 1..w00 + 1];
  }

  /** The remainder goes to x and both it and the divisor are scaled back. */
  method Unscaled(mip: Mip, x: Big, y: Big, d: Word, sx: bool, keep: bool)
    requires d >= 1 && y != mip.w0 && x != y && Apart(x, y) && Apart(x, mip.w0) && Apart(y, mip.w0)
    requires mip.w0.Clean(mip.w0.len) && !mip.w0.neg && y.Valid() && !y.neg && (x != mip.w0 ==> x.Valid())
    requires keep ==> mip.w0.len <= x.w.Length
    modifies if keep then {x, x.w} else {}, y, y.w, mip.w0
    ensures mip.w0.Clean(mip.w0.len)
    ensures y.Valid() && !y.neg && y.Abs() == old(y.Abs()) / d
    ensures keep ==> x.Valid() && x.Value() == Signed(sx, old(mip.w0.Abs()) / d)
  {
    hide Val, Pow;
    var w0 := mip.w0;
    if keep {
      w0.Lzero();
      if d != 1 {
        var _ := Sdiv(w0, d, x);
      } else {
        Copy(w0, x);
      }
      if x.len != 0 { x.neg := sx; }
      Empty();
    }
    if d != 1 { var _ := Sdiv(y, d, y); }
  }

  /** The quotient goes to z, unless z is the divisor. */
  method QuotientDigits(mip: Mip, w00: nat, y: Big, z: Big, sz: bool) returns (ghost q: int)
    requires DivideShape(mip, y, y, z) && y.Valid() && y.len >= 2 && y.len <= w00 < mip.w0.w.Length
    requires mip.w0.Clean(w00 + 1) && Val(mip.w0.w[w00 - y.len + 1..w00 + 1]) < y.Abs()
    requires z != y ==> z.Clean(0) && w00 - y.len + 1 <= z.w.Length
    modifies mip.w0, mip.w0.w, if z != y then {z, z.w} else {}
    ensures mip.w0.len == y.len && mip.w0.Clean(mip.w0.len) && mip.w0.neg == old(mip.w0.neg)
    ensures mip.w0.Abs() < y.Abs() && old(Val(mip.w0.w[..w00 + 1])) == q * y.Abs() + mip.w0.Abs()
    ensures z != y ==> z.Valid() && z.Value() == Signed(sz, q)
  {
    hide Val, Pow;
    var wn;
    wn, q := LongDivision(mip.w0, w00, y, y.len, z, y != z);
    if y != z {
      z.len, z.neg := wn - y.len + 1, sz;
      z.Lzero();
    }
    mip.w0.len := y.len;
  }

  /** The quotient and the scaled remainder and divisor. */
  method ScaledDivision(mip: Mip, y: Big, z: Big, sz: bool) returns (d: Word)
    requires mip.Valid() && !mip.check && DivideShape(mip, y, y, z)
    requires mip.w0.Valid() && y.Valid() && !mip.w0.neg && !y.neg && 2 <= y.len <= mip.w0.len < mip.w0.w.Length
    requires z != y ==> z.Clean(0) && mip.w0.len - y.len + 1 <= z.w.Length
    modifies mip`ernum, y, y.w, z, z.w, mip.w0, mip.w0.w
    ensures mip.ernum == NoError && d >= 1 && mip.w0.Clean(mip.w0.len) && !mip.w0.neg && mip.w0.len == y.len == old(y.len)
    ensures y.Valid() && !y.neg && y.Abs() / d == old(y.Abs()) > 0
    ensures mip.w0.Abs() / d == old(mip.w0.Abs()) % old(y.Abs())
    ensures y != z ==> z.Valid() && z.Value() == Signed(sz, old(mip.w0.Abs()) / old(y.Abs()))
  {
    hide Val, Pow;
    ghost var xv, yv := mip.w0.Abs(), y.Abs();
    var n := mip.w0.len;
    NonZero(y);
    d := Scale(mip, y);
    ghost var q := QuotientDigits(mip, n, y, z, sz);
    Unscale(xv, yv, d, q, mip.w0.Abs());
  }

  /** Divisors of two words and more, once w0 holds |x| and the operands are held positive. */
  method DivideLong(mip: Mip, x: Big, y: Big, z: Big, sx: bool, sz: bool)
    requires mip.Valid() && !mip.check && DivideShape(mip, x, y, z) && x != y
    requires mip.w0.Valid() && x.Valid() && y.Valid() && z.Valid()
    requires !mip.w0.neg && !y.neg && y.len >= 2 && mip.w0.Abs() >= y.Abs()
    requires mip.w0.len < mip.w0.w.Length && mip.w0.len <= x.w.Length
    requires z != y ==> mip.w0.len - y.len + 1 <= z.w.Length
    modifies mip`ernum, x, x.w, y, y.w, z, z.w, mip.w0, mip.w0.w
    ensures mip.ernum == NoError && mip.w0.Clean(mip.w0.len)
    ensures y.Valid() && !y.neg && y.Abs() == old(y.Abs()) && old(y.Abs()) > 0
    ensures x != z ==> x.Valid() && x.Value() == Signed(sx, old(mip.w0.Abs()) % old(y.Abs()))
    ensures y != z ==> z.Valid() && z.Value() == Signed(sz, old(mip.w0.Abs()) / old(y.Abs()))
  {
    hide Val, Pow;
    ghost var w00, xv, yv := mip.w0.len, mip.w0.Abs(), y.Abs();
    var n := mip.w0.len;
    NonZero(y);
    if n < y.len { Longer(y.w[..y.len], mip.w0.w[..n]); }
    if y != z { z.Zero(); }
    assert mip.w0.Abs() == xv && mip.w0.Valid() && y.Valid() && y.Abs() == yv;
    var d := ScaledDivision(mip, y, z, sz);
    Unscaled(mip, x, y, d, sx, x != z);
  }

  /** The overflow check is off while the operands are scaled. */
  method DivideUnchecked(mip: Mip, x: Big, y: Big, z: Big, sx: bool, sy: bool, sz: bool)
    requires mip.Valid() && DivideShape(mip, x, y, z) && x != y
    requires mip.w0.Valid() && x.Valid() && y.Valid() && z.Valid()
    requires !mip.w0.neg && !y.neg && y.len >= 2 && mip.w0.Abs() >= y.Abs()
    requires mip.w0.len < mip.w0.w.Length && mip.w0.len <= x.w.Length
    requires z != y ==> mip.w0.len - y.len + 1 <= z.w.Length
    modifies mip, x, x.w, y, y.w, z, z.w, mip.w0, mip.w0.w
    ensures mip.ernum == NoError && mip.w0.Clean(mip.w0.len) && mip.check == old(mip.check)
    ensures y.Valid() && y.Value() == Signed(sy, old(y.Abs())) && old(y.Abs()) > 0
    ensures x != z ==> x.Valid() && x.Value() == Signed(sx, old(mip.w0.Abs()) % old(y.Abs()))
    ensures y != z ==> z.Valid() && z.Value() == Signed(sz, old(mip.w0.Abs()) / old(y.Abs()))
  {
    hide Val, Pow;
    var check := mip.check;
    mip.check := false;
    DivideLong(mip, x, y, z, sx, sz);
    mip.check := check;
    NonZero(y);
    y.neg := sy;
  }

  lemma Single(s: seq<Word>)
    requires |s| == 1
    ensures Val(s) == s[0]
  {
    Cons(s[0], []);
    assert [s[0]] + [] == s;
  }

  /** Operands of the same length: a word division, or a few subtractions when the quotient will be small. */
  method FewSubtractions(mip: Mip, y: Big) returns (d: Word)
    requires mip.Valid() && y != mip.w0 && Apart(y, mip.w0)
    requires mip.w0.Valid() && y.Valid() && !mip.w0.neg && !y.neg && y.len > 0
    modifies mip`ernum, mip.w0, mip.w0.w
    ensures mip.ernum == NoError && mip.w0.Valid() && !mip.w0.neg && mip.w0.len <= old(mip.w0.len)
    ensures old(mip.w0.Abs()) == d * y.Abs() + mip.w0.Abs()
    ensures d > 0 ==> mip.w0.Abs() < y.Abs()
  {
    hide Val, Pow;
    var w0 := mip.w0;
    ghost var xv, yv := w0.Abs(), y.Abs();
    NonZero(y);
    var x0 := w0.len;
    d := 0;
    if x0 != y.len { return; }
    if x0 == 1 {
      d := WordByWord(w0, y);
    } else if w0.w[x0 - 1] / 4 < y.w[x0 - 1] {
      d := Subtractions(mip, y);
    }
  }

  method WordByWord(w0: Big, y: Big) returns (d: Word)
    requires y.w != w0.w && w0.Valid() && y.Valid() && !w0.neg && w0.len == y.len == 1
    modifies w0, w0.w
    ensures w0.Valid() && !w0.neg && w0.len <= 1
    ensures old(w0.Abs()) == d * y.Abs() + w0.Abs() && w0.Abs() < y.Abs()
  {
    hide Val, Pow;
    Single(w0.w[..1]);
    Single(y.w[..1]);
    d := w0.w[0] / y.w[0];
    w0.w[0] := w0.w[0] % y.w[0];
    Single(w0.w[..1]);
    w0.Lzero();
  }

  method Subtractions(mip: Mip, y: Big) returns (d: Word)
    requires mip.Valid() && y != mip.w0 && Apart(y, mip.w0)
    requires mip.w0.Valid() && y.Valid() && !mip.w0.neg && !y.neg && y.len == mip.w0.len > 0
    modifies mip`ernum, mip.w0, mip.w0.w
    ensures mip.ernum == NoError && mip.w0.Valid() && !mip.w0.neg && mip.w0.len <= old(mip.w0.len)
    ensures old(mip.w0.Abs()) == d * y.Abs() + mip.w0.Abs() && mip.w0.Abs() < y.Abs()
  {
    hide Val, Pow;
    var w0 := mip.w0;
    ghost var xv, yv, x0 := w0.Abs(), y.Abs(), w0.len;
    Leading(y.w[..x0]);
    PowStep(x0 - 1);
    d := 0;
    var more := Compare(w0, y);
    while more >= 0
      invariant w0.Valid() && !w0.neg && w0.len <= x0 && mip.Valid()
      invariant xv == d * yv + w0.Abs()
      invariant more >= 0 <==> w0.Abs() >= yv
      decreases w0.Abs()
    {
      FitsWord(d, yv, w0.Abs(), xv, Pow(x0 - 1));
      Psub(mip, w0, y, w0);
      d := d + 1;
      more := Compare(w0, y);
    }
  }

  lemma FitsWord(n: int, yv: int, left: int, xv: int, p: int)
    requires xv == n * yv + left && left >= yv >= p > 0 && xv < B * p && n >= 0
    ensures n + 1 < B && xv == (n + 1) * yv + (left - yv)
  {
    assert (n + 1) * yv == n * yv + yv;
    MulMono(p, yv, n + 1);
    if n + 1 >= B { MulMono(B, n + 1, p); }
  }

  /** A number of at most one word. */
  method SetWord(z: Big, v: Word, neg: bool)
    requires z.Valid() && z.w.Length >= 1
    modifies z, z.w
    ensures z.Valid() && z.Value() == Signed(neg, v)
  {
    hide Val, Pow;
    Empty();
    z.Zero();
    z.w[0] := v;
    if v > 0 { z.len, z.neg := 1, neg; }
    Single(z.w[..1]);
    assert v == 0 ==> z.w[..0] == [];
  }

  /** |x| below the divisor, perhaps after a few subtractions. */
  method SmallResult(mip: Mip, x: Big, y: Big, z: Big, d: Word, sx: bool, sy: bool, sz: bool)
    requires DivideShape(mip, x, y, z) && x != y && y.Valid() && !y.neg && y.len > 0
    requires mip.w0.Valid() && x.Valid() && z.Valid() && !mip.w0.neg
    requires mip.w0.len <= x.w.Length && (z != y ==> z.w.Length >= 1)
    modifies x, x.w, y, if z != y then {z, z.w} else {}
    ensures y.Valid() && y.Value() == Signed(sy, old(y.Abs()))
    ensures x != z ==> x.Valid() && x.Value() == Signed(sx, old(mip.w0.Abs()))
    ensures y != z ==> z.Valid() && z.Value() == Signed(sz, d)
    ensures mip.w0.Clean(mip.w0.len)
  {
    hide Val, Pow;
    if x != z {
      Copy(mip.w0, x);
      if x.len != 0 { x.neg := sx; }
      NonZero(x);
    }
    if y != z { SetWord(z, d, sz); }
    y.neg := sy;
  }

  /** A divisor of a single word. */
  method SingleWord(mip: Mip, x: Big, y: Big, z: Big, sx: bool, sy: bool, sz: bool)
    requires DivideShape(mip, x, y, z) && x != y
    requires mip.w0.Valid() && x.Valid() && y.Valid() && z.Valid() && !mip.w0.neg && !y.neg && y.len == 1
    requires z != y ==> mip.w0.len <= z.w.Length
    requires x.w.Length >= 1
    modifies x, x.w, y, mip.w0, mip.w0.w, if z != y then {z, z.w} else {}
    ensures old(y.Abs()) > 0 && y.Valid() && y.Value() == Signed(sy, old(y.Abs()))
    ensures x != z ==> x.Valid() && x.Value() == Signed(sx, old(mip.w0.Abs()) % old(y.Abs()))
    ensures y != z ==> z.Valid() && z.Value() == Signed(sz, old(mip.w0.Abs()) / old(y.Abs()))
    ensures mip.w0.Clean(mip.w0.len)
  {
    hide Val, Pow;
    Single(y.w[..1]);
    var r := Sdiv(mip.w0, y.w[0], mip.w0);
    if y != z {
      Copy(mip.w0, z);
      NonZero(z);
      z.neg := z.len > 0 && sz;
    }
    if x != z { SetWord(x, r, sx); }
    y.neg := sy;
  }

  lemma SignedDivision(sx: bool, ax: int, sy: bool, ay: int)
    requires ax >= 0 && ay > 0 && (sx ==> ax > 0)
    ensures Quotient(Signed(sx, ax), Signed(sy, ay)) == Signed(sx != sy, ax / ay)
    ensures Remainder(Signed(sx, ax), Signed(sy, ay)) == Signed(sx, ax % ay)
  {
    if ax == 0 { DivMod(0, ay, 0, 0); }
  }

  /**
   * divide: z = x / y and x = x mod y, truncating toward zero. With z == x only the quotient is returned and
   * with z == y only the remainder; y comes back with its value and its sign. After an overflow both operands have
   * lost their signs.
   */
  method Divide(mip: Mip, x: Big, y: Big, z: Big)
    requires mip.Valid() && DivideShape(mip, x, y, z)
    requires x.Valid() && y.Valid() && z.Valid() && mip.w0.Clean(mip.w0.len) && DivideRoom(mip, x, y, z)
    modifies mip, x, x.w, y, y.w, z, z.w, mip.w0, mip.w0.w
    ensures mip.ernum == if old(y.len) == 0 then DivByZero else if x == y then BadParameters
                         else if old(mip.check && x.len - y.len + 1 > mip.nib) then Overflow else NoError
    ensures mip.ernum == NoError ==> old(y.Value()) != 0 && y.Valid() && y.Value() == old(y.Value())
    ensures mip.ernum in {NoError, Overflow, DivByZero, BadParameters}
    ensures mip.ernum == Overflow ==>
              x.Valid() && y.Valid() && !x.neg && !y.neg && x.Abs() == old(x.Abs()) && y.Abs() == old(y.Abs())
    ensures mip.ernum in {DivByZero, BadParameters} ==> unchanged(x, x.w, y, y.w, z, z.w, mip.w0, mip.w0.w)
    ensures mip.ernum == NoError && x != z ==> x.Valid() && x.Value() == Remainder(old(x.Value()), old(y.Value()))
    ensures mip.ernum == NoError && y != z ==> z.Valid() && z.Value() == Quotient(old(x.Value()), old(y.Value()))
    ensures mip.check == old(mip.check) && (mip.ernum == NoError ==> mip.w0.Clean(mip.w0.len))
  {
    hide Val, Pow, Quotient, Remainder;
    if x == y { mip.ernum := BadParameters; }
    if y.len == 0 { mip.ernum := DivByZero; }
    if mip.ernum != NoError { return; }
    NonZero(x);
    NonZero(y);
    SignedDivision(x.neg, x.Abs(), y.neg, y.Abs());
    ghost var xv, yv, ax, ay := x.Value(), y.Value(), x.Abs(), y.Abs();
    var sx, sy := x.neg, y.neg;
    var sz := sx != sy;
    x.neg, y.neg := false, false;
    Copy(x, mip.w0);
    if mip.check && mip.w0.len - y.len + 1 > mip.nib {
      mip.ernum := Overflow;
      return;
    }
    assert mip.w0.Abs() == ax && y.Abs() == ay;
    DivideAbs(mip, x, y, z, sx, sy, sz);
  }

  method DivideAbs(mip: Mip, x: Big, y: Big, z: Big, sx: bool, sy: bool, sz: bool)
    requires mip.Valid() && DivideShape(mip, x, y, z) && x != y
    requires mip.w0.Valid() && x.Valid() && y.Valid() && z.Valid()
    requires !mip.w0.neg && !y.neg && y.len > 0 && y.Abs() > 0
    requires mip.w0.len < mip.w0.w.Length && mip.w0.len <= x.w.Length && 1 <= x.w.Length
    requires z != y ==> 1 <= z.w.Length && mip.w0.len - y.len + 1 <= z.w.Length
    modifies mip, x, x.w, y, y.w, z, z.w, mip.w0, mip.w0.w
    ensures mip.ernum == NoError && mip.w0.Clean(mip.w0.len) && mip.check == old(mip.check)
    ensures y.Valid() && y.Value() == Signed(sy, old(y.Abs()))
    ensures x != z ==> x.Valid() && x.Value() == Signed(sx, old(mip.w0.Abs()) % old(y.Abs()))
    ensures y != z ==> z.Valid() && z.Value() == Signed(sz, old(mip.w0.Abs()) / old(y.Abs()))
  {
    hide Val, Pow;
    ghost var xv, yv := mip.w0.Abs(), y.Abs();
    var d := FewSubtractions(mip, y);
    var less := Compare(mip.w0, y);
    if less < 0 {
      DivMod(xv, yv, d, mip.w0.Abs());
      SmallResult(mip, x, y, z, d, sx, sy, sz);
    } else if y.len == 1 {
      SingleWord(mip, x, y, z, sx, sy, sz);
    } else {
      DivideUnchecked(mip, x, y, z, sx, sy, sz);
    }
  }
}
