/** mrxgcd.c: xgcd and invmodp on the workspace of big numbers, which is large enough for all of it. */
module BigGcd {
  import opened Words
  import opened Bigs
  import opened AddSub
  import opened Multiplication
  import opened SmallMulDiv
  import opened Division
  import opened Gcds
  import opened LehmerGcd
  import Montgomery

  /** The numbers that change places during the run; w0 and w5 are those of the context. */
  class Workspace {
    var w1: Big
    var w2: Big
    var w3: Big
    var w4: Big

    constructor (capacity: nat)
      ensures fresh({w1, w2, w3, w4}) && fresh({w1.w, w2.w, w3.w, w4.w})
      ensures w1.Valid() && w2.Valid() && w3.Valid() && w4.Valid()
      ensures w1.w.Length == w2.w.Length == w3.w.Length == w4.w.Length == capacity
      ensures |{w1, w2, w3, w4}| == 4 && |{w1.w, w2.w, w3.w, w4.w}| == 4
    {
      var a := new Big(capacity);
      var b := new Big(capacity);
      var c := new Big(capacity);
      var d := new Big(capacity);
      w1, w2, w3, w4 := a, b, c, d;
    }
  }

  /** Six different numbers with six different buffers. */
  ghost predicate Different(a: Big, b: Big, c: Big, d: Big, e: Big, f: Big) {
    && a != b && a != c && a != d && a != e && a != f && b != c && b != d && b != e && b != f
    && c != d && c != e && c != f && d != e && d != f && e != f
    && a.w != b.w && a.w != c.w && a.w != d.w && a.w != e.w && a.w != f.w && b.w != c.w && b.w != d.w && b.w != e.w && b.w != f.w
    && c.w != d.w && c.w != e.w && c.w != f.w && d.w != e.w && d.w != f.w && e.w != f.w
  }

  /** The workspace is in order and has the room that the context promises. */
  ghost predicate Ready(mip: Mip, ws: Workspace)
    reads mip, ws, mip.w0, mip.w0.w, mip.w5, mip.w5.w
  {
    && mip.Valid() && Different(ws.w1, ws.w2, ws.w3, ws.w4, mip.w0, mip.w5)
    && ws.w1.w.Length >= mip.nib && ws.w2.w.Length >= mip.nib && ws.w3.w.Length >= mip.nib && ws.w4.w.Length >= mip.nib
    && mip.w0.w.Length > 2 * mip.nib && mip.w5.w.Length > 2 * mip.nib
    && mip.w0.Clean(mip.w0.len) && mip.w5.Valid()
  }

  /** x holds the natural number v, which leaves the last word of the nominal size free. */
  ghost predicate Is(x: Big, v: int, nib: nat)
    reads x, x.w
  {
    x.Valid() && !x.neg && x.Abs() == v && x.len < nib
  }

  ghost predicate State(mip: Mip, ws: Workspace, e: Euclid)
    reads mip, ws, mip.w0, mip.w0.w, mip.w5, mip.w5.w
    reads ws.w1, ws.w1.w, ws.w2, ws.w2.w, ws.w3, ws.w3.w, ws.w4, ws.w4.w
  {
    && Ready(mip, ws)
    && Is(ws.w1, e.r1, mip.nib) && Is(ws.w2, e.r2, mip.nib) && Is(ws.w3, e.s1, mip.nib) && Is(ws.w4, e.s2, mip.nib)
  }

  lemma IsBelow(x: Big, v: int, nib: nat)
    requires nib >= 1 && x.Valid() && x.Value() == v && 0 <= v < Pow(nib - 1)
    ensures Is(x, v, nib)
  {
    hide Val, Pow;
    NonNegative(x);
    LenBound(x, nib - 1);
  }

  /** Factors of a number of fewer than nib words have at most nib words between them. */
  lemma FactorLengths(x: Big, y: Big, nib: nat)
    requires nib >= 1 && x.Valid() && y.Valid() && x.Abs() * y.Abs() < Pow(nib - 1)
    ensures x.len > 0 && y.len > 0 ==> x.len + y.len <= nib
  {
    hide Val, Pow;
    if x.len == 0 || y.len == 0 { return; }
    Leading(x.w[..x.len]);
    Leading(y.w[..y.len]);
    var p, q := Pow(x.len - 1), Pow(y.len - 1);
    MulMono(p, x.Abs(), q);
    MulMono(q, y.Abs(), x.Abs());
    PowAdd(x.len - 1, y.len - 1);
    if x.len + y.len > nib { PowMono(nib - 1, x.len - 1 + (y.len - 1)); }
  }

  lemma NaturalDivision(x: int, y: int)
    requires x >= 0 && y > 0
    ensures Quotient(x, y) == x / y && Remainder(x, y) == x % y && 0 <= x % y <= x && x % y < y && 0 <= x / y <= x
  {
    DivBounds(x, y);
    MulNonNeg(x / y, y);
    MulMono(1, y, x / y);
  }

  /** One division step of the main loop, and the two changes of places. */
  method DivideStep(mip: Mip, ws: Workspace, ghost e: Euclid)
    requires State(mip, ws, e) && e.r2 > 0 && e.s1 >= 0 && e.s2 >= 0 && Step(e).s2 < Pow(mip.nib - 1)
    modifies mip, ws, ws.w1, ws.w1.w, ws.w2, ws.w2.w, ws.w3, ws.w3.w, ws.w4, ws.w4.w, mip.w0, mip.w0.w, mip.w5, mip.w5.w
    ensures State(mip, ws, Step(e)) && mip.check == old(mip.check)
    ensures ws.w1 == old(ws.w2) && ws.w2 == old(ws.w1) && ws.w3 == old(ws.w4) && ws.w4 == old(ws.w3)
  {
    hide Val, Pow, Quotient, Remainder;
    ghost var q := e.r1 / e.r2;
    NaturalDivision(e.r1, e.r2);
    DivideInto(mip, ws.w1, ws.w2, mip.w5, e.r1, e.r2);
    MultiplyAdd(mip, ws.w4, mip.w5, ws.w3, e.s2, q, e.s1);
    ws.w1, ws.w2 := ws.w2, ws.w1;
    ws.w3, ws.w4 := ws.w4, ws.w3;
  }

  /** The quotient to w5 and the remainder in place of the dividend. */
  method DivideInto(mip: Mip, x: Big, y: Big, z: Big, ghost r1: int, ghost r2: int)
    requires mip.Valid() && DivideShape(mip, x, y, z) && x != y && x != z && y != z && z.Valid() && mip.w0.Clean(mip.w0.len)
    requires Is(x, r1, mip.nib) && Is(y, r2, mip.nib) && r2 > 0 && x != mip.w0
    requires mip.nib <= x.w.Length && mip.nib <= z.w.Length && mip.nib < mip.w0.w.Length
    modifies mip, x, x.w, y, y.w, z, z.w, mip.w0, mip.w0.w
    ensures mip.ernum == NoError && mip.check == old(mip.check) && mip.w0.Clean(mip.w0.len)
    ensures Is(x, r1 % r2, mip.nib) && Is(y, r2, mip.nib)
    ensures Is(z, r1 / r2, mip.nib)
  {
    hide Val, Pow, Quotient, Remainder;
    ghost var lx, ly := x.len, y.len;
    NaturalDivision(r1, r2);
    NonZero(y);
    Divide(mip, x, y, z);
    NonNegative(x);
    NonNegative(y);
    NonNegative(z);
    PowMono(lx, mip.nib - 1);
    PowMono(ly, mip.nib - 1);
    LenBound(x, mip.nib - 1);
    LenBound(y, mip.nib - 1);
    LenBound(z, mip.nib - 1);
  }

  /** z += x * y through w0, for a sum that leaves the last word free. */
  method MultiplyAdd(mip: Mip, x: Big, y: Big, z: Big, ghost a: int, ghost b: int, ghost c: int)
    requires mip.Valid() && x != z && y != z && Apart(x, y) && Apart(x, z) && Apart(y, z) && mip.w0.Clean(mip.w0.len)
    requires x != mip.w0 && y != mip.w0 && z != mip.w0 && Apart(x, mip.w0) && Apart(y, mip.w0) && Apart(z, mip.w0)
    requires Is(x, a, mip.nib) && Is(y, b, mip.nib) && Is(z, c, mip.nib) && c + b * a < Pow(mip.nib - 1)
    requires mip.nib <= z.w.Length && 2 * mip.nib < mip.w0.w.Length
    modifies mip`ernum, z, z.w, mip.w0, mip.w0.w
    ensures mip.ernum == NoError && mip.w0.Clean(mip.w0.len) && Is(z, c + b * a, mip.nib)
  {
    hide Val, Pow;
    MulNonNeg(b, a);
    assert a * b == b * a;
    FactorLengths(x, y, mip.nib);
    Multiply(mip, x, y, mip.w0);
    IsBelow(mip.w0, b * a, mip.nib);
    AddSub.Add(mip, z, mip.w0, z);
    IsBelow(z, c + b * a, mip.nib);
  }

  // ----- the batched step -----

  /** x holds v in at most nib words. */
  ghost predicate Holds(x: Big, v: int, nib: nat)
    reads x, x.w
  {
    x.Valid() && !x.neg && x.Abs() == v && x.len <= nib
  }

  /** mr_pmul of a number that leaves the last word free. */
  method MulWord(mip: Mip, x: Big, sn: Word, z: Big, ghost v: int)
    requires mip.Valid() && Is(x, v, mip.nib) && z.Clean(z.len) && Apart(x, z) && mip.nib <= z.w.Length
    modifies mip`ernum, z, z.w
    ensures mip.ernum == NoError && Holds(z, v * sn, mip.nib)
  {
    hide Val, Pow;
    ghost var p := v * sn;
    MulNonNeg(v, sn);
    Pmul(mip, x, sn, z);
    NonNegative(z);
  }

  /** mr_psub in place of either operand. */
  method Take(mip: Mip, x: Big, y: Big, z: Big, ghost v: int, ghost w: int)
    requires mip.Valid() && Holds(x, v, mip.nib) && Holds(y, w, mip.nib) && (z == x || z == y) && Apart(x, y)
    requires 0 <= v - w < Pow(mip.nib - 1) && mip.nib <= x.w.Length && mip.nib <= y.w.Length
    modifies mip`ernum, z, z.w
    ensures mip.ernum == NoError && Is(z, v - w, mip.nib)
  {
    hide Val, Pow;
    Psub(mip, x, y, z);
    LenBound(z, mip.nib - 1);
  }

  /** mr_padd in place of the first operand. */
  method Put(mip: Mip, x: Big, y: Big, ghost v: int, ghost w: int)
    requires mip.Valid() && Holds(x, v, mip.nib) && Holds(y, w, mip.nib) && Apart(x, y)
    requires 0 <= v && 0 <= w && v + w < Pow(mip.nib - 1) && mip.nib <= x.w.Length && mip.nib <= y.w.Length
    modifies mip`ernum, x, x.w
    ensures mip.ernum == NoError && Is(x, v + w, mip.nib)
  {
    hide Val, Pow;
    LenBound(x, mip.nib - 1);
    LenBound(y, mip.nib - 1);
    Padd(mip, x, y, x);
    LenBound(x, mip.nib - 1);
  }

  /** Four different numbers with room for nib words. */
  ghost predicate Four(mip: Mip, x: Big, y: Big, t: Big) {
    && x != y && x != t && y != t && x != mip.w0 && y != mip.w0 && t != mip.w0
    && x.w != y.w && x.w != t.w && y.w != t.w && x.w != mip.w0.w && y.w != mip.w0.w && t.w != mip.w0.w
    && mip.nib <= x.w.Length && mip.nib <= y.w.Length && mip.nib <= t.w.Length && mip.nib <= mip.w0.w.Length
  }

  /** The four products of two numbers with the entries of the batch. */
  method FourProducts(mip: Mip, x: Big, y: Big, t: Big, a: Word, b: Word, c: Word, d: Word, ghost v: int, ghost w: int)
    requires mip.Valid() && Four(mip, x, y, t) && Is(x, v, mip.nib) && Is(y, w, mip.nib) && t.Valid() && mip.w0.Clean(mip.w0.len)
    modifies mip`ernum, x, x.w, y, y.w, t, t.w, mip.w0, mip.w0.w
    ensures mip.ernum == NoError && Holds(t, c * v, mip.nib) && Holds(x, a * v, mip.nib)
    ensures Holds(mip.w0, b * w, mip.nib) && Holds(y, d * w, mip.nib)
  {
    hide Val, Pow;
    Commuted(a, b, c, d, v, w);
    MulWord(mip, x, c, t, v);
    MulWord(mip, x, a, x, v);
    MulWord(mip, y, b, mip.w0, w);
    MulWord(mip, y, d, y, w);
  }

  /** The remainders: w1 and w2 become the two combinations of themselves. */
  method BatchRemainders(mip: Mip, x: Big, y: Big, t: Big, a: Word, b: Word, c: Word, d: Word, dplus: bool,
                         ghost r1: int, ghost r2: int)
    requires mip.Valid() && Four(mip, x, y, t) && Is(x, r1, mip.nib) && Is(y, r2, mip.nib) && t.Valid() && mip.w0.Clean(mip.w0.len)
    requires var m := Batch(a, b, c, d, dplus); 0 <= Rem1(m, r1, r2) < Pow(mip.nib - 1) && 0 <= Rem2(m, r1, r2) < Pow(mip.nib - 1)
    modifies mip`ernum, x, x.w, y, y.w, t, t.w, mip.w0, mip.w0.w
    ensures mip.ernum == NoError && t.Valid() && mip.w0.Clean(mip.w0.len)
    ensures var m := Batch(a, b, c, d, dplus); Is(x, Rem1(m, r1, r2), mip.nib) && Is(y, Rem2(m, r1, r2), mip.nib)
  {
    hide Val, Pow;
    FourProducts(mip, x, y, t, a, b, c, d, r1, r2);
    if !dplus {
      Take(mip, mip.w0, x, x, b * r2, a * r1);
      Take(mip, t, y, y, c * r1, d * r2);
    } else {
      Take(mip, x, mip.w0, x, a * r1, b * r2);
      Take(mip, y, t, y, d * r2, c * r1);
    }
  }

  lemma Commuted(a: int, b: int, c: int, d: int, x: int, y: int)
    ensures x * a == a * x && y * b == b * y && x * c == c * x && y * d == d * y
  {
  }

  /** The cofactors: their combinations are sums. */
  method BatchCofactors(mip: Mip, x: Big, y: Big, t: Big, a: Word, b: Word, c: Word, d: Word, ghost s1: int, ghost s2: int)
    requires mip.Valid() && Four(mip, x, y, t) && Is(x, s1, mip.nib) && Is(y, s2, mip.nib) && t.Valid() && mip.w0.Clean(mip.w0.len)
    requires s1 >= 0 && s2 >= 0
    requires a * s1 + b * s2 < Pow(mip.nib - 1) && c * s1 + d * s2 < Pow(mip.nib - 1)
    modifies mip`ernum, x, x.w, y, y.w, t, t.w, mip.w0, mip.w0.w
    ensures mip.ernum == NoError && t.Valid() && mip.w0.Clean(mip.w0.len)
    ensures Is(x, a * s1 + b * s2, mip.nib) && Is(y, c * s1 + d * s2, mip.nib)
  {
    hide Val, Pow;
    ghost var u, v, u', v' := a * s1, b * s2, c * s1, d * s2;
    MulNonNeg(a, s1);
    MulNonNeg(b, s2);
    MulNonNeg(c, s1);
    MulNonNeg(d, s2);
    FourProducts(mip, x, y, t, a, b, c, d, s1, s2);
    if a == 0 {
      Copy(mip.w0, x);
      LenBound(x, mip.nib - 1);
    } else {
      Put(mip, x, mip.w0, u, v);
    }
    Put(mip, y, t, v', u');
  }

  /** The batched step. */
  method BatchInto(mip: Mip, ws: Workspace, a: Word, b: Word, c: Word, d: Word, dplus: bool, ghost e: Euclid)
    requires State(mip, ws, e) && e.s1 >= 0 && e.s2 >= 0
    requires var f := Applied(Batch(a, b, c, d, dplus), e); var p := Pow(mip.nib - 1);
             0 <= f.r1 < p && 0 <= f.r2 < p && f.s1 < p && f.s2 < p
    modifies mip, ws, ws.w1, ws.w1.w, ws.w2, ws.w2.w, ws.w3, ws.w3.w, ws.w4, ws.w4.w, mip.w0, mip.w0.w, mip.w5, mip.w5.w
    ensures State(mip, ws, Applied(Batch(a, b, c, d, dplus), e)) && mip.check == old(mip.check)
    ensures ws.w1 == old(ws.w1) && ws.w2 == old(ws.w2) && ws.w3 == old(ws.w3) && ws.w4 == old(ws.w4)
  {
    hide Val, Pow, Rem1, Rem2;
    BatchRemainders(mip, ws.w1, ws.w2, mip.w5, a, b, c, d, dplus, e.r1, e.r2);
    BatchCofactors(mip, ws.w3, ws.w4, mip.w5, a, b, c, d, e.s1, e.s2);
  }

  // ----- the main loop -----

  /** A word of a number, read from the array. */
  lemma WordIsWord(s: seq<Word>, i: nat)
    requires i < |s|
    ensures WordAt(Val(s), i) == s[i]
  {
    hide Val, Pow;
    Split(s, i);
    var p, high := Pow(i), Val(s[i + 1..]);
    PowStep(i);
    assert Pow(i + 1) * high == B * high * p;
    DivMod(Val(s), p, s[i] + B * high, Val(s[..i]));
    DivMod(s[i] + B * high, B, high, s[i]);
  }

  lemma WordsOfBig(x: Big, n: nat)
    requires x.Valid() && x.len <= n <= x.w.Length
    ensures WordsOf(x.Abs(), x.w[..n])
  {
    hide Val, Pow, WordAt;
    var s := x.w[..n];
    ZeroTail(s, x.len);
    assert s[..x.len] == x.w[..x.len];
    forall i | 0 <= i < n
      ensures s[i] == WordAt(x.Abs(), i)
    {
      WordIsWord(s, i);
    }
  }

  lemma LenOfBig(x: Big)
    requires x.Valid()
    ensures Len(x.Abs()) == x.len
  {
    hide Val, Pow;
    var n := Len(x.Abs());
    LenBound(x, n);
    assert x.Abs() < Pow(x.len);
    if x.len < n { PowMono(x.len, n - 1); }
  }

  /** The next batch from the leading words of both numbers. */
  method LookAheadInto(w1: Big, w2: Big, last0: bool, iter: nat, ghost e: Euclid)
    returns (a: Word, b: Word, c: Word, d: Word, dplus: bool, iter': nat, last: bool, ghost ahead: nat)
    requires w1.Valid() && w2.Valid() && w1.Abs() == e.r1 && w2.Abs() == e.r2 && 0 < e.r2 < e.r1
    requires w1.len <= w2.w.Length && (last0 ==> e.r1 < BB)
    ensures Ahead(e, Batch(a, b, c, d, dplus), ahead) && iter' == iter + ahead && (last ==> e.r1 < BB)
  {
    hide Val, Pow, Applied, Reaches, Ahead, WordAt, WordsOf, Len;
    var n := w1.len;
    LenBound(w2, n);
    LenOfBig(w1);
    WordsOfBig(w1, n);
    WordsOfBig(w2, n);
    var u, v;
    ghost var S;
    u, v, last, S := LeadingParts(w1.w[..n], w2.w[..n], last0, e.r1, e.r2);
    a, b, c, d, dplus, iter' := Simulate(u, v, last, iter, e, S);
    ahead := iter' - iter;
    AheadIs(e, Batch(a, b, c, d, dplus), ahead);
  }

  /** Everything on the way stays below a bound on both numbers. */
  lemma AllBelow(x: nat, y: nat, k: nat, e: Euclid, p: int)
    requires Reaches(Euclid(x, y, 1, 0), k, e) && x < p && y < p && 1 < p
    ensures 0 <= e.r1 < p && 0 <= e.r2 < p && 0 <= e.s1 < p && 0 <= e.s2 < p
  {
    hide Reaches;
    StepsKeepBezout(x, y, k, e);
    StepsDecrease(Euclid(x, y, 1, 0), k, e);
    NoneTaken(Euclid(x, y, 1, 0), k, e);
    MulNonNeg(e.s1, e.r2);
    if e.r1 > 0 { MulMono(1, e.r1, e.s2); }
  }

  lemma NoneTaken(e: Euclid, k: nat, f: Euclid)
    requires Reaches(e, k, f)
    ensures k == 0 ==> e == f
  {
  }

  /** The same objects, perhaps with w1 and w2 or w3 and w4 exchanged. */
  ghost predicate Exchanged(ws: Workspace, a: Big, b: Big, c: Big, d: Big)
    reads ws
  {
    ((ws.w1 == a && ws.w2 == b) || (ws.w1 == b && ws.w2 == a)) && ((ws.w3 == c && ws.w4 == d) || (ws.w3 == d && ws.w4 == c))
  }

  /** The first half of a pass. */
  method AdvanceInto(mip: Mip, ws: Workspace, a: Word, b: Word, c: Word, d: Word, dplus: bool, iter: nat,
                     ghost x: nat, ghost y: nat, ghost k: nat, ghost ahead: nat, ghost e: Euclid)
    returns (iter': nat, ghost k': nat, ghost f: Euclid)
    requires State(mip, ws, e) && e.r2 > 0 && Reaches(Euclid(x, y, 1, 0), k, e) && Ahead(e, Batch(a, b, c, d, dplus), ahead)
    requires x < Pow(mip.nib - 1) && y < Pow(mip.nib - 1)
    modifies mip, ws, ws.w1, ws.w1.w, ws.w2, ws.w2.w, ws.w3, ws.w3.w, ws.w4, ws.w4.w, mip.w0, mip.w0.w, mip.w5, mip.w5.w
    ensures State(mip, ws, f) && mip.check == old(mip.check) && Exchanged(ws, old(ws.w1), old(ws.w2), old(ws.w3), old(ws.w4))
    ensures Reaches(Euclid(x, y, 1, 0), k', f) && 0 <= f.r2 < e.r2 && f.r2 < f.r1 <= e.r2
    ensures k' == k + (if b == 0 then 1 else ahead) && iter' == if b == 0 then iter + 1 else iter
  {
    hide Val, Pow, Applied, Step, Reaches, Ahead, State;
    ghost var m, start := Batch(a, b, c, d, dplus), Euclid(x, y, 1, 0);
    AheadIs(e, m, ahead);
    StateParts(mip, ws, e);
    BaseBelow(mip.nib);
    AllBelow(x, y, k, e, Pow(mip.nib - 1));
    iter' := iter;
    if b == 0 {
      f := Step(e);
      k' := k + 1;
      OneStep(e);
      StepsStayNonNegative(x, y, k, e, 1, f);
      AllBelow(x, y, k', f, Pow(mip.nib - 1));
      DivideStep(mip, ws, e);
      iter' := iter + 1;
    } else {
      f := Applied(m, e);
      k' := k + ahead;
      StepsStayNonNegative(x, y, k, e, ahead, f);
      AllBelow(x, y, k', f, Pow(mip.nib - 1));
      BatchInto(mip, ws, a, b, c, d, dplus, e);
    }
  }

  lemma StateParts(mip: Mip, ws: Workspace, e: Euclid)
    requires State(mip, ws, e)
    ensures mip.nib >= 2 && ws.w1.Valid() && ws.w2.Valid() && ws.w1.Abs() == e.r1 && ws.w2.Abs() == e.r2
    ensures ws.w1.len < mip.nib <= ws.w2.w.Length && (ws.w2.len > 0 <==> e.r2 > 0)
  {
    hide Val, Pow;
    NonZero(ws.w2);
  }

  lemma BaseBelow(nib: nat)
    requires nib >= 2
    ensures 1 < Pow(nib - 1)
  {
    hide Pow;
    PowMono(1, nib - 1);
    SmallPowers();
  }

  /** The main loop on the workspace: no operation in it runs out of words. */
  method ReduceInto(mip: Mip, ws: Workspace, ghost x: nat, ghost y: nat) returns (iter: nat, ghost k: nat, ghost f: Euclid)
    requires State(mip, ws, Euclid(x, y, 1, 0)) && x < Pow(mip.nib - 1) && y < Pow(mip.nib - 1)
    modifies mip, ws, ws.w1, ws.w1.w, ws.w2, ws.w2.w, ws.w3, ws.w3.w, ws.w4, ws.w4.w, mip.w0, mip.w0.w, mip.w5, mip.w5.w
    ensures State(mip, ws, f) && mip.check == old(mip.check) && Exchanged(ws, old(ws.w1), old(ws.w2), old(ws.w3), old(ws.w4))
    ensures Reaches(Euclid(x, y, 1, 0), k, f) && f.r2 == 0 && iter % 2 == k % 2 && (y == 0 ==> f == Euclid(x, 0, 1, 0))
  {
    hide Val, Pow, Applied, Step, Reaches, Ahead, State;
    iter, k, f := 0, 0, Euclid(x, y, 1, 0);
    var last, dplus := false, true;
    var a: Word, b: Word, c: Word, d: Word := 0, 0, 0, 0;
    ghost var ahead: nat := 0;
    NoSteps(f);
    NothingAhead(f, Batch(a, b, c, d, dplus));
    StateParts(mip, ws, f);
    while ws.w2.len != 0
      invariant State(mip, ws, f) && mip.check == old(mip.check) && Exchanged(ws, old(ws.w1), old(ws.w2), old(ws.w3), old(ws.w4))
      invariant Reaches(Euclid(x, y, 1, 0), k, f) && f.r2 >= 0 && (ws.w2.len > 0 <==> f.r2 > 0)
      invariant f.r2 != 0 ==> Ahead(f, Batch(a, b, c, d, dplus), ahead) && iter % 2 == (k + ahead) % 2
      invariant f.r2 == 0 ==> iter % 2 == k % 2
      invariant last ==> f.r1 < BB && f.r2 < BB
      invariant y == 0 ==> f == Euclid(x, 0, 1, 0)
      decreases f.r2
    {
      AheadIs(f, Batch(a, b, c, d, dplus), ahead);
      iter, k, f := AdvanceInto(mip, ws, a, b, c, d, dplus, iter, x, y, k, ahead, f);
      StateParts(mip, ws, f);
      if ws.w2.len == 0 { break; }
      a, b, c, d, dplus, iter, last, ahead := LookAheadInto(ws.w1, ws.w2, last, iter, f);
      iter := iter % 2;
    }
  }

  // ----- xgcd -----

  /** A number of the caller, apart from the workspace. */
  ghost predicate Outside(mip: Mip, ws: Workspace, b: Big)
    reads ws
  {
    && b != ws.w1 && b != ws.w2 && b != ws.w3 && b != ws.w4 && b != mip.w0 && b != mip.w5
    && b.w != ws.w1.w && b.w != ws.w2.w && b.w != ws.w3.w && b.w != ws.w4.w && b.w != mip.w0.w && b.w != mip.w5.w
  }

  /** A copy of the magnitude. */
  method CopyMagnitude(x: Big, w: Big, ghost nib: nat)
    requires x.Valid() && w.Valid() && x != w && x.w != w.w && x.len < nib <= w.w.Length
    modifies w, w.w
    ensures Is(w, x.Abs(), nib) && x.Abs() < Pow(nib - 1)
  {
    hide Val, Pow;
    Copy(x, w);
    w.neg := false;
    PowMono(x.len, nib - 1);
  }

  /** The first cofactors, 1 and 0. */
  method StartCofactors(w3: Big, w4: Big, ghost nib: nat)
    requires w3.Valid() && w4.Valid() && w3 != w4 && w3.w != w4.w && 2 <= nib <= w3.w.Length && nib <= w4.w.Length
    modifies w3, w3.w, w4, w4.w
    ensures Is(w3, 1, nib) && Is(w4, 0, nib)
  {
    hide Val, Pow;
    Montgomery.SetOne(w3);
    NonNegative(w3);
    w4.Zero();
    NonNegative(w4);
  }

  /** The first statements: the magnitudes of x and y, and the cofactors. */
  method Begin(mip: Mip, ws: Workspace, x: Big, y: Big)
    requires Ready(mip, ws) && ws.w1.Valid() && ws.w2.Valid() && ws.w3.Valid() && ws.w4.Valid()
    requires x.Valid() && y.Valid() && x.len < mip.nib && y.len < mip.nib && Outside(mip, ws, x) && Outside(mip, ws, y)
    modifies ws.w1, ws.w1.w, ws.w2, ws.w2.w, ws.w3, ws.w3.w, ws.w4, ws.w4.w
    ensures State(mip, ws, Euclid(x.Abs(), y.Abs(), 1, 0)) && x.Abs() < Pow(mip.nib - 1) && y.Abs() < Pow(mip.nib - 1)
  {
    hide Val, Pow;
    ghost var ax, ay := x.Abs(), y.Abs();
    CopyMagnitude(x, ws.w1, mip.nib);
    CopyMagnitude(y, ws.w2, mip.nib);
    assert Is(ws.w1, ax, mip.nib) && Is(ws.w2, ay, mip.nib);
    StartCofactors(ws.w3, ws.w4, mip.nib);
    assert x.Abs() == ax && y.Abs() == ay && Ready(mip, ws);
  }

  /** The cofactor of x: w3, or y - w3 in its place. */
  method CofactorInto(mip: Mip, ws: Workspace, y: Big, odd: bool, ghost f: Euclid)
    requires State(mip, ws, f) && y.Valid() && y.len < mip.nib && Outside(mip, ws, y) && f.s1 < Pow(mip.nib - 1)
    requires mip.nib <= y.w.Length
    modifies mip`ernum, y`neg, ws.w3, ws.w3.w
    ensures mip.ernum == NoError && y.neg == old(y.neg) && ws.w3.Valid() && ws.w3.len <= mip.nib
    ensures ws.w3.Value() == (if odd then y.Value() - f.s1 else f.s1) && Is(ws.w1, f.r1, mip.nib)
  {
    hide Val, Pow;
    if odd {
      PowMono(y.len, mip.nib - 1);
      PowStep(mip.nib - 1);
      AddSub.Subtract(mip, y, ws.w3, ws.w3);
      LenBound(ws.w3, mip.nib);
    }
  }

  /** What is asked of the cofactor of x. */
  ghost predicate Congruent(x: int, y: int, xd: int) {
    && (y > 0 ==> 0 <= xd <= y && (x * xd) % y == Gcd(LehmerGcd.Abs(x), y) % y)
    && (y < 0 ==> (Gcd(LehmerGcd.Abs(x), -y) - x * xd) % -y == 0)
    && (y == 0 ==> x * xd == LehmerGcd.Abs(x))
  }

  /** What the loop's result means for x and y. */
  lemma FinalCofactor(x: int, y: int, k: nat, f: Euclid, iter: nat)
    requires Reaches(Euclid(LehmerGcd.Abs(x), LehmerGcd.Abs(y), 1, 0), k, f) && f.r2 == 0 && iter % 2 == k % 2
    ensures f.r1 == Gcd(LehmerGcd.Abs(x), LehmerGcd.Abs(y)) && f.s1 >= 0
    ensures var odd := (iter + (if x < 0 then 1 else 0)) % 2 == 1;
            Congruent(x, y, if odd then y - f.s1 else f.s1)
  {
    hide Gcd, Bezout, Reaches, Sign, Flipped;
    StepsKeepBezout(LehmerGcd.Abs(x), LehmerGcd.Abs(y), k, f);
    BezoutParts(LehmerGcd.Abs(x), LehmerGcd.Abs(y), k, f);
    CofactorWorks(x, y, k, f.r1, f.s1, f.s2);
    SameParity(x, k, iter);
    Exact(x, y, Cofactor(x, y, k, f.s1), f.r1);
    if y == 0 { GcdZero(LehmerGcd.Abs(x)); }
  }

  lemma BezoutParts(x: nat, y: nat, k: nat, f: Euclid)
    requires Bezout(x, y, k, f)
    ensures f.r1 >= 0 && f.s1 >= 0 && f.s2 >= 0
  {
  }

  lemma StillOutside(mip: Mip, ws: Workspace, b: Big, w1: Big, w2: Big, w3: Big, w4: Big)
    requires Exchanged(ws, w1, w2, w3, w4) && b != mip.w0 && b != mip.w5 && b.w != mip.w0.w && b.w != mip.w5.w
    requires b != w1 && b != w2 && b != w3 && b != w4 && b.w != w1.w && b.w != w2.w && b.w != w3.w && b.w != w4.w
    ensures Outside(mip, ws, b)
  {
  }

  /** The loop from x and y to the gcd in w1 and the state it ends in. */
  method Solve(mip: Mip, ws: Workspace, x: Big, y: Big) returns (iter: nat, ghost k: nat, ghost f: Euclid)
    requires Ready(mip, ws) && ws.w1.Valid() && ws.w2.Valid() && ws.w3.Valid() && ws.w4.Valid()
    requires x.Valid() && y.Valid() && x.len < mip.nib && y.len < mip.nib && Outside(mip, ws, x) && Outside(mip, ws, y)
    modifies mip, ws, ws.w1, ws.w1.w, ws.w2, ws.w2.w, ws.w3, ws.w3.w, ws.w4, ws.w4.w, mip.w0, mip.w0.w, mip.w5, mip.w5.w
    ensures State(mip, ws, f) && mip.check == old(mip.check) && Exchanged(ws, old(ws.w1), old(ws.w2), old(ws.w3), old(ws.w4))
    ensures Reaches(Euclid(old(x.Abs()), old(y.Abs()), 1, 0), k, f) && f.r2 == 0 && iter % 2 == k % 2 && 0 <= f.s1 < Pow(mip.nib - 1)
  {
    hide Val, Pow, Reaches, State, Ready;
    ghost var ax, ay := x.Abs(), y.Abs();
    Begin(mip, ws, x, y);
    iter, k, f := ReduceInto(mip, ws, ax, ay);
    StateParts(mip, ws, f);
    BaseBelow(mip.nib);
    AllBelow(ax, ay, k, f, Pow(mip.nib - 1));
  }

  /** The gcd in w1 and the cofactor in w3. */
  method SolveCofactor(mip: Mip, ws: Workspace, x: Big, y: Big)
    requires Ready(mip, ws) && ws.w1.Valid() && ws.w2.Valid() && ws.w3.Valid() && ws.w4.Valid()
    requires x.Valid() && y.Valid() && x.len < mip.nib && y.len < mip.nib && Outside(mip, ws, x) && Outside(mip, ws, y)
    requires mip.nib <= y.w.Length
    modifies mip, ws, ws.w1, ws.w1.w, ws.w2, ws.w2.w, ws.w3, ws.w3.w, ws.w4, ws.w4.w, mip.w0, mip.w0.w, mip.w5, mip.w5.w
    modifies y`neg
    ensures mip.ernum == NoError && mip.check == old(mip.check) && y.neg == old(y.neg)
    ensures Exchanged(ws, old(ws.w1), old(ws.w2), old(ws.w3), old(ws.w4))
    ensures Is(ws.w1, Gcd(LehmerGcd.Abs(old(x.Value())), LehmerGcd.Abs(old(y.Value()))), mip.nib)
    ensures ws.w3.Valid() && ws.w3.len <= mip.nib && Congruent(old(x.Value()), old(y.Value()), ws.w3.Value())
  {
    hide Val, Pow, Gcd, Reaches, Ready, Congruent;
    ghost var X, Y := x.Value(), y.Value();
    var s := x.neg;
    NonZero(x);
    NonZero(y);
    assert s == (X < 0);
    var iter;
    ghost var k, f;
    ghost var a, b, c, d := ws.w1, ws.w2, ws.w3, ws.w4;
    iter, k, f := Solve(mip, ws, x, y);
    FinalCofactor(X, Y, k, f, iter);
    if s { iter := iter + 1; }
    ghost var cofactor := if iter % 2 == 1 then Y - f.s1 else f.s1;
    assert Congruent(X, Y, cofactor);
    StillOutside(mip, ws, y, a, b, c, d);
    assert y.Value() == Y;
    CofactorInto(mip, ws, y, iter % 2 == 1, f);
    assert ws.w3.Value() == cofactor;
  }

  /** The results leave the workspace. */
  method Deliver(mip: Mip, ws: Workspace, xd: Big, z: Big) returns (size: int)
    requires ws.w1.Valid() && !ws.w1.neg && ws.w3.Valid() && ws.w1.len <= z.w.Length && ws.w3.len <= xd.w.Length
    requires xd.Valid() && z.Valid() && Outside(mip, ws, xd) && Outside(mip, ws, z) && Apart(xd, z)
    modifies xd, xd.w, z, z.w
    ensures xd.Valid() && z.Valid() && size == Size(ws.w1.Abs())
    ensures z != xd ==> xd.Value() == ws.w3.Value() && z.Value() == ws.w1.Abs()
    ensures z == xd ==> z.Value() == ws.w3.Value()
  {
    hide Val, Pow;
    Copy(ws.w3, xd);
    if z != xd { Copy(ws.w1, z); }
    size := Montgomery.SmallSize(ws.w1);
  }

  /**
   * xgcd for one cofactor: the gcd and xd with x * xd congruent to it modulo y, for numbers that leave the last word
   * free. No step runs out of words. x and y may be the results, and z may be xd, as in invmodp.
   */
  method XgcdInto(mip: Mip, ws: Workspace, x: Big, y: Big, xd: Big, z: Big) returns (size: int)
    requires Ready(mip, ws) && ws.w1.Valid() && ws.w2.Valid() && ws.w3.Valid() && ws.w4.Valid()
    requires x.Valid() && y.Valid() && x.len < mip.nib && y.len < mip.nib && Outside(mip, ws, x) && Outside(mip, ws, y)
    requires xd.Valid() && z.Valid() && Outside(mip, ws, xd) && Outside(mip, ws, z)
    requires Apart(x, y) && Apart(x, xd) && Apart(x, z) && Apart(y, xd) && Apart(y, z) && Apart(xd, z)
    requires mip.nib <= y.w.Length && mip.nib <= xd.w.Length && mip.nib <= z.w.Length
    modifies mip, ws, ws.w1, ws.w1.w, ws.w2, ws.w2.w, ws.w3, ws.w3.w, ws.w4, ws.w4.w, mip.w0, mip.w0.w, mip.w5, mip.w5.w
    modifies y`neg, xd, xd.w, z, z.w
    ensures mip.ernum == NoError && mip.check == old(mip.check)
    ensures size == Size(Gcd(LehmerGcd.Abs(old(x.Value())), LehmerGcd.Abs(old(y.Value()))))
    ensures xd.Valid() && z.Valid()
    ensures Congruent(old(x.Value()), old(y.Value()), if z != xd then xd.Value() else z.Value())
    ensures z != xd ==> z.Value() == Gcd(LehmerGcd.Abs(old(x.Value())), LehmerGcd.Abs(old(y.Value())))
  {
    hide Val, Pow, Gcd, Ready, Congruent;
    ghost var a, b, c, d := ws.w1, ws.w2, ws.w3, ws.w4;
    SolveCofactor(mip, ws, x, y);
    StillOutside(mip, ws, xd, a, b, c, d);
    StillOutside(mip, ws, z, a, b, c, d);
    size := Deliver(mip, ws, xd, z);
  }

  /** invmodp: z is the inverse of x modulo y when the gcd is 1. */
  method InvmodpInto(mip: Mip, ws: Workspace, x: Big, y: Big, z: Big) returns (gcd: int)
    requires Ready(mip, ws) && ws.w1.Valid() && ws.w2.Valid() && ws.w3.Valid() && ws.w4.Valid()
    requires x.Valid() && y.Valid() && x.len < mip.nib && y.len < mip.nib && Outside(mip, ws, x) && Outside(mip, ws, y)
    requires z.Valid() && Outside(mip, ws, z) && Apart(x, y) && Apart(x, z) && Apart(y, z)
    requires mip.nib <= y.w.Length && mip.nib <= z.w.Length && y.Value() > 0
    modifies mip, ws, ws.w1, ws.w1.w, ws.w2, ws.w2.w, ws.w3, ws.w3.w, ws.w4, ws.w4.w, mip.w0, mip.w0.w, mip.w5, mip.w5.w
    modifies y`neg, z, z.w
    ensures mip.ernum == NoError && mip.check == old(mip.check) && z.Valid() && 0 <= z.Value() <= old(y.Value())
    ensures gcd == 1 <==> Gcd(LehmerGcd.Abs(old(x.Value())), old(y.Value())) == 1
    ensures gcd == 1 ==> (old(x.Value()) * z.Value()) % old(y.Value()) == 1 % old(y.Value())
  {
    hide Val, Pow, Gcd, Ready;
    gcd := XgcdInto(mip, ws, x, y, z, z);
  }
}
