/** mrarth1.c mr_jsf: Solinas's joint sparse form of two scalars. */
module JointSparseForm {
  import Words
  import opened Bits

  /** The digit that a scalar whose low three bits are l gets next to one whose low three bits are other. */
  function Digit(l: int, other: int): (u: int)
    requires 0 <= l < 8 && 0 <= other < 8
    ensures -1 <= u <= 1 && (u == 0 <==> l % 2 == 0)
  {
    if l % 2 == 0 then 0
    else if (l == 3 || l == 5) && other % 4 == 2 then -(2 - l % 4)
    else 2 - l % 4
  }

  lemma QuadAdded(a: int, h: int)
    ensures (a + 4 * h) % 4 == a % 4
  {
  }

  lemma LowBits(n: nat)
    ensures n % 8 % 2 == n % 2 && n % 8 % 4 == n % 4 && n % 4 % 2 == n % 2
  {
    var a, b := n / 8, n / 4;
    EvenAdded(n % 8, 4 * a);
    QuadAdded(n % 8, 2 * a);
    EvenAdded(n % 4, 2 * b);
    assert n % 8 + 2 * (4 * a) == n && n % 8 + 4 * (2 * a) == n && n % 4 + 2 * (2 * b) == n;
  }

  /** What is left of the two scalars. */
  datatype Pair = Pair(n0: nat, n1: nat) {
    predicate Even() { n0 % 2 == 0 && n1 % 2 == 0 }

    function Digit0(): (u: int)
      ensures -1 <= u <= 1 && (u == 0 <==> n0 % 2 == 0)
    {
      LowBits(n0);
      Digit(n0 % 8, n1 % 8)
    }

    function Digit1(): (u: int)
      ensures -1 <= u <= 1 && (u == 0 <==> n1 % 2 == 0)
    {
      LowBits(n1);
      Digit(n1 % 8, n0 % 8)
    }

    function Step(): Pair {
      Pair((n0 - Digit0()) / 2, (n1 - Digit1()) / 2)
    }
  }

  /** Halving after the digit is taken off, from the low three bits. */
  lemma AfterDigit(n: nat, other: int) returns (h: nat)
    requires 0 <= other < 8
    ensures h == (n - Digit(n % 8, other)) / 2 && h % 4 == (n % 8 - Digit(n % 8, other)) / 2 % 4
  {
    hide Digit;
    LowBits(n);
    var a, r := n / 8, n % 8;
    var t := (r - Digit(r, other)) / 2;
    h := 4 * a + t;
    assert r - Digit(r, other) == 2 * t;
    assert n - Digit(r, other) == 2 * h;
  }

  /** Next to another odd scalar or a multiple of four, the digit leaves an even number. */
  lemma NoFlip(l: int, other: int)
    requires 0 <= l < 8 && 0 <= other < 8 && other % 4 != 2
    ensures l % 2 == 1 || l % 4 == 0 ==> (l - Digit(l, other)) / 2 % 2 == 0
  {
  }

  /** An odd scalar next to an even one: equal parities remain, or a multiple of four next to an odd number. */
  lemma OneOdd(l: int, other: int)
    requires 0 <= l < 8 && 0 <= other < 8 && l % 2 == 1 && other % 2 == 0
    ensures var f, g := (l - Digit(l, other)) / 2 % 4, (other - Digit(other, l)) / 2 % 4;
            f % 2 == g % 2 || (g % 2 == 1 && f == 0)
  {
    if l == 1 {
    } else if l == 3 {
    } else if l == 5 {
    } else {
      assert l == 7;
    }
  }

  /** What three columns do with the low three bits of the scalars; f0 and f1 are the next low two bits. */
  lemma OneOfThreeColumns(l0: int, l1: int, f0: int, f1: int)
    requires 0 <= l0 < 8 && 0 <= l1 < 8
    requires f0 == (l0 - Digit(l0, l1)) / 2 % 4 && f1 == (l1 - Digit(l1, l0)) / 2 % 4
    ensures (l0 % 2 == 0 && l1 % 2 == 0) || (f0 % 2 == f1 % 2)
         || (f0 % 2 == 1 && f1 == 0) || (f1 % 2 == 1 && f0 == 0)
  {
    hide Digit;
    if l0 % 2 == 1 && l1 % 2 == 1 {
      NoFlip(l0, l1);
      NoFlip(l1, l0);
    } else if l0 % 2 == 1 {
      OneOdd(l0, l1);
    } else if l1 % 2 == 1 {
      OneOdd(l1, l0);
    }
  }

  /** From any state, one of the next three columns has two zero digits. */
  lemma OneOfThree(s: Pair)
    ensures s.Even() || s.Step().Even() || s.Step().Step().Even()
  {
    hide Digit;
    var t := s.Step();
    var h0 := AfterDigit(s.n0, s.n1 % 8);
    var h1 := AfterDigit(s.n1, s.n0 % 8);
    LowBits(s.n0);
    LowBits(s.n1);
    LowBits(t.n0);
    LowBits(t.n1);
    OneOfThreeColumns(s.n0 % 8, s.n1 % 8, t.n0 % 4, t.n1 % 4);
    if !s.Even() && !t.Even() { NextIsEven(t); }
  }

  lemma QuadParity(a: int, b: int)
    requires a % 4 == b % 4
    ensures a % 2 == b % 2
  {
    assert a == b + 2 * (2 * (a / 4 - b / 4));
  }

  lemma NextHalf(n: nat, m: nat)
    requires (n % 2 == 1 || n % 4 == 0) && m % 4 != 2
    ensures (n - Digit(n % 8, m % 8)) / 2 % 2 == 0
  {
    hide Digit;
    var g := AfterDigit(n, m % 8);
    LowBits(n);
    LowBits(m);
    NoFlip(n % 8, m % 8);
    QuadParity(g, (n % 8 - Digit(n % 8, m % 8)) / 2);
  }

  lemma NextIsEven(t: Pair)
    requires (t.n0 % 2 == 1 || t.n0 % 4 == 0) && t.n1 % 4 != 2 && (t.n1 % 2 == 1 || t.n1 % 4 == 0) && t.n0 % 4 != 2
    ensures t.Step().Even()
  {
    hide Digit;
    NextHalf(t.n0, t.n1);
    NextHalf(t.n1, t.n0);
  }

  /** Two odd numbers in a row: the digit was flipped, the other scalar was even and is odd now. */
  lemma OddTwice(l: int, other: int, f: int, g: int)
    requires 0 <= l < 8 && 0 <= other < 8 && l % 2 == 1 && f % 2 == 1
    requires f == (l - Digit(l, other)) / 2 % 4 && g == (other - Digit(other, l)) / 2 % 4
    ensures other % 2 == 0 && g % 2 == 1 && Digit(l, other) == 2 - f
  {
    if l == 1 {
    } else if l == 3 {
    } else if l == 5 {
    }
  }

  /** Next to an odd scalar the digit follows the low two bits. */
  lemma NextToOdd(l: int, other: int)
    requires 0 <= l < 8 && 0 <= other < 8 && l % 2 == 1 && other % 2 == 1
    ensures Digit(l, other) == 2 - l % 4
  {
  }

  /** Two digits of a scalar in a row that are not zero are equal, and the other scalar has its first digit zero and its second not. */
  lemma NeighbourDigits(n: nat, m: nat, n': nat, m': nat)
    requires n' == (n - Digit(n % 8, m % 8)) / 2 && m' == (m - Digit(m % 8, n % 8)) / 2
    requires n % 2 == 1 && n' % 2 == 1
    ensures Digit(n' % 8, m' % 8) == Digit(n % 8, m % 8) && m % 2 == 0 && m' % 2 == 1
  {
    hide Digit;
    var h := AfterDigit(n, m % 8);
    var g := AfterDigit(m, n % 8);
    LowBits(n);
    LowBits(m);
    LowBits(n');
    LowBits(m');
    OddTwice(n % 8, m % 8, n' % 4, m' % 4);
    NextToOdd(n' % 8, m' % 8);
  }

  /** The bits of x mark the positions of the digit d. */
  ghost predicate Marks(x: nat, ds: seq<int>, d: int) {
    x < Two(|ds|) && forall i | 0 <= i < |ds| :: Bit(x, i) == if ds[i] == d then 1 else 0
  }

  /** The digits, lowest first, that a pair of numbers with one bit per digit stands for. */
  ghost predicate Encodes(up: nat, um: nat, ds: seq<int>) {
    Marks(up, ds, 1) && Marks(um, ds, -1) && forall i | 0 <= i < |ds| :: -1 <= ds[i] <= 1
  }

  lemma AppendBit(x: nat, j: nat, on: bool, i: nat)
    requires x < Two(j) && i <= j
    ensures var y := if on then x + Two(j) else x; y < Two(j + 1) && Bit(y, i) == if i < j then Bit(x, i) else if on then 1 else 0
  {
    hide Two, Bit, Shr;
    TwoMono(j, j + 1);
    SetBit(x, j, i);
    BitSmall(x, j, j);
  }

  lemma AppendMark(x: nat, ds: seq<int>, d: int, e: int)
    requires Marks(x, ds, d)
    ensures Marks(if e == d then x + Two(|ds|) else x, ds + [e], d)
  {
    hide Two, Bit, Shr;
    var j, y := |ds|, if e == d then x + Two(|ds|) else x;
    AppendBit(x, j, e == d, j);
    forall i | 0 <= i < j
      ensures Bit(y, i) == Bit(x, i)
    {
      AppendBit(x, j, e == d, i);
    }
  }

  lemma AppendDigit(up: nat, um: nat, ds: seq<int>, d: int)
    requires Encodes(up, um, ds) && -1 <= d <= 1
    ensures Encodes(if d > 0 then up + Two(|ds|) else up, if d < 0 then um + Two(|ds|) else um, ds + [d])
  {
    hide Two, Bit, Shr, Marks;
    AppendMark(up, ds, 1, d);
    AppendMark(um, ds, -1, d);
  }

  lemma OctAdded(a: int, h: int)
    ensures (a + 8 * h) % 8 == a % 8
  {
  }

  lemma LowThreeBits(w: nat, d: int)
    ensures (w % 8 + d) % 8 == (w + d) % 8
  {
    OctAdded(w % 8 + d, w / 8);
    assert w % 8 + d + 8 * (w / 8) == w + d;
  }

  /** Halving with the carry d does what the digit asks for. */
  lemma HalfStep(w: nat, d: int, l: int, other: int, u: int, d': int)
    requires 0 <= d <= 1 && l == (w % 8 + d) % 8 && 0 <= other < 8 && u == Digit(l, other)
    requires d' == if d + d == 1 + u then 1 - d else d
    ensures l == (w + d) % 8 && 0 <= d' <= 1 && w / 2 + d' == (w + d - u) / 2 && 2 * (w / 2 + d') == w + d - u
  {
    hide Digit;
    LowThreeBits(w, d);
    LowBits(w + d);
    var h, e := w / 2, w % 2;
    assert w == 2 * h + e;
    EvenAdded(e + d, h);
    assert 2 * d' == e + d - u;
  }

  lemma OneDigitMore(k: int, u: int, v: int, t: int, n: int, n': int, d: int)
    requires k == u - v + t * n && 2 * n' == n - d && -1 <= d <= 1
    ensures k == (if d > 0 then u + t else u) - (if d < 0 then v + t else v) + 2 * t * n'
  {
    assert t * n == t * (2 * n' + d);
    assert t * (2 * n' + d) == 2 * t * n' + t * d;
    assert t * d == if d > 0 then t else if d < 0 then -t else 0;
  }

  ghost predicate Disjoint(up: nat, um: nat) {
    forall i: nat :: Bit(up, i) == 0 || Bit(um, i) == 0
  }

  /** Column i has two zero digits. */
  ghost predicate ZeroColumn(u0p: nat, u0m: nat, u1p: nat, u1m: nat, i: nat) {
    Bit(u0p, i) == 0 && Bit(u0m, i) == 0 && Bit(u1p, i) == 0 && Bit(u1m, i) == 0
  }

  /** Of any three consecutive columns at least one is zero in both rows. */
  ghost predicate Sparse(u0p: nat, u0m: nat, u1p: nat, u1m: nat) {
    forall i: nat ::
      ZeroColumn(u0p, u0m, u1p, u1m, i) || ZeroColumn(u0p, u0m, u1p, u1m, i + 1) || ZeroColumn(u0p, u0m, u1p, u1m, i + 2)
  }

  /** Digit i of the row that p and m stand for. */
  ghost function Signed(p: nat, m: nat, i: nat): (d: int)
    ensures -1 <= d <= 1
  {
    Bit(p, i) - Bit(m, i)
  }

  /** Neighbouring digits of the row p, m are never 1 and -1. */
  ghost predicate NoOpposites(p: nat, m: nat) {
    forall i: nat :: Signed(p, m, i) * Signed(p, m, i + 1) != -1
  }

  /** Where two neighbouring digits of the row p, m are not zero, the row q, n has a zero and then a digit that is not. */
  ghost predicate Leaves(p: nat, m: nat, q: nat, n: nat) {
    forall i: nat :: Signed(p, m, i) != 0 && Signed(p, m, i + 1) != 0 ==> Signed(q, n, i) == 0 && Signed(q, n, i + 1) != 0
  }

  /** The joint sparse form: the three conditions of Solinas on two rows of signed digits. */
  ghost predicate JointlySparse(u0p: nat, u0m: nat, u1p: nat, u1m: nat) {
    && Disjoint(u0p, u0m) && Disjoint(u1p, u1m) && Sparse(u0p, u0m, u1p, u1m)
    && NoOpposites(u0p, u0m) && NoOpposites(u1p, u1m)
    && Leaves(u0p, u0m, u1p, u1m) && Leaves(u1p, u1m, u0p, u0m)
  }

  lemma EncodedBits(up: nat, um: nat, ds: seq<int>, i: nat)
    requires Encodes(up, um, ds)
    ensures Bit(up, i) == 0 || Bit(um, i) == 0
    ensures Bit(up, i) == 0 && Bit(um, i) == 0 <==> i >= |ds| || ds[i] == 0
    ensures Signed(up, um, i) == if i < |ds| then ds[i] else 0
  {
    hide Two, Bit;
    if i >= |ds| {
      BitSmall(up, |ds|, i);
      BitSmall(um, |ds|, i);
    }
  }

  lemma StepShrinks(s: Pair)
    ensures s.Step().n0 <= s.n0 && s.Step().n1 <= s.n1
    ensures s.n0 + s.n1 > 0 ==> s.Step().n0 + s.Step().n1 < s.n0 + s.n1
  {
    hide Digit;
    DigitShrinks(s.n0, s.n1 % 8);
    DigitShrinks(s.n1, s.n0 % 8);
  }

  lemma DigitShrinks(n: nat, other: int)
    requires 0 <= other < 8
    ensures var h := (n - Digit(n % 8, other)) / 2; h <= n && (n > 0 ==> h < n)
  {
    hide Digit;
    var u, k, e := Digit(n % 8, other), n / 2, n % 2;
    LowBits(n);
    assert n == 2 * k + e;
    if e == 0 {
      assert u == 0;
    } else if u == 1 {
      assert n - u == 2 * k;
    } else {
      assert n - u == 2 * (k + 1);
      DigitOfOne(n, other);
    }
  }

  lemma DigitOfOne(n: nat, other: int)
    requires 0 <= other < 8
    ensures n == 1 ==> Digit(n % 8, other) == 1
  {
  }

  /** The digits of both scalars, lowest first. */
  function Rows(s: Pair): (ds: (seq<int>, seq<int>))
    ensures |ds.0| == |ds.1|
    decreases s.n0 + s.n1
  {
    if s.n0 == 0 && s.n1 == 0 then ([], []) else
    StepShrinks(s);
    var (r0, r1) := Rows(s.Step());
    ([s.Digit0()] + r0, [s.Digit1()] + r1)
  }

  lemma RowsStep(s: Pair, e0: seq<int>, e1: seq<int>)
    requires s.n0 + s.n1 > 0
    ensures e0 + Rows(s).0 == e0 + [s.Digit0()] + Rows(s.Step()).0
    ensures e1 + Rows(s).1 == e1 + [s.Digit1()] + Rows(s.Step()).1
  {
    hide Digit, Rows;
    RowsUnfold(s);
    OneBetween(e0, s.Digit0(), Rows(s.Step()).0);
    OneBetween(e1, s.Digit1(), Rows(s.Step()).1);
  }

  lemma OneBetween(e: seq<int>, d: int, r: seq<int>)
    ensures e + ([d] + r) == e + [d] + r
  {
  }

  lemma RowsUnfold(s: Pair)
    requires s.n0 + s.n1 > 0
    ensures Rows(s) == ([s.Digit0()] + Rows(s.Step()).0, [s.Digit1()] + Rows(s.Step()).1)
  {
    hide Digit;
  }

  /** Column i has two digits that are not zero. */
  ghost predicate Clash(s: Pair, i: nat) {
    i < |Rows(s).0| && Rows(s).0[i] != 0 && Rows(s).1[i] != 0
  }

  /** Some column has. */
  ghost predicate Clashes(s: Pair) {
    exists i: nat :: Clash(s, i)
  }

  /** The digits are those of a run of states. */
  ghost predicate Run(S: seq<Pair>, d0: seq<int>, d1: seq<int>) {
    && |d0| == |d1| && |S| == |d0| + 1
    && forall i | 0 <= i < |d0| :: S[i + 1] == S[i].Step() && d0[i] == S[i].Digit0() && d1[i] == S[i].Digit1()
  }

  lemma RunIsSparse(u0p: nat, u0m: nat, u1p: nat, u1m: nat, S: seq<Pair>, d0: seq<int>, d1: seq<int>)
    requires Run(S, d0, d1) && Encodes(u0p, u0m, d0) && Encodes(u1p, u1m, d1)
    ensures Disjoint(u0p, u0m) && Disjoint(u1p, u1m) && Sparse(u0p, u0m, u1p, u1m)
  {
    hide Bit, Encodes, Digit;
    forall i: nat
      ensures Bit(u0p, i) == 0 || Bit(u0m, i) == 0
      ensures Bit(u1p, i) == 0 || Bit(u1m, i) == 0
      ensures ZeroColumn(u0p, u0m, u1p, u1m, i) <==> i >= |d0| || S[i].Even()
    {
      EncodedBits(u0p, u0m, d0, i);
      EncodedBits(u1p, u1m, d1, i);
    }
    forall i: nat
      ensures ZeroColumn(u0p, u0m, u1p, u1m, i) || ZeroColumn(u0p, u0m, u1p, u1m, i + 1) || ZeroColumn(u0p, u0m, u1p, u1m, i + 2)
    {
      if i + 2 < |d0| { OneOfThree(S[i]); }
    }
  }

  /** One pair of columns of a run. */
  lemma RunNeighbours(S: seq<Pair>, d0: seq<int>, d1: seq<int>, i: nat)
    requires Run(S, d0, d1) && i + 1 < |d0|
    ensures d0[i] != 0 && d0[i + 1] != 0 ==> d0[i] == d0[i + 1] && d1[i] == 0 && d1[i + 1] != 0
    ensures d1[i] != 0 && d1[i + 1] != 0 ==> d1[i] == d1[i + 1] && d0[i] == 0 && d0[i + 1] != 0
  {
    hide Digit;
    var s, t := S[i], S[i + 1];
    if d0[i] != 0 && d0[i + 1] != 0 { NeighbourDigits(s.n0, s.n1, t.n0, t.n1); }
    if d1[i] != 0 && d1[i + 1] != 0 { NeighbourDigits(s.n1, s.n0, t.n1, t.n0); }
  }

  lemma RunIsJointlySparse(u0p: nat, u0m: nat, u1p: nat, u1m: nat, S: seq<Pair>, d0: seq<int>, d1: seq<int>)
    requires Run(S, d0, d1) && Encodes(u0p, u0m, d0) && Encodes(u1p, u1m, d1)
    ensures JointlySparse(u0p, u0m, u1p, u1m)
  {
    hide Run, Encodes, Signed, Disjoint, Sparse;
    RunIsSparse(u0p, u0m, u1p, u1m, S, d0, d1);
    RunLengths(S, d0, d1);
    forall i: nat
      ensures Signed(u0p, u0m, i) == if i < |d0| then d0[i] else 0
      ensures Signed(u1p, u1m, i) == if i < |d1| then d1[i] else 0
    {
      EncodedBits(u0p, u0m, d0, i);
      EncodedBits(u1p, u1m, d1, i);
    }
    forall i: nat | i + 1 < |d0|
      ensures d0[i] != 0 && d0[i + 1] != 0 ==> d0[i] == d0[i + 1] && d1[i] == 0 && d1[i + 1] != 0
      ensures d1[i] != 0 && d1[i + 1] != 0 ==> d1[i] == d1[i + 1] && d0[i] == 0 && d0[i + 1] != 0
    {
      RunNeighbours(S, d0, d1, i);
    }
  }

  lemma RunLengths(S: seq<Pair>, d0: seq<int>, d1: seq<int>)
    requires Run(S, d0, d1)
    ensures |d0| == |d1|
  {
  }

  // ----- the form is unique -----

  lemma Halved(x: nat, i: nat)
    ensures x == 2 * (x / 2) + Bit(x, 0) && Bit(x / 2, i) == Bit(x, i + 1)
  {
    hide Two;
    TwoStart();
    TwoStep(i);
    Words.DivDiv(x, 2, Two(i));
  }

  lemma HalvedDigit(p: nat, m: nat, i: nat)
    ensures Signed(p / 2, m / 2, i) == Signed(p, m, i + 1)
    ensures Bit(p / 2, i) == Bit(p, i + 1) && Bit(m / 2, i) == Bit(m, i + 1)
  {
    hide Bit;
    Halved(p, i);
    Halved(m, i);
  }

  lemma HalvedRow(p: nat, m: nat, q: nat, n: nat)
    requires Disjoint(p, m) && NoOpposites(p, m) && Leaves(p, m, q, n)
    ensures Disjoint(p / 2, m / 2) && NoOpposites(p / 2, m / 2) && Leaves(p / 2, m / 2, q / 2, n / 2)
  {
    hide Bit, Signed;
    forall i: nat
      ensures Signed(p / 2, m / 2, i) == Signed(p, m, i + 1) && Signed(q / 2, n / 2, i) == Signed(q, n, i + 1)
      ensures Bit(p / 2, i) == Bit(p, i + 1) && Bit(m / 2, i) == Bit(m, i + 1)
    {
      HalvedDigit(p, m, i);
      HalvedDigit(q, n, i);
    }
  }

  lemma HalvedColumn(u0p: nat, u0m: nat, u1p: nat, u1m: nat, i: nat)
    ensures ZeroColumn(u0p / 2, u0m / 2, u1p / 2, u1m / 2, i) == ZeroColumn(u0p, u0m, u1p, u1m, i + 1)
  {
    hide Bit;
    HalvedDigit(u0p, u0m, i);
    HalvedDigit(u1p, u1m, i);
  }

  /** Halving the numbers moves the columns down by one. */
  lemma HalvedRows(u0p: nat, u0m: nat, u1p: nat, u1m: nat)
    requires JointlySparse(u0p, u0m, u1p, u1m)
    ensures JointlySparse(u0p / 2, u0m / 2, u1p / 2, u1m / 2)
  {
    hide Disjoint, NoOpposites, Leaves, ZeroColumn;
    HalvedRow(u0p, u0m, u1p, u1m);
    HalvedRow(u1p, u1m, u0p, u0m);
    forall i: nat
      ensures ZeroColumn(u0p / 2, u0m / 2, u1p / 2, u1m / 2, i) == ZeroColumn(u0p, u0m, u1p, u1m, i + 1)
    {
      HalvedColumn(u0p, u0m, u1p, u1m, i);
    }
  }

  /** The low three digits of a row and what is above them. */
  lemma LowDigits(p: nat, m: nat) returns (h: int)
    ensures p - m == Signed(p, m, 0) + 2 * Signed(p, m, 1) + 4 * Signed(p, m, 2) + 8 * h
  {
    hide Bit;
    Halved(p, 0);
    Halved(p, 1);
    Halved(p / 2, 0);
    Halved(p / 2, 1);
    Halved(p / 2 / 2, 0);
    Halved(m, 0);
    Halved(m, 1);
    Halved(m / 2, 0);
    Halved(m / 2, 1);
    Halved(m / 2 / 2, 0);
    h := p / 2 / 2 / 2 - m / 2 / 2 / 2;
  }

  /** The digit that three low digits a under the conditions leave possible next to the low digits b. */
  lemma ForcedDigit(k: int, k': int, a0: int, a1: int, a2: int, h: int, b0: int, b1: int, b2: int, h': int)
    requires k == a0 + 2 * a1 + 4 * a2 + 8 * h && k' == b0 + 2 * b1 + 4 * b2 + 8 * h'
    requires -1 <= a0 <= 1 && -1 <= a1 <= 1 && -1 <= a2 <= 1 && -1 <= b0 <= 1 && -1 <= b1 <= 1 && -1 <= b2 <= 1
    requires (a0 == 0 && b0 == 0) || (a1 == 0 && b1 == 0) || (a2 == 0 && b2 == 0)
    requires a0 * a1 != -1 && (a0 != 0 && a1 != 0 ==> b0 == 0 && b1 != 0)
    requires b0 * b1 != -1 && (b0 != 0 && b1 != 0 ==> a0 == 0 && a1 != 0)
    ensures a0 == Digit(k % 8, k' % 8)
  {
    hide Digit;
    Residue(a0 + 2 * a1 + 4 * a2, h);
    Residue(b0 + 2 * b1 + 4 * b2, h');
    LowDigit(a0, a1, a2, b0, b1, b2);
  }

  lemma LowDigit(a0: int, a1: int, a2: int, b0: int, b1: int, b2: int)
    requires -1 <= a0 <= 1 && -1 <= a1 <= 1 && -1 <= a2 <= 1 && -1 <= b0 <= 1 && -1 <= b1 <= 1 && -1 <= b2 <= 1
    requires (a0 == 0 && b0 == 0) || (a1 == 0 && b1 == 0) || (a2 == 0 && b2 == 0)
    requires a0 * a1 != -1 && (a0 != 0 && a1 != 0 ==> b0 == 0 && b1 != 0)
    requires b0 * b1 != -1 && (b0 != 0 && b1 != 0 ==> a0 == 0 && a1 != 0)
    ensures a0 == Digit((a0 + 2 * a1 + 4 * a2) % 8, (b0 + 2 * b1 + 4 * b2) % 8)
  {
    hide Digit;
    var x, y := a0 + 2 * a1 + 4 * a2, b0 + 2 * b1 + 4 * b2;
    if a0 == 0 {
      LowOfEight(x);
    } else if b0 != 0 || b1 == 0 {
      assert x == a0 + 4 * a2;
      assert b0 == 0 ==> y == 4 * b2;
      FourOrOdd(a0, a2, y);
    } else {
      assert a2 == 0 && b2 == 0 && (a1 == 0 || a1 == a0) && y == 2 * b1;
      TwoNext(a0, a1, b1);
    }
  }

  /** A digit next to a number that is even but not a multiple of four. */
  lemma TwoNext(a0: int, a1: int, b1: int)
    requires (a0 == 1 || a0 == -1) && (a1 == 0 || a1 == a0) && (b1 == 1 || b1 == -1)
    ensures a0 == Digit((a0 + 2 * a1) % 8, 2 * b1 % 8)
  {
  }

  lemma LowOfEight(x: int)
    requires x % 2 == 0
    ensures x % 8 % 2 == 0
  {
    EvenAdded(x % 8, 4 * (x / 8));
    assert x % 8 + 2 * (4 * (x / 8)) == x;
  }

  /** A digit followed by a zero, next to a number that is odd or a multiple of four. */
  lemma FourOrOdd(a0: int, a2: int, y: int)
    requires (a0 == 1 || a0 == -1) && -1 <= a2 <= 1 && y % 8 % 4 != 2
    ensures a0 == Digit((a0 + 4 * a2) % 8, y % 8)
  {
  }

  lemma Residue(a: int, h: int)
    ensures (a + 8 * h) % 8 == a % 8
  {
  }

  /** The conditions leave only one choice for the lowest digits of two scalars. */
  lemma LowestIsForced(u0p: nat, u0m: nat, u1p: nat, u1m: nat)
    requires JointlySparse(u0p, u0m, u1p, u1m)
    ensures Signed(u0p, u0m, 0) == Digit((u0p - u0m) % 8, (u1p - u1m) % 8)
    ensures Signed(u1p, u1m, 0) == Digit((u1p - u1m) % 8, (u0p - u0m) % 8)
  {
    hide Digit, Bit;
    var h := LowDigits(u0p, u0m);
    var h' := LowDigits(u1p, u1m);
    var a0, a1, a2 := Signed(u0p, u0m, 0), Signed(u0p, u0m, 1), Signed(u0p, u0m, 2);
    var b0, b1, b2 := Signed(u1p, u1m, 0), Signed(u1p, u1m, 1), Signed(u1p, u1m, 2);
    assert ZeroColumn(u0p, u0m, u1p, u1m, 0) || ZeroColumn(u0p, u0m, u1p, u1m, 1) || ZeroColumn(u0p, u0m, u1p, u1m, 2);
    assert a0 * a1 != -1 && b0 * b1 != -1;
    ForcedDigit(u0p - u0m, u1p - u1m, a0, a1, a2, h, b0, b1, b2, h');
    ForcedDigit(u1p - u1m, u0p - u0m, b0, b1, b2, h', a0, a1, a2, h);
  }

  lemma SameLowest(p: nat, m: nat, q: nat, n: nat)
    requires Disjoint(p, m) && Disjoint(q, n) && Signed(p, m, 0) == Signed(q, n, 0)
    ensures Bit(p, 0) == Bit(q, 0) && Bit(m, 0) == Bit(n, 0)
    ensures p == 2 * (p / 2) + Bit(p, 0) && m == 2 * (m / 2) + Bit(m, 0)
    ensures q == 2 * (q / 2) + Bit(q, 0) && n == 2 * (n / 2) + Bit(n, 0)
  {
    hide Bit;
    Halved(p, 0);
    Halved(m, 0);
    Halved(q, 0);
    Halved(n, 0);
  }

  /** Two scalars have only one joint sparse form: the numbers it stands for determine its bits. */
  lemma {:induction false} FormIsUnique(u0p: nat, u0m: nat, u1p: nat, u1m: nat, v0p: nat, v0m: nat, v1p: nat, v1m: nat)
    requires JointlySparse(u0p, u0m, u1p, u1m) && JointlySparse(v0p, v0m, v1p, v1m)
    requires u0p - u0m == v0p - v0m && u1p - u1m == v1p - v1m
    ensures u0p == v0p && u0m == v0m && u1p == v1p && u1m == v1m
    decreases u0p + u0m + u1p + u1m + v0p + v0m + v1p + v1m
  {
    hide Bit, Signed, Digit, Disjoint, Sparse, NoOpposites, Leaves;
    if u0p + u0m + u1p + u1m + v0p + v0m + v1p + v1m > 0 {
      LowestIsForced(u0p, u0m, u1p, u1m);
      LowestIsForced(v0p, v0m, v1p, v1m);
      SameLowest(u0p, u0m, v0p, v0m);
      SameLowest(u1p, u1m, v1p, v1m);
      HalvedRows(u0p, u0m, u1p, u1m);
      HalvedRows(v0p, v0m, v1p, v1m);
      FormIsUnique(u0p / 2, u0m / 2, u1p / 2, u1m / 2, v0p / 2, v0m / 2, v1p / 2, v1m / 2);
    }
  }

  /**
   * mr_jsf: the joint sparse form of k0 and k1.
   * The carries d0 and d1 stand for what is still owed to the halved copies w2 and w3.
   */
  method Jsf(k0: nat, k1: nat) returns (u0p: nat, u0m: nat, u1p: nat, u1m: nat)
    ensures k0 == u0p - u0m && k1 == u1p - u1m
    ensures JointlySparse(u0p, u0m, u1p, u1m)
    ensures Encodes(u0p, u0m, Rows(Pair(k0, k1)).0) && Encodes(u1p, u1m, Rows(Pair(k0, k1)).1)
  {
    hide Two, Bit, Digit, JointlySparse, Encodes, Run, Rows;
    ghost var rows := Rows(Pair(k0, k1));
    var d0, d1 := 0, 0;
    var w2, w3 := k0, k1;
    u0p, u0m, u1p, u1m := 0, 0, 0, 0;
    var j: nat := 0;
    ghost var S, e0, e1 := [Pair(k0, k1)], [], [];
    StartOfRun(k0, k1);
    while w2 != 0 || d0 != 0 || w3 != 0 || d1 != 0
      invariant 0 <= d0 <= 1 && 0 <= d1 <= 1 && j == |e0| == |e1| && Run(S, e0, e1)
      invariant |S| == j + 1 && S[j] == Pair(w2 + d0, w3 + d1)
      invariant Encodes(u0p, u0m, e0) && Encodes(u1p, u1m, e1)
      invariant rows.0 == e0 + Rows(S[j]).0 && rows.1 == e1 + Rows(S[j]).1
      invariant k0 == u0p - u0m + Two(j) * (w2 + d0)
      invariant k1 == u1p - u1m + Two(j) * (w3 + d1)
      decreases w2 + d0 + w3 + d1
    {
      var l0 := (w2 % 8 + d0) % 8;
      var l1 := (w3 % 8 + d1) % 8;
      var u0, u1 := Digit(l0, l1), Digit(l1, l0);
      RowsStep(S[j], e0, e1);
      w2, d0, u0p, u0m := Row(k0, w2, d0, l0, l1, u0, j, u0p, u0m, e0);
      w3, d1, u1p, u1m := Row(k1, w3, d1, l1, l0, u1, j, u1p, u1m, e1);
      RunStep(S, e0, e1, u0, u1, w2 + d0, w3 + d1);
      S, e0, e1 := S + [Pair(w2 + d0, w3 + d1)], e0 + [u0], e1 + [u1];
      j := j + 1;
    }
    RunIsJointlySparse(u0p, u0m, u1p, u1m, S, e0, e1);
    NoRows();
    assert rows.0 == e0 && rows.1 == e1;
  }

  lemma NoRows()
    ensures Rows(Pair(0, 0)) == ([], [])
  {
  }

  lemma StartOfRun(k0: nat, k1: nat)
    ensures Two(0) == 1 && Encodes(0, 0, []) && Run([Pair(k0, k1)], [], [])
  {
  }

  lemma RunStep(S: seq<Pair>, e0: seq<int>, e1: seq<int>, u0: int, u1: int, m0: nat, m1: nat)
    requires Run(S, e0, e1) && |S| > 0
    requires var s := S[|S| - 1]; u0 == s.Digit0() && u1 == s.Digit1() && s.Step() == Pair(m0, m1)
    ensures Run(S + [Pair(m0, m1)], e0 + [u0], e1 + [u1])
  {
    hide Digit;
  }

  /** One scalar's part of a column: the digit is recorded, the carry updated and the scalar halved. */
  method Row(ghost k: int, w: nat, d: int, l: int, other: int, u: int, j: nat, p: nat, m: nat, ghost ds: seq<int>)
    returns (w': nat, d': int, p': nat, m': nat)
    requires 0 <= d <= 1 && l == (w % 8 + d) % 8 && 0 <= other < 8 && u == Digit(l, other) && j == |ds|
    requires Encodes(p, m, ds) && k == p - m + Two(j) * (w + d)
    ensures 0 <= d' <= 1 && w' + d' == (w + d - u) / 2 && 2 * (w' + d') == w + d - u
    ensures w' + d' <= w + d && (w + d > 0 ==> w' + d' < w + d) && l == (w + d) % 8
    ensures Encodes(p', m', ds + [u]) && k == p' - m' + Two(j + 1) * (w' + d')
  {
    hide Two, Bit, Digit, Encodes;
    AppendDigit(p, m, ds, u);
    p', m' := p, m;
    if u > 0 { p' := p + Two(j); }
    if u < 0 { m' := m + Two(j); }
    d' := if d + d == 1 + u then 1 - d else d;
    w' := w / 2;
    HalfStep(w, d, l, other, u, d');
    HalfShrinks(w + d, l, other, u, w' + d');
    OneDigitMore(k, p, m, Two(j), w + d, w' + d', u);
    TwoStep(j);
  }

  /** Every column makes a scalar smaller until it is zero. */
  lemma HalfShrinks(n: nat, l: int, other: int, u: int, n': int)
    requires l == n % 8 && 0 <= other < 8 && u == Digit(l, other) && 2 * n' == n - u
    ensures n' <= n && (n > 0 ==> n' < n)
  {
  }
}
