/** mrcore.c and mrcurve.c: multiples of points by windowed signed digits and by the joint sparse form. */
module ScalarMultiplication {
  import opened Words
  import opened Bigs
  import opened Bits
  import opened Curves
  import opened CurveBatches
  import opened Groups
  import opened JointSparseForm
  import Field
  import Residues

  // ----- signed digits 3x - x -----

  /** What the digits of bits(3x) - bits(x) at and above position j are worth. */
  function Above(x: nat, j: nat): int {
    Shr(3 * x, j) - Shr(x, j)
  }

  function NafDigit(x: nat, j: nat): (d: int)
    ensures -1 <= d <= 1
  {
    Bit(3 * x, j) - Bit(x, j)
  }

  lemma NafDigitIs(x: nat, j: nat)
    ensures NafDigit(x, j) == Bit(3 * x, j) - Bit(x, j)
  {
  }

  lemma AboveStep(x: nat, j: nat)
    ensures Above(x, j) == 2 * Above(x, j + 1) + NafDigit(x, j)
  {
    ShrStep(3 * x, j);
    ShrStep(x, j);
  }

  /** With the lowest position ignored the digits are worth x. */
  lemma AboveOne(x: nat)
    ensures Above(x, 1) == x
  {
    ShrStep(3 * x, 0);
    ShrStep(x, 0);
    ShrZero(3 * x);
    ShrZero(x);
  }

  lemma AboveTop(x: nat, n: nat)
    requires 3 * x < Two(n)
    ensures Above(x, n) == 0
  {
    ShrSmall(3 * x, n);
    ShrSmall(x, n);
  }

  predicate Odd(r: int) { r % 2 == 1 }

  function Magnitude(r: int): (m: nat)
  {
    if r < 0 then -r else r
  }

  /** r is what the nbs digits from position i down are worth. */
  ghost predicate Window(x: nat, i: nat, nbs: nat, r: int) {
    nbs <= i + 1 && Above(x, i + 1 - nbs) == Two(nbs) * Above(x, i + 1) + r
  }

  lemma ReadDigit(x: nat, i: nat, nbs: nat, r: int)
    requires Window(x, i, nbs, r) && nbs <= i
    ensures Window(x, i, nbs + 1, 2 * r + NafDigit(x, i - nbs))
  {
    hide Above, NafDigit;
    AboveStep(x, i - nbs);
    assert Two(nbs + 1) == 2 * Two(nbs);
    assert 2 * (Two(nbs) * Above(x, i + 1)) == Two(nbs + 1) * Above(x, i + 1);
  }

  lemma {:induction false} AboveSmall(x: nat, j: nat)
    requires j >= 1
    ensures Magnitude(Above(x, j)) <= x
  {
    hide Above, NafDigit;
    if j == 1 {
      AboveOne(x);
    } else {
      AboveSmall(x, j - 1);
      AboveStep(x, j - 1);
    }
  }

  /** With no digits above it a window is worth no more than x. */
  lemma WindowSmall(x: nat, i: nat, nbs: nat, r: int)
    requires Window(x, i, nbs, r) && nbs <= i
    ensures Above(x, i + 1) == 0 ==> Magnitude(r) <= x
  {
    hide Above;
    AboveSmall(x, i + 1 - nbs);
  }

  /** A window down to position 1 with nothing above it is x. */
  lemma WholeWindow(x: nat, i: nat, r: int)
    requires i >= 1 && Window(x, i, i, r)
    ensures Above(x, i + 1) == 0 ==> r == x
  {
    hide Above;
    AboveOne(x);
  }

  /** The first loop of mr_naf_window; `nb` is the last digit read. */
  method Accumulate(x: nat, x3: nat, i: nat, nb0: int, biggest: int) returns (r: int, nbs: nat, j: nat, nb: int, ghost prev: int)
    requires x3 == 3 * x && i > 0 && biggest >= 1 && nb0 == NafDigit(x, i) && nb0 != 0 && Window(x, i, 1, nb0)
    ensures 1 <= nbs <= i && Window(x, i, nbs, r) && r != 0 && -1 <= nb <= 1 && Magnitude(r) < Two(nbs)
    ensures j == 0 ==> Magnitude(r) <= biggest
    ensures j == 0 ==> nbs == i && (Above(x, i + 1) == 0 ==> r == x)
    ensures Above(x, i + 1) == 0 && x <= biggest ==> j == 0
    ensures j != 0 ==> 2 <= nbs && r == 2 * prev + nb && Window(x, i, nbs - 1, prev) && prev != 0 && Magnitude(prev) <= biggest
                         && Magnitude(prev) < Two(nbs - 1)
  {
    hide Shr, Bit, Two, Above, NafDigit, Window;
    nb := nb0;
    r := if nb > 0 then 1 else -1;
    nbs, prev := 1, r;
    TwoStart();
    j := i - 1;
    while j > 0
      invariant j <= i - 1 && nbs == i - j && Window(x, i, nbs, r)
      invariant r != 0 && Magnitude(r) <= biggest && -1 <= nb <= 1 && Magnitude(r) < Two(nbs)
    {
      ReadDigit(x, i, nbs, r);
      TwoStep(nbs);
      prev := r;
      nbs := nbs + 1;
      r := r * 2;
      nb := Bit(x3, j) - Bit(x, j);
      NafDigitIs(x, j);
      if nb > 0 { r := r + 1; }
      if nb < 0 { r := r - 1; }
      if Magnitude(r) > biggest {
        WindowSmall(x, i, nbs, r);
        return;
      }
      j := j - 1;
    }
    WholeWindow(x, i, r);
  }

  lemma FirstWindow(x: nat, i: nat)
    ensures Window(x, i, 1, NafDigit(x, i))
  {
    hide Above, NafDigit;
    AboveStep(x, i);
    TwoStart();
  }

  lemma HalfTimes(r: int, t: int)
    requires r % 2 == 0
    ensures r * t == r / 2 * (2 * t)
  {
    assert r == 2 * (r / 2);
  }

  /** The digits accumulated, without the last one when it makes an odd window too big. */
  method FullWindow(x: nat, x3: nat, i: nat, nb0: int, biggest: int) returns (r: int, nbs: nat)
    requires x3 == 3 * x && i > 0 && biggest >= 1 && nb0 == NafDigit(x, i) && nb0 != 0 && Window(x, i, 1, nb0)
    ensures 1 <= nbs <= i && Window(x, i, nbs, r) && r != 0
    ensures Magnitude(r) < Two(nbs) && (Magnitude(r) <= biggest || (!Odd(r) && Magnitude(r) <= 2 * biggest))
    ensures Above(x, i + 1) == 0 && x <= biggest ==> r == x && nbs == i
  {
    hide Shr, Bit, Above, NafDigit, Window, Two;
    var j, nb;
    ghost var prev;
    r, nbs, j, nb, prev := Accumulate(x, x3, i, nb0, biggest);
    if Odd(r) && j != 0 {
      // too big and odd: give the last digit back
      if nb > 0 { r := (r - 1) / 2; } else { r := (r + 1) / 2; }
      assert r == prev;
      nbs := nbs - 1;
    }
  }

  /**
   * mr_naf_window: the next window of signed digits starting at position i.
   * It is 0 or odd and fits a table of `store` odd multiples; with the trailing zeros it is worth exactly the
   * digits consumed, and a window started above position 0 never reads past position 1. An odd x that fits the
   * table is one window.
   */
  method NafWindow(x: nat, x3: nat, i: nat, store: int) returns (r: int, nbs: nat, nzs: nat)
    requires x3 == 3 * x && store >= 1
    ensures r == 0 || (Odd(r) && Magnitude(r) <= 2 * store - 1)
    ensures nbs >= 1 && nbs + nzs <= i + 1 && (i > 0 ==> nbs + nzs <= i)
    ensures Above(x, i + 1 - nbs - nzs) == Two(nbs + nzs) * Above(x, i + 1) + r * Two(nzs)
    ensures i > 0 && NafDigit(x, i) != 0 && Above(x, i + 1) == 0 && Odd(x) && x <= 2 * store - 1 ==>
              r == x && nbs == i && nzs == 0
  {
    hide Shr, Bit, Above, NafDigit, Window, Two;
    var nb := Bit(x3, i) - Bit(x, i);
    NafDigitIs(x, i);
    AboveStep(x, i);
    TwoStart();
    FirstWindow(x, i);
    nbs, nzs := 1, 0;
    if nb == 0 { return 0, nbs, nzs; }
    if i == 0 { return nb, nbs, nzs; }
    r, nbs := FullWindow(x, x3, i, nb, 2 * store - 1);
    r, nbs, nzs := TrailingZeros(x, i, r, nbs, 2 * store - 1);
  }

  /** The second loop of mr_naf_window: trailing zero digits are not part of the window. */
  method TrailingZeros(x: nat, i: nat, r0: int, nbs0: nat, biggest: int) returns (r: int, nbs: nat, nzs: nat)
    requires 1 <= nbs0 <= i && Window(x, i, nbs0, r0) && r0 != 0
    requires Magnitude(r0) < Two(nbs0) && (Magnitude(r0) <= biggest || (!Odd(r0) && Magnitude(r0) <= 2 * biggest))
    ensures Odd(r) && Magnitude(r) <= biggest && nbs >= 1 && nbs + nzs == nbs0 && (Odd(r0) ==> r == r0 && nzs == 0)
    ensures Above(x, i + 1 - nbs - nzs) == Two(nbs + nzs) * Above(x, i + 1) + r * Two(nzs)
  {
    hide Shr, Bit, Above, NafDigit;
    r, nbs, nzs := r0, nbs0, 0;
    assert Two(0) == 1;
    while !Odd(r)
      invariant r != 0 && nbs >= 1 && nbs + nzs == nbs0 && Magnitude(r) < Two(nbs)
      invariant r * Two(nzs) == r0 && (nzs == 0 ==> r == r0) && (nzs > 0 ==> !Odd(r0))
      invariant Magnitude(r) <= biggest || (!Odd(r) && Magnitude(r) <= 2 * biggest)
      decreases Magnitude(r)
    {
      HalfTimes(r, Two(nzs));
      r := r / 2;
      nzs := nzs + 1;
      nbs := nbs - 1;
    }
  }


  // ----- multiples of points -----

  /** The number of precomputed odd multiples. */
  const MR_ECC_STORE_N := 8

  /** An abelian group whose elements are points that add by chord and tangent. */
  ghost predicate PointsOf<T(!new)>(cv: Curve, g: Group<T>, at: T -> Affine)
    requires cv.c.n > 0
  {
    && Abelian(g) && at(g.zero) == O && (forall x :: at(x) == O ==> x == g.zero)
    && (forall x, y :: at(g.add(x, y)) == Plus(cv.c.n, Residues.Plain(cv.c, cv.A), at(x), at(y)))
    && (forall x :: at(g.neg(x)) == Negated(cv.c.n, at(x)))
  }

  lemma AtSum<T(!new)>(cv: Curve, g: Group<T>, at: T -> Affine, x: T, y: T)
    requires cv.c.n > 0 && PointsOf(cv, g, at)
    ensures at(g.add(x, y)) == Plus(cv.c.n, Residues.Plain(cv.c, cv.A), at(x), at(y))
    ensures at(g.add(x, y)) == Plus(cv.c.n, Residues.Plain(cv.c, cv.A), at(y), at(x))
  {
    hide Plus, Residues.Plain, Abelian;
    Comm(g, x, y);
  }

  lemma AtNeg<T(!new)>(cv: Curve, g: Group<T>, at: T -> Affine, x: T)
    requires cv.c.n > 0 && PointsOf(cv, g, at)
    ensures at(g.neg(x)) == Negated(cv.c.n, at(x))
  {
    hide Plus, Residues.Plain, Abelian;
  }

  lemma AtZero<T(!new)>(cv: Curve, g: Group<T>, at: T -> Affine, x: T)
    requires cv.c.n > 0 && PointsOf(cv, g, at)
    ensures Abelian(g) && (at(x) == O <==> x == g.zero) && at(g.zero) == O
  {
    hide Plus, Residues.Plain, Abelian;
  }

  /** A point of the curve in use, in coordinates that its coordinate system allows. */
  ghost predicate Fits(cv: Curve, p: Epoint)
    reads p
  {
    p.Valid(cv.c) && (cv.affine ==> p.marker != General)
  }

  /** Repeated doubling. */
  method Doublings<T(!new)>(cv: Curve, pt: Epoint, n: nat,
                            ghost good: bool, ghost g: Group<T>, ghost at: T -> Affine, ghost k: int, ghost x: T)
    requires cv.Valid() && PointsOf(cv, g, at) && Fits(cv, pt) && (good ==> Point(cv.c, pt) == at(Times(g, k, x)))
    modifies pt
    ensures Fits(cv, pt) && (good ==> Point(cv.c, pt) == at(Times(g, Two(n) * k, x)))
    ensures old(pt.marker) == Infinity ==> unchanged(pt)
  {
    hide PointsOf, Abelian, Times, Plus, Twice, Residues.Plain, Denotes;
    assert Two(0) * k == k;
    for j := 0 to n
      invariant Fits(cv, pt) && (good ==> Point(cv.c, pt) == at(Times(g, Two(j) * k, x)))
      invariant old(pt.marker) == Infinity ==> unchanged(pt)
    {
      ghost var y := Times(g, Two(j) * k, x);
      AtZero(cv, g, at, y);
      TimesAdd(g, Two(j) * k, Two(j) * k, x);
      assert Two(j + 1) * k == Two(j) * k + Two(j) * k;
      AtSum(cv, g, at, y, y);
      PlusItself(cv.c.n, Residues.Plain(cv.c, cv.A), at(y));
      PointAtInfinity(cv.c, pt);
      Double(cv, pt);
      PointAtInfinity(cv.c, pt);
    }
  }

  lemma PlusItself(n: int, a: int, s: Affine)
    requires n > 0
    ensures Plus(n, a, s, s) == Twice(n, a, s)
  {
  }

  /** The odd multiples of x. */
  ghost function OddMultiple<T(!new)>(g: Group<T>, k: nat, x: T): T {
    Times(g, 2 * k + 1, x)
  }

  lemma OddMultipleIs<T(!new)>(g: Group<T>, k: nat, x: T)
    ensures OddMultiple(g, k, x) == Times(g, 2 * k + 1, x)
  {
  }

  /** Entry k of a table is the multiple 2k + 1. */
  ghost predicate Multiples<T(!new)>(cv: Curve, g: Group<T>, at: T -> Affine, table: seq<Epoint>, x: T)
    requires cv.c.n > 0
    reads table
  {
    forall k | 0 <= k < |table| :: Point(cv.c, table[k]) == at(OddMultiple(g, k, x))
  }

  ghost predicate AllFit(cv: Curve, table: seq<Epoint>)
    reads table
  {
    Table(cv.c, table) && forall k | 0 <= k < |table| :: cv.affine ==> table[k].marker != General
  }

  /** Fresh points at infinity. */
  method NewTable(cv: Curve, n: nat) returns (table: seq<Epoint>)
    requires cv.Valid()
    ensures |table| == n && fresh(table) && AllFit(cv, table)
    ensures forall k | 0 <= k < n :: table[k].marker == Infinity && table[k].Z == 0
  {
    table := [];
    for i := 0 to n
      invariant |table| == i && fresh(table) && AllFit(cv, table)
      invariant forall k | 0 <= k < i :: table[k].marker == Infinity && table[k].Z == 0
    {
      var p := new Epoint();
      table := table + [p];
    }
  }

  /** One more point added to a copy of another: q becomes r + s. */
  method AddToCopy<T(!new)>(cv: Curve, r: Epoint, s: Epoint, q: Epoint,
                            ghost g: Group<T>, ghost at: T -> Affine, ghost m: int, ghost n: int, ghost x: T)
    requires cv.Valid() && PointsOf(cv, g, at) && Fits(cv, r) && Fits(cv, s) && Fits(cv, q) && q != s
    requires Point(cv.c, r) == at(Times(g, m, x)) && Point(cv.c, s) == at(Times(g, n, x))
    modifies q
    ensures Fits(cv, q) && forall k: nat :: 2 * k + 1 == m + n ==> Point(cv.c, q) == at(OddMultiple(g, k, x))
    ensures old(r.marker == Infinity && s.marker == Infinity) ==> q.marker == Infinity && q.Z == old(q.Z)
  {
    hide PointsOf, Abelian, Times, Plus, Residues.Plain, Denotes;
    AtZero(cv, g, at, x);
    TimesAdd(g, m, n, x);
    AtSum(cv, g, at, Times(g, m, x), Times(g, n, x));
    CopyPoint(cv.c, r, q);
    AddPoint(cv, s, q);
  }

  /** Every entry of an infinite table is infinite and has no Z. */
  ghost predicate Empty(table: seq<Epoint>)
    reads table
  {
    forall k | 0 <= k < |table| :: table[k].marker == Infinity && table[k].Z == 0
  }

  /** The loop of the precomputation: each entry is the one before it plus 2p, which the last entry holds. */
  method FillTable<T(!new)>(cv: Curve, table: seq<Epoint>, ghost g: Group<T>, ghost at: T -> Affine, ghost x: T)
    requires cv.Valid() && PointsOf(cv, g, at) && |table| == MR_ECC_STORE_N && AllFit(cv, table)
    requires Point(cv.c, table[0]) == at(OddMultiple(g, 0, x)) && Point(cv.c, table[|table| - 1]) == at(Times(g, 2, x))
    modifies table
    ensures AllFit(cv, table) && Multiples(cv, g, at, table, x)
    ensures old(Empty(table)) ==> Empty(table)
  {
    hide PointsOf, Abelian, Times, Plus, Residues.Plain, Denotes, Point, OddMultiple;
    var last := MR_ECC_STORE_N - 1;
    for i := 1 to last
      invariant AllFit(cv, table) && Point(cv.c, table[last]) == at(Times(g, 2, x))
      invariant forall k | 0 <= k < i :: Point(cv.c, table[k]) == at(OddMultiple(g, k, x))
      invariant old(Empty(table)) ==> Empty(table)
    {
      OddMultipleIs(g, i - 1, x);
      AddToCopy(cv, table[i - 1], table[last], table[i], g, at, 2 * (i - 1) + 1, 2, x);
      assert Point(cv.c, table[i]) == at(OddMultiple(g, i, x));
    }
    OddMultipleIs(g, last - 1, x);
    AddToCopy(cv, table[last], table[last - 1], table[last], g, at, 2, 2 * (last - 1) + 1, x);
    assert Point(cv.c, table[last]) == at(OddMultiple(g, last, x));
  }

  /** The odd multiples p, 3p, ..., 15p. */
  method OddMultiples<T(!new)>(cv: Curve, pt: Epoint, ghost g: Group<T>, ghost at: T -> Affine, ghost x: T)
    returns (table: seq<Epoint>)
    requires cv.Valid() && PointsOf(cv, g, at) && Fits(cv, pt) && Point(cv.c, pt) == at(x)
    ensures fresh(table) && |table| == MR_ECC_STORE_N && AllFit(cv, table) && Multiples(cv, g, at, table, x)
    ensures pt.marker == Infinity ==> Empty(table)
  {
    hide PointsOf, Abelian, Times, Plus, Residues.Plain, Denotes, Point, OddMultiple, Multiples;
    table := NewTable(cv, MR_ECC_STORE_N);
    TimesOne(g, x) by { AtZero(cv, g, at, x); }
    OddMultipleIs(g, 0, x);
    CopyPoint(cv.c, pt, table[0]);
    CopyPoint(cv.c, table[0], table[MR_ECC_STORE_N - 1]);
    assert Two(1) * 1 == 2;
    Doublings(cv, table[MR_ECC_STORE_N - 1], 1, true, g, at, 1, x);
    FillTable(cv, table, g, at, x);
  }

  // ----- ecurve_mult -----

  /** No entry of the table is the point at infinity. */
  ghost predicate NoOddZero<T(!new)>(g: Group<T>, x: T) {
    forall k | 0 <= k < MR_ECC_STORE_N :: OddMultiple(g, k, x) != g.zero
  }

  lemma FiniteTable<T(!new)>(cv: Curve, g: Group<T>, at: T -> Affine, table: seq<Epoint>, x: T)
    requires cv.Valid() && PointsOf(cv, g, at) && |table| == MR_ECC_STORE_N && Multiples(cv, g, at, table, x)
    ensures AllFinite(table) <==> NoOddZero(g, x)
  {
    hide PointsOf, OddMultiple, Denotes, Plus;
    forall k | 0 <= k < MR_ECC_STORE_N
      ensures table[k].marker != Infinity <==> OddMultiple(g, k, x) != g.zero
    {
      AtZero(cv, g, at, OddMultiple(g, k, x));
      PointAtInfinity(cv.c, table[k]);
      assert Point(cv.c, table[k]) == at(OddMultiple(g, k, x));
    }
  }

  lemma NegatedZero<T(!new)>(g: Group<T>, y: T)
    requires Abelian(g)
    ensures g.neg(y) == g.zero <==> y == g.zero
  {
    hide Abelian;
    NegOfSum(g, y, y);
    Zero(g, g.zero);
    NegUnique(g, g.zero, g.zero);
  }

  /** The table of -x is finite exactly when that of x is. */
  lemma NegatedTable<T(!new)>(g: Group<T>, x: T)
    requires Abelian(g)
    ensures NoOddZero(g, g.neg(x)) <==> NoOddZero(g, x)
  {
    hide Abelian, Times;
    forall k | 0 <= k < MR_ECC_STORE_N
      ensures OddMultiple(g, k, g.neg(x)) == g.zero <==> OddMultiple(g, k, x) == g.zero
    {
      TimesOfNeg(g, 2 * k + 1, x);
      TimesNeg(g, 2 * k + 1, x);
      NegatedZero(g, Times(g, 2 * k + 1, x));
    }
  }

  /** Adding or subtracting the table entry for an odd r; nothing for 0. */
  method AddWindow<T(!new)>(cv: Curve, table: seq<Epoint>, pt: Epoint, r: int,
                            ghost good: bool, ghost g: Group<T>, ghost at: T -> Affine, ghost k: int, ghost x: T)
    requires cv.Valid() && PointsOf(cv, g, at) && Fits(cv, pt) && |table| == MR_ECC_STORE_N && AllFit(cv, table) && pt !in table
    requires good ==> Point(cv.c, pt) == at(Times(g, k, x)) && Multiples(cv, g, at, table, x)
    requires r == 0 || (Odd(r) && Magnitude(r) <= 2 * MR_ECC_STORE_N - 1)
    modifies pt, table
    ensures Fits(cv, pt) && forall j | 0 <= j < |table| :: unchanged(table[j])
    ensures good ==> Point(cv.c, pt) == at(Times(g, k + r, x))
    ensures r > 0 && old(pt.marker) == Infinity ==> pt.marker == old(table[r / 2].marker)
  {
    hide PointsOf, Abelian, Times, Plus, Residues.Plain, Denotes, Point, OddMultiple, Negated;
    AtZero(cv, g, at, x);
    TimesAdd(g, k, r, x);
    TimesNeg(g, -r, x);
    AtSum(cv, g, at, Times(g, k, x), Times(g, r, x));
    if r > 0 {
      OddMultipleIs(g, r / 2, x);
      assert good ==> Point(cv.c, table[r / 2]) == at(OddMultiple(g, r / 2, x));
      AddPoint(cv, table[r / 2], pt);
    }
    if r < 0 {
      OddMultipleIs(g, (-r) / 2, x);
      assert good ==> Point(cv.c, table[(-r) / 2]) == at(OddMultiple(g, (-r) / 2, x));
      AtNeg(cv, g, at, Times(g, -r, x));
      SubPoint(cv, table[(-r) / 2], pt);
    }
  }

  lemma Combine(t: int, u: int, a: int, r: int)
    ensures u * (t * a + r) == t * u * a + r * u
  {
    assert u * (t * a) == t * u * a;
  }

  /** The highest digit is at the top bit of 3x. */
  lemma TopDigit(x: nat)
    requires x >= 1
    ensures BitLength(3 * x) >= 2 && NafDigit(x, BitLength(3 * x) - 1) != 0 && Above(x, BitLength(3 * x)) == 0
  {
    hide Two, BitLength, Above, Shr, Bit;
    var nb := BitLength(3 * x);
    BitLengthBounds(3 * x);
    TwoStart();
    if nb == 1 { assert false; }
    TwoStep(nb - 1);
    AboveTop(x, nb);
    OneTopBit(3 * x, nb - 1);
    BitSmall(x, nb - 1, nb - 1);
    NafDigitIs(x, nb - 1);
  }

  lemma OneTopBit(y: nat, j: nat)
    requires Two(j) <= y < 2 * Two(j)
    ensures Bit(y, j) == 1
  {
    hide Two;
    DivMod(y, Two(j), 1, y - Two(j));
  }

  /** The table has an entry for the multiple n. */
  predicate InTable(n: nat) {
    Odd(n) && n <= 2 * MR_ECC_STORE_N - 1
  }

  /** One pass of the loop of ecurve_mult: a window and the zeros behind it. */
  method TakeWindow<T(!new)>(cv: Curve, w9: nat, i0: nat, table: seq<Epoint>, pt: Epoint,
                             ghost good: bool, ghost g: Group<T>, ghost at: T -> Affine, ghost x: T)
    returns (i: nat)
    requires cv.Valid() && PointsOf(cv, g, at) && Fits(cv, pt) && |table| == MR_ECC_STORE_N && AllFit(cv, table) && pt !in table
    requires i0 >= 1 && (good ==> Point(cv.c, pt) == at(Times(g, Above(w9, i0 + 1), x)) && Multiples(cv, g, at, table, x))
    modifies pt, table
    ensures i < i0 && Fits(cv, pt) && forall j | 0 <= j < |table| :: unchanged(table[j])
    ensures good ==> Point(cv.c, pt) == at(Times(g, Above(w9, i + 1), x))
    ensures (NafDigit(w9, i0) != 0 && Above(w9, i0 + 1) == 0 && InTable(w9) && old(pt.marker) == Infinity) ==>
              i == 0 && pt.marker == old(table[w9 / 2].marker)
  {
    hide PointsOf, Abelian, Times, Two, Shr, Bit, Above, NafDigit, Point, Multiples;
    ghost var a := Above(w9, i0 + 1);
    var nbs, nzs, r;
    r, nbs, nzs := NafWindow(w9, 3 * w9, i0, MR_ECC_STORE_N);
    Doublings(cv, pt, nbs, good, g, at, a, x);
    AddWindow(cv, table, pt, r, good, g, at, Two(nbs) * a, x);
    i := i0 - nbs;
    if nzs > 0 {
      Doublings(cv, pt, nzs, good, g, at, Two(nbs) * a + r, x);
      i := i - nzs;
    }
    TwoAdd(nbs, nzs);
    TwoStart();
    Combine(Two(nbs), Two(nzs), a, r);
    assert nzs == 0 ==> Two(nzs) * (Two(nbs) * a + r) == Two(nbs) * a + r;
  }

  /** The loop of ecurve_mult over the windows of w9. */
  method WindowLoop<T(!new)>(cv: Curve, w9: nat, table: seq<Epoint>, pt: Epoint,
                             ghost good: bool, ghost g: Group<T>, ghost at: T -> Affine, ghost x: T)
    requires cv.Valid() && PointsOf(cv, g, at) && Fits(cv, pt) && |table| == MR_ECC_STORE_N && AllFit(cv, table) && pt !in table
    requires w9 >= 2 && pt.marker == Infinity && (good ==> Multiples(cv, g, at, table, x))
    modifies pt, table
    ensures Fits(cv, pt) && (good ==> Point(cv.c, pt) == at(Times(g, w9, x)))
    ensures InTable(w9) ==> pt.marker == old(table[w9 / 2].marker)
  {
    hide PointsOf, Abelian, Times, Two, Shr, Bit, Above, NafDigit, Point, Multiples, BitLength, Denotes, Plus;
    AtZero(cv, g, at, x);
    TimesOne(g, x) by { AtZero(cv, g, at, x); }
    PointAtInfinity(cv.c, pt);
    TopDigit(w9);
    AboveOne(w9);
    var nb := BitLength(3 * w9);
    var i: nat := nb - 1;
    while i >= 1
      invariant Fits(cv, pt) && forall j | 0 <= j < |table| :: unchanged(table[j])
      invariant good ==> Point(cv.c, pt) == at(Times(g, Above(w9, i + 1), x))
      invariant InTable(w9) ==> (i == nb - 1 && pt.marker == Infinity) || (i == 0 && pt.marker == old(table[w9 / 2].marker))
    {
      i := TakeWindow(cv, w9, i, table, pt, good, g, at, x);
    }
  }

  /** The table of odd multiples, normalised. */
  method NormalTable<T(!new)>(cv: Curve, pt: Epoint, ghost g: Group<T>, ghost at: T -> Affine, ghost x: T)
    returns (table: seq<Epoint>, ok: bool, err: Error)
    requires cv.Valid() && PointsOf(cv, g, at) && Fits(cv, pt) && Point(cv.c, pt) == at(x)
    ensures fresh(table) && |table| == MR_ECC_STORE_N && AllFit(cv, table)
    ensures err == if ok then NoError else DivByZero
    ensures cv.affine || NoOddZero(g, x) ==> ok && Multiples(cv, g, at, table, x)
    ensures !cv.affine && ok ==> forall k | 0 <= k < MR_ECC_STORE_N :: table[k].marker == Normalized
    ensures !cv.affine && pt.marker == Infinity ==> !ok
  {
    hide PointsOf, Abelian, Times, Plus, Residues.Plain, Denotes, OddMultiple, NoOddZero;
    table := OddMultiples(cv, pt, g, at, x);
    FiniteTable(cv, g, at, table, x);
    ghost var was := Points(cv.c, table);
    assert pt.marker == Infinity ==> NoDivisor(cv.c, table) by {
      if pt.marker == Infinity { assert Divisor(cv.c, table[0].Z, table[0].marker) == 0; }
    }
    var work := new int[MR_ECC_STORE_N];
    ok, err := MultiNorm(cv, MR_ECC_STORE_N, work, table);
  }

  /** The copy of pa with the sign of e, and what that does to multiples. */
  lemma SignedScalar<T(!new)>(g: Group<T>, e: int, x: T)
    requires Abelian(g)
    ensures var y := if e < 0 then g.neg(x) else x;
            && Times(g, Magnitude(e), y) == Times(g, e, x) && (NoOddZero(g, y) <==> NoOddZero(g, x))
            && (y == g.zero <==> x == g.zero)
  {
    hide Abelian, Times, NoOddZero;
    NegatedTable(g, x);
    NegatedZero(g, x);
    TimesOfNeg(g, -e, x);
  }

  /**
   * ecurve_mult: pt = e * pa for every integer e, in affine coordinates or when no odd multiple of pa up to 15 is
   * the point at infinity. In projective coordinates the condition is exact for the scalars e that are entries of the
   * table themselves: when e * pa is infinity, normalising the table fails or leaves a point that is not.
   */
  method EcurveMult<T(!new)>(cv: Curve, e: int, pa: Epoint, pt: Epoint,
                             ghost g: Group<T>, ghost at: T -> Affine, ghost x: T) returns (err: Error)
    requires cv.Valid() && PointsOf(cv, g, at) && Fits(cv, pa) && Fits(cv, pt) && Point(cv.c, pa) == at(x)
    modifies pt
    ensures Fits(cv, pt) && err in {NoError, DivByZero}
    ensures err == DivByZero ==> Point(cv.c, pt) == at(if e < 0 then g.neg(x) else x)
    ensures cv.affine || Magnitude(e) < 2 || NoOddZero(g, x) ==> err == NoError && Point(cv.c, pt) == at(Times(g, e, x))
    ensures !cv.affine && Magnitude(e) >= 2 && x == g.zero ==> err == DivByZero
    ensures !cv.affine && Magnitude(e) >= 2 && InTable(Magnitude(e)) && Times(g, e, x) == g.zero ==>
              err == DivByZero || Point(cv.c, pt) != at(Times(g, e, x))
  {
    hide PointsOf, Abelian, Times, Plus, Residues.Plain, Denotes, OddMultiple, NoOddZero, Negated, AllFit;
    AtZero(cv, g, at, x);
    TimesOne(g, x);
    SignedScalar(g, e, x);
    err := NoError;
    if e == 0 {
      SetInfinity(cv.c, pt);
      return;
    }
    var w9 := e;
    CopyPoint(cv.c, pa, pt);
    ghost var y := x;
    if w9 < 0 {
      w9 := -w9;
      AtNeg(cv, g, at, x);
      y := g.neg(x);
      Negate(cv.c, pt);
    }
    TimesOne(g, y);
    if w9 == 1 { return; }
    AtZero(cv, g, at, y);
    PointAtInfinity(cv.c, pt);
    var table, ok;
    table, ok, err := NormalTable(cv, pt, g, at, y);
    if !ok { return; }
    SetInfinity(cv.c, pt);
    WindowLoop(cv, w9, table, pt, cv.affine || NoOddZero(g, y), g, at, y);
    AtZero(cv, g, at, Times(g, e, x));
    PointAtInfinity(cv.c, pt);
  }

  // ----- two multiples at once -----

  /** Two numbers of signed bits: the values at and above a position, scaled to it. */
  ghost function Upper(up: nat, um: nat, j: nat): int {
    Shr(up, j) - Shr(um, j)
  }

  lemma UpperStep(up: nat, um: nat, j: nat)
    ensures Upper(up, um, j) == 2 * Upper(up, um, j + 1) + Bit(up, j) - Bit(um, j)
  {
    hide Shr, Bit;
    ShrStep(up, j);
    ShrStep(um, j);
  }

  /** What the two digits of a column add. */
  ghost function Column<T(!new)>(g: Group<T>, a: int, x1: T, b: int, x2: T): T {
    g.add(Times(g, a, x1), Times(g, b, x2))
  }

  lemma ColumnsAdd<T(!new)>(g: Group<T>, a: int, b: int, c: int, d: int, x1: T, x2: T)
    requires Abelian(g)
    ensures g.add(Column(g, a, x1, b, x2), Column(g, c, x1, d, x2)) == Column(g, a + c, x1, b + d, x2)
  {
    hide Abelian, Times;
    AddPairs(g, a, b, c, d, x1, x2);
  }

  lemma ColumnCases<T(!new)>(g: Group<T>, a: int, x1: T, b: int, x2: T)
    requires Abelian(g) && -1 <= a <= 1 && -1 <= b <= 1
    ensures Column(g, a, x1, b, x2)
            == if a == 0 then (if b == 0 then g.zero else if b == 1 then x2 else g.neg(x2))
               else if b == 0 then (if a == 1 then x1 else g.neg(x1))
               else if a == 1 then (if b == 1 then g.add(x1, x2) else g.add(x1, g.neg(x2)))
               else if b == 1 then g.neg(g.add(x1, g.neg(x2))) else g.neg(g.add(x1, x2))
  {
    hide Abelian, Times;
    TimesOne(g, x1);
    TimesOne(g, x2);
    NegOfSum(g, x1, x2);
    NegOfSum(g, x1, g.neg(x2));
    NegOfSum(g, x2, x2);
    Zero(g, x1);
    Zero(g, g.neg(x1));
    Zero(g, x2);
    Zero(g, g.neg(x2));
    Zero(g, g.zero);
  }

  /** ecurve_add of a known element. */
  method AddKnown<T(!new)>(cv: Curve, p: Epoint, pt: Epoint,
                           ghost good: bool, ghost g: Group<T>, ghost at: T -> Affine, ghost z: T, ghost x: T)
    requires cv.Valid() && PointsOf(cv, g, at) && Fits(cv, p) && Fits(cv, pt) && p != pt
    requires good ==> Point(cv.c, pt) == at(z) && Point(cv.c, p) == at(x)
    modifies pt
    ensures Fits(cv, pt) && (good ==> Point(cv.c, pt) == at(g.add(z, x)))
    ensures old(pt.marker) == Infinity ==> Point(cv.c, pt) == Point(cv.c, p)
  {
    hide PointsOf, Plus, Residues.Plain, Denotes;
    AtSum(cv, g, at, z, x);
    PointAtInfinity(cv.c, pt);
    PlusInfinity(cv.c.n, Residues.Plain(cv.c, cv.A), Point(cv.c, p));
    AddPoint(cv, p, pt);
  }

  /** ecurve_sub of a known element. */
  method SubKnown<T(!new)>(cv: Curve, p: Epoint, pt: Epoint,
                           ghost good: bool, ghost g: Group<T>, ghost at: T -> Affine, ghost z: T, ghost x: T)
    requires cv.Valid() && PointsOf(cv, g, at) && Fits(cv, p) && Fits(cv, pt) && p != pt
    requires good ==> Point(cv.c, pt) == at(z) && Point(cv.c, p) == at(x)
    modifies p`Y, pt
    ensures Fits(cv, p) && p.Y == old(p.Y) && Fits(cv, pt) && (good ==> Point(cv.c, pt) == at(g.add(z, g.neg(x))))
  {
    hide PointsOf, Plus, Residues.Plain, Denotes, Negated;
    AtNeg(cv, g, at, x);
    AtSum(cv, g, at, z, g.neg(x));
    SubPoint(cv, p, pt);
  }

  /** The four points of ecurve_mult2: both operands, their sum and their difference. */
  ghost predicate Four(cv: Curve, ps: seq<Epoint>)
    reads ps
  {
    |ps| == 4 && AllFit(cv, ps)
  }

  ghost predicate Operands<T(!new)>(cv: Curve, ps: seq<Epoint>, at: T -> Affine, x1: T, x2: T)
    requires |ps| == 4 && cv.c.n > 0
    reads ps
  {
    Point(cv.c, ps[0]) == at(x1) && Point(cv.c, ps[1]) == at(x2)
  }

  ghost predicate Sums<T(!new)>(cv: Curve, ps: seq<Epoint>, g: Group<T>, at: T -> Affine, x1: T, x2: T)
    requires |ps| == 4 && cv.c.n > 0
    reads ps
  {
    Point(cv.c, ps[2]) == at(g.add(x1, x2)) && Point(cv.c, ps[3]) == at(g.add(x1, g.neg(x2)))
  }

  /** One column of ecurve_mult2: the precomputed point for the two digits is added or subtracted. */
  method AddColumn<T(!new)>(cv: Curve, ps: seq<Epoint>, pt: Epoint, e1: int, h1: int, e2: int, h2: int,
                            ghost good: bool, ghost g: Group<T>, ghost at: T -> Affine, ghost z: T, ghost x1: T, ghost x2: T)
    requires cv.Valid() && PointsOf(cv, g, at) && Fits(cv, pt) && Four(cv, ps) && pt !in ps
    requires 0 <= e1 <= 1 && 0 <= h1 <= 1 && 0 <= e2 <= 1 && 0 <= h2 <= 1
    requires good ==> Point(cv.c, pt) == at(z) && Operands(cv, ps, at, x1, x2)
    requires good && e1 != h1 && e2 != h2 ==> Sums(cv, ps, g, at, x1, x2)
    modifies pt, ps
    ensures Fits(cv, pt) && forall j | 0 <= j < 4 :: unchanged(ps[j])
    ensures good ==> Point(cv.c, pt) == at(g.add(z, Column(g, h1 - e1, x1, h2 - e2, x2)))
    ensures old(pt.marker) == Infinity && e1 == e2 == 0 && h1 == h2 == 1 ==> Point(cv.c, pt) == Point(cv.c, ps[2])
  {
    hide PointsOf, Abelian, Times, Plus, Residues.Plain, Denotes, Negated, Column;
    AtZero(cv, g, at, z);
    ColumnCases(g, h1 - e1, x1, h2 - e2, x2);
    Zero(g, z);
    if e1 != h1 {
      if e2 == h2 {
        if h1 == 1 { AddKnown(cv, ps[0], pt, good, g, at, z, x1); } else { SubKnown(cv, ps[0], pt, good, g, at, z, x1); }
      } else {
        ghost var s, d := g.add(x1, x2), g.add(x1, g.neg(x2));
        if h1 == 1 {
          if h2 == 1 { AddKnown(cv, ps[2], pt, good, g, at, z, s); } else { AddKnown(cv, ps[3], pt, good, g, at, z, d); }
        } else {
          if h2 == 1 { SubKnown(cv, ps[3], pt, good, g, at, z, d); } else { SubKnown(cv, ps[2], pt, good, g, at, z, s); }
        }
      }
    } else if e2 != h2 {
      if h2 == 1 { AddKnown(cv, ps[1], pt, good, g, at, z, x2); } else { SubKnown(cv, ps[1], pt, good, g, at, z, x2); }
    }
  }

  /** Both rows have a digit other than zero at position i. */
  ghost predicate DoubleColumn(u0p: nat, u0m: nat, u1p: nat, u1m: nat, i: nat) {
    Bit(u0p, i) != Bit(u0m, i) && Bit(u1p, i) != Bit(u1m, i)
  }

  lemma DoubleColumnIs(u0p: nat, u0m: nat, u1p: nat, u1m: nat, i: nat)
    ensures DoubleColumn(u0p, u0m, u1p, u1m, i) <==> Bit(u0p, i) != Bit(u0m, i) && Bit(u1p, i) != Bit(u1m, i)
  {
  }

  lemma ColumnOfClash(u0p: nat, u0m: nat, u1p: nat, u1m: nat, s: Pair, i: nat)
    requires Encodes(u0p, u0m, Rows(s).0) && Encodes(u1p, u1m, Rows(s).1)
    ensures DoubleColumn(u0p, u0m, u1p, u1m, i) <==> Clash(s, i)
  {
    hide Bit, Encodes, Rows;
    EncodedBits(u0p, u0m, Rows(s).0, i);
    EncodedBits(u1p, u1m, Rows(s).1, i);
    BitRange(u0p, u0m, i);
    BitRange(u1p, u1m, i);
  }

  lemma BitRange(up: nat, um: nat, i: nat)
    ensures 0 <= Bit(up, i) <= 1 && 0 <= Bit(um, i) <= 1
  {
  }

  /** One pass of the loop of ecurve_mult2. */
  method TakeColumn<T(!new)>(cv: Curve, ps: seq<Epoint>, pt: Epoint, u0p: nat, u0m: nat, u1p: nat, u1m: nat, bb: nat,
                             ghost good: bool, ghost g: Group<T>, ghost at: T -> Affine, ghost x1: T, ghost x2: T)
    requires cv.Valid() && PointsOf(cv, g, at) && Fits(cv, pt) && Four(cv, ps) && pt !in ps
    requires good ==> Operands(cv, ps, at, x1, x2)
    requires good ==> Point(cv.c, pt) == at(Column(g, Upper(u1p, u1m, bb + 1), x1, Upper(u0p, u0m, bb + 1), x2))
    requires good ==> Sums(cv, ps, g, at, x1, x2) || !DoubleColumn(u0p, u0m, u1p, u1m, bb)
    modifies pt, ps
    ensures Fits(cv, pt) && forall j | 0 <= j < 4 :: unchanged(ps[j])
    ensures good ==> Point(cv.c, pt) == at(Column(g, Upper(u1p, u1m, bb), x1, Upper(u0p, u0m, bb), x2))
    ensures old(pt.marker) == Infinity && Bit(u0m, bb) == Bit(u1m, bb) == 0 && Bit(u0p, bb) == Bit(u1p, bb) == 1 ==>
              Point(cv.c, pt) == Point(cv.c, ps[2])
  {
    hide PointsOf, Abelian, Times, Shr, Bit, Upper, Plus, Residues.Plain, Denotes, Operands, Sums, Twice, Point, Column, DoubleColumn;
    ghost var a, b := Upper(u1p, u1m, bb + 1), Upper(u0p, u0m, bb + 1);
    ghost var z := Column(g, a, x1, b, x2);
    AtZero(cv, g, at, z);
    ColumnsAdd(g, a, b, a, b, x1, x2);
    AtSum(cv, g, at, z, z);
    PlusItself(cv.c.n, Residues.Plain(cv.c, cv.A), at(z));
    Double(cv, pt);
    var e2, h2, e1, h1 := Bit(u0m, bb), Bit(u0p, bb), Bit(u1m, bb), Bit(u1p, bb);
    BitRange(u0p, u0m, bb);
    BitRange(u1p, u1m, bb);
    DoubleColumnIs(u0p, u0m, u1p, u1m, bb);
    AddColumn(cv, ps, pt, e1, h1, e2, h2, good, g, at, g.add(z, z), x1, x2);
    ColumnsAdd(g, a + a, b + b, h1 - e1, h2 - e2, x1, x2);
    UpperStep(u1p, u1m, bb);
    UpperStep(u0p, u0m, bb);
  }

  /** The double-and-add loop over the joint sparse form. */
  method JointLoop<T(!new)>(cv: Curve, ps: seq<Epoint>, pt: Epoint, u0p: nat, u0m: nat, u1p: nat, u1m: nat,
                            ghost good: bool, ghost g: Group<T>, ghost at: T -> Affine, ghost x1: T, ghost x2: T)
    requires cv.Valid() && PointsOf(cv, g, at) && Fits(cv, pt) && Four(cv, ps) && pt !in ps && pt.marker == Infinity
    requires u0m <= u0p && u1m <= u1p && (good ==> Operands(cv, ps, at, x1, x2))
    requires good ==> Sums(cv, ps, g, at, x1, x2) || forall i: nat :: !DoubleColumn(u0p, u0m, u1p, u1m, i)
    modifies pt, ps
    ensures Fits(cv, pt) && forall j | 0 <= j < 4 :: unchanged(ps[j])
    ensures good ==> Point(cv.c, pt) == at(Column(g, u1p - u1m, x1, u0p - u0m, x2))
    ensures u0p == u1p == 1 && u0m == u1m == 0 ==> Point(cv.c, pt) == Point(cv.c, ps[2])
  {
    hide PointsOf, Abelian, Times, Shr, Bit, Two, BitLength, Upper, Plus, Residues.Plain, Denotes, Operands, Sums, DoubleColumn, Column;
    var bb: int := (if u0p >= u1p then BitLength(u0p) else BitLength(u1p)) - 1;
    JointStart(u0p, u0m, u1p, u1m, bb + 1);
    NoColumns(cv, g, at, x1, x2);
    PointAtInfinity(cv.c, pt);
    OneBit();
    while bb >= 0
      invariant bb >= -1 && Fits(cv, pt) && forall j | 0 <= j < 4 :: unchanged(ps[j])
      invariant good ==> Point(cv.c, pt) == at(Column(g, Upper(u1p, u1m, bb + 1), x1, Upper(u0p, u0m, bb + 1), x2))
      invariant u0p == u1p == 1 && u0m == u1m == 0 ==>
                  if bb >= 0 then bb == 0 && pt.marker == Infinity else Point(cv.c, pt) == Point(cv.c, ps[2])
    {
      TakeColumn(cv, ps, pt, u0p, u0m, u1p, u1m, bb, good, g, at, x1, x2);
      bb := bb - 1;
    }
    JointEnd(u0p, u0m, u1p, u1m);
  }

  lemma OneBit()
    ensures BitLength(1) == 1 && Bit(1, 0) == 1 && Bit(0, 0) == 0
  {
  }

  lemma NoColumns<T(!new)>(cv: Curve, g: Group<T>, at: T -> Affine, x1: T, x2: T)
    requires cv.c.n > 0 && PointsOf(cv, g, at)
    ensures at(Column(g, 0, x1, 0, x2)) == O
  {
    hide PointsOf, Abelian, Times;
    AtZero(cv, g, at, x1);
    TimesOne(g, x1);
    TimesOne(g, x2);
    Zero(g, g.zero);
  }

  /** No bit is at or above the length of the larger positive part. */
  lemma JointStart(u0p: nat, u0m: nat, u1p: nat, u1m: nat, n: nat)
    requires u0m <= u0p && u1m <= u1p && n == if u0p >= u1p then BitLength(u0p) else BitLength(u1p)
    ensures Upper(u0p, u0m, n) == 0 && Upper(u1p, u1m, n) == 0
  {
    hide Shr, Two, BitLength;
    BitLengthBounds(if u0p >= u1p then u0p else u1p);
    ShrSmall(u0p, n);
    ShrSmall(u0m, n);
    ShrSmall(u1p, n);
    ShrSmall(u1m, n);
  }

  lemma JointEnd(u0p: nat, u0m: nat, u1p: nat, u1m: nat)
    ensures Upper(u1p, u1m, 0) == u1p - u1m && Upper(u0p, u0m, 0) == u0p - u0m
  {
    ShrZero(u0p);
    ShrZero(u0m);
    ShrZero(u1p);
    ShrZero(u1m);
  }

  /** A normalised copy of p, negated on demand; p itself is normalised too. */
  method NormCopy(cv: Curve, p: Epoint, q: Epoint, negative: bool)
    requires cv.Valid() && Fits(cv, p) && Fits(cv, q) && p != q
    modifies p, q
    ensures Fits(cv, p) && Fits(cv, q) && q.marker != General
    ensures Point(cv.c, p) == old(Point(cv.c, p)) && NormX(cv.c, p) == old(NormX(cv.c, p)) == NormX(cv.c, q)
    ensures Point(cv.c, q) == if negative then Negated(cv.c.n, old(Point(cv.c, p))) else old(Point(cv.c, p))
    ensures old(Point(cv.c, p)) == O ==> Raw(cv.c, p) == old(Raw(cv.c, p)) == Raw(cv.c, q)
  {
    hide Residues.Plain, Denotes, Negated, Residues.Residue, Field.Prime;
    PointAtInfinity(cv.c, p);
    ghost var s := Point(cv.c, p);
    Norm(cv, p);
    PointOfNormalized(cv.c, p);
    Field.ResidueOfPlain(cv.c, p.X);
    CopyPoint(cv.c, p, q);
    if negative { Negate(cv.c, q); }
  }

  /** The signed and normalised operands of ecurve_mult2. */
  method Operated(cv: Curve, p: Epoint, negative: bool, pa: Epoint, negativeA: bool, p1: Epoint, p2: Epoint)
    requires cv.Valid() && Fits(cv, p) && Fits(cv, pa) && Fits(cv, p1) && Fits(cv, p2)
    requires p1 != p2 && p1 != p && p1 != pa && p2 != p && p2 != pa
    modifies p, pa, p1, p2
    ensures Fits(cv, p) && Fits(cv, pa) && Fits(cv, p1) && Fits(cv, p2) && p1.marker != General && p2.marker != General
    ensures Point(cv.c, p1) == if negative then Negated(cv.c.n, old(Point(cv.c, p))) else old(Point(cv.c, p))
    ensures Point(cv.c, p2) == if negativeA then Negated(cv.c.n, old(Point(cv.c, pa))) else old(Point(cv.c, pa))
    ensures RightSums(cv.c, p1, p2) <==> old(RightSums(cv.c, p, pa))
  {
    hide Residues.Plain, Denotes, Negated, Field.Prime, RightFor, NormX, Raw;
    var c := cv.c;
    ghost var X1, X2, s, t, rs, rt := NormX(c, p), NormX(c, pa), Point(c, p), Point(c, pa), Raw(c, p), Raw(c, pa);
    PointIsReduced(c, p);
    PointIsReduced(c, pa);
    RawIsFinite(c, p);
    RawIsFinite(c, pa);
    NormCopy(cv, pa, p2, negativeA);
    NormCopy(cv, p, p1, negative);
    RawIsFinite(c, p1);
    RawIsFinite(c, p2);
    RightForReflected(c.n, X1, X2, s, t, rs, rt, Point(c, p1), Point(c, p2), Raw(c, p1), Raw(c, p2));
  }

  lemma RawIsFinite(c: Residues.Ring, p: Epoint)
    requires c.n > 0
    ensures Raw(c, p).At?
  {
  }

  /** The signed operands of ecurve_mult2 with their sum and difference. */
  method Combinations<T(!new)>(cv: Curve, p: Epoint, negative: bool, pa: Epoint, negativeA: bool,
                               ghost g: Group<T>, ghost at: T -> Affine, ghost x1: T, ghost x2: T) returns (ps: seq<Epoint>)
    requires cv.Valid() && PointsOf(cv, g, at) && Fits(cv, p) && Fits(cv, pa)
    requires at(x1) == if negative then Negated(cv.c.n, Point(cv.c, p)) else Point(cv.c, p)
    requires at(x2) == if negativeA then Negated(cv.c.n, Point(cv.c, pa)) else Point(cv.c, pa)
    modifies p, pa
    ensures Fits(cv, p) && Fits(cv, pa) && fresh(ps) && Four(cv, ps) && Operands(cv, ps, at, x1, x2)
    ensures old(RightSums(cv.c, p, pa)) ==> Sums(cv, ps, g, at, x1, x2)
    ensures !old(RightSums(cv.c, p, pa)) ==> Point(cv.c, ps[2]) != at(g.add(x1, x2))
  {
    hide PointsOf, Abelian, Residues.Plain, Denotes, Negated, Field.Prime, Plus, RightSums, Point;
    AtSum(cv, g, at, x1, x2);
    AtNeg(cv, g, at, x2);
    AtSum(cv, g, at, x1, g.neg(x2));
    ps := NewTable(cv, 4);
    Operated(cv, p, negative, pa, negativeA, ps[0], ps[1]);
    var ok, err := AddSub(cv, ps[0], ps[1], ps[2], ps[3]);
  }

  /**
   * ecurve_mult2: pt = e * p + ea * pa. For e = 0 it is ecurve_mult. Otherwise it is right when the precomputed sum
   * and difference are, or when they are not used because no column of the joint sparse form has two digits; for
   * scalars of 1 and -1, where the sum is all that is used, it is right exactly then.
   */
  method EcurveMult2<T(!new)>(cv: Curve, e: int, p: Epoint, ea: int, pa: Epoint, pt: Epoint,
                              ghost g: Group<T>, ghost at: T -> Affine, ghost x: T, ghost y: T) returns (err: Error)
    requires cv.Valid() && PointsOf(cv, g, at) && Fits(cv, p) && Fits(cv, pa) && Fits(cv, pt)
    requires Point(cv.c, p) == at(x) && Point(cv.c, pa) == at(y)
    modifies p, pa, pt
    ensures Fits(cv, pt) && (e != 0 ==> err == NoError)
    ensures e == 0 && (cv.affine || Magnitude(ea) < 2 || NoOddZero(g, y)) ==> err == NoError
    ensures (if e == 0 then cv.affine || Magnitude(ea) < 2 || NoOddZero(g, y)
             else old(RightSums(cv.c, p, pa)) || !Clashes(Pair(Magnitude(ea), Magnitude(e)))) ==>
              Point(cv.c, pt) == at(g.add(Times(g, e, x), Times(g, ea, y)))
    ensures Magnitude(e) == Magnitude(ea) == 1 ==>
              (Point(cv.c, pt) == at(g.add(Times(g, e, x), Times(g, ea, y))) <==> old(RightSums(cv.c, p, pa)))
  {
    hide PointsOf, Abelian, Times, Clashes, Residues.Plain, Denotes, Negated, Field.Prime, Plus, RightSums, NoOddZero,
      Operands, Sums, Column;
    AtZero(cv, g, at, x);
    TimesOne(g, x);
    TimesOne(g, y);
    if e == 0 {
      err := EcurveMult(cv, ea, pa, pt, g, at, y);
      Zero(g, Times(g, ea, y));
      return;
    }
    err := NoError;
    var c := cv.c;
    ghost var right := RightSums(c, p, pa);
    AtNeg(cv, g, at, x);
    AtNeg(cv, g, at, y);
    SignedScalar(g, e, x);
    SignedScalar(g, ea, y);
    ghost var x1, x2 := if e < 0 then g.neg(x) else x, if ea < 0 then g.neg(y) else y;
    TimesOne(g, x1);
    TimesOne(g, x2);
    var ps := Combinations(cv, p, e < 0, pa, ea < 0, g, at, x1, x2);
    SetInfinity(c, pt);
    JointMultiply(cv, ps, pt, Magnitude(ea), Magnitude(e), right, g, at, x1, x2);
    ColumnIs(g, Magnitude(e), x1, Magnitude(ea), x2);
  }

  lemma ColumnIs<T(!new)>(g: Group<T>, a: int, x1: T, b: int, x2: T)
    ensures Column(g, a, x1, b, x2) == g.add(Times(g, a, x1), Times(g, b, x2))
  {
  }

  /** The joint sparse form of w9 and w12 and the loop over it. */
  method JointMultiply<T(!new)>(cv: Curve, ps: seq<Epoint>, pt: Epoint, w9: nat, w12: nat,
                                ghost right: bool, ghost g: Group<T>, ghost at: T -> Affine, ghost x1: T, ghost x2: T)
    requires cv.Valid() && PointsOf(cv, g, at) && Fits(cv, pt) && Four(cv, ps) && pt !in ps && pt.marker == Infinity
    requires Operands(cv, ps, at, x1, x2) && (right ==> Sums(cv, ps, g, at, x1, x2))
    modifies pt, ps
    ensures Fits(cv, pt) && forall j | 0 <= j < 4 :: unchanged(ps[j])
    ensures right || !Clashes(Pair(w9, w12)) ==> Point(cv.c, pt) == at(Column(g, w12, x1, w9, x2))
    ensures w9 == w12 == 1 ==> Point(cv.c, pt) == Point(cv.c, ps[2])
  {
    hide PointsOf, JointlySparse, Encodes, Rows, Clash, Operands, Sums, Column, DoubleColumn, Point;
    var u0p, u0m, u1p, u1m := Jsf(w9, w12);
    forall i: nat
      ensures DoubleColumn(u0p, u0m, u1p, u1m, i) <==> Clash(Pair(w9, w12), i)
    {
      ColumnOfClash(u0p, u0m, u1p, u1m, Pair(w9, w12), i);
    }
    if w9 == w12 == 1 { OneEach(u0p, u0m, u1p, u1m); }
    JointLoop(cv, ps, pt, u0p, u0m, u1p, u1m, right || !Clashes(Pair(w9, w12)), g, at, x1, x2);
  }

  /** The joint sparse form of 1 and 1 is a single column. */
  lemma OneEach(u0p: nat, u0m: nat, u1p: nat, u1m: nat)
    requires Encodes(u0p, u0m, Rows(Pair(1, 1)).0) && Encodes(u1p, u1m, Rows(Pair(1, 1)).1)
    ensures u0p == u1p == 1 && u0m == u1m == 0
  {
    hide Bit, Rows, Encodes;
    assert Pair(1, 1).Digit0() == 1 && Pair(1, 1).Digit1() == 1 && Pair(1, 1).Step() == Pair(0, 0);
    NoRows();
    RowsUnfold(Pair(1, 1));
    assert [1] + [] == [1];
    OneMark(u0p, u0m);
    OneMark(u1p, u1m);
  }

  lemma OneMark(up: nat, um: nat)
    requires Encodes(up, um, [1])
    ensures up == 1 && um == 0
  {
    hide Bit;
    TwoStart();
    assert up < 2 && um < 2;
    OneBit();
    assert Bit(up, 0) == 1 && Bit(um, 0) == 0;
  }
}
