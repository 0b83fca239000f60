/** mpi.c: products by columns. */
module MpiProduct {
  import opened Words
  import opened Mpi

  // ----- a product is the sum of its columns -----

  function WordProduct(x: Word, y: Word): (p: int)
    ensures 0 <= p <= (B - 1) * (B - 1)
  {
    var u: int := x;
    MulNonNeg(u, y);
    MulMono(u, B - 1, y);
    u * y
  }

  /** The product of word i of s and the word of t that shares column k with it. */
  function Term(s: seq<Word>, t: seq<Word>, k: int, i: int): (p: int)
    ensures 0 <= p <= (B - 1) * (B - 1)
  {
    if 0 <= i < |s| && 0 <= k - i < |t| then WordProduct(s[i], t[k - i]) else 0
  }

  /** The terms of column k for the words from a up to b. */
  function Span(s: seq<Word>, t: seq<Word>, k: int, a: int, b: int): (v: int)
    ensures v >= 0
    decreases b - a
  {
    if b <= a then 0 else Span(s, t, k, a, b - 1) + Term(s, t, k, b - 1)
  }

  ghost function Columns(s: seq<Word>, t: seq<Word>, m: nat): (v: int)
    ensures v >= 0
  {
    if m == 0 then 0
    else
      MulNonNeg(Span(s, t, m - 1, 0, m), Pow(m - 1));
      Columns(s, t, m - 1) + Span(s, t, m - 1, 0, m) * Pow(m - 1)
  }

  lemma WordProductCommutes(x: Word, y: Word)
    ensures WordProduct(x, y) == WordProduct(y, x)
  {
  }

  lemma TermInside(s: seq<Word>, t: seq<Word>, k: int, i: int)
    requires 0 <= i < |s| && 0 <= k - i < |t|
    ensures Term(s, t, k, i) == WordProduct(s[i], t[k - i])
  {
  }

  lemma TermOutside(s: seq<Word>, t: seq<Word>, k: int, i: int)
    requires !(0 <= k - i < |t|)
    ensures Term(s, t, k, i) == 0
  {
  }

  lemma NoSpan(s: seq<Word>, t: seq<Word>, k: int, a: int, b: int)
    requires b <= a
    ensures Span(s, t, k, a, b) == 0
  {
  }

  lemma ColumnsStart(s: seq<Word>, t: seq<Word>)
    ensures Columns(s, t, 0) == 0
  {
  }

  lemma ColumnsStep(s: seq<Word>, t: seq<Word>, k: nat)
    ensures Columns(s, t, k + 1) == Columns(s, t, k) + Span(s, t, k, 0, k + 1) * Pow(k)
  {
  }

  lemma {:induction false} SpanOfPrefix(s: seq<Word>, t: seq<Word>, k: int, b: nat)
    requires s != []
    ensures var n := |s| - 1; Span(s, t, k, 0, b) == Span(s[..n], t, k, 0, b) + if n < b then Term(s, t, k, n) else 0
  {
    var n := |s| - 1;
    if b > 0 {
      SpanOfPrefix(s, t, k, b - 1);
      assert b - 1 != n ==> Term(s, t, k, b - 1) == Term(s[..n], t, k, b - 1);
    }
  }

  function Clamp(m: int, n: nat): (r: nat)
    ensures r <= n && (m <= 0 ==> r == 0) && (m >= n ==> r == n) && (0 <= m <= n ==> r == m)
  {
    if m <= 0 then 0 else if m >= n then n else m
  }

  /** One more word of s adds its row to the columns. */
  lemma {:induction false} OneRow(s: seq<Word>, t: seq<Word>, m: nat)
    requires s != []
    ensures var n := |s| - 1;
            Columns(s, t, m) == Columns(s[..n], t, m) + s[n] * Pow(n) * Val(t[..Clamp(m - n, |t|)])
  {
    hide Val, Pow, Span, Term;
    var n := |s| - 1;
    if m == 0 {
      Empty();
      assert t[..0] == [];
    } else {
      OneRow(s, t, m - 1);
      SpanOfPrefix(s, t, m - 1, m);
      var c, d := Clamp(m - 1 - n, |t|), Clamp(m - n, |t|);
      if m - 1 >= n && m - 1 - n < |t| {
        TermInside(s, t, m - 1, n);
        Prefix(t, c);
        PowAdd(n, c);
        RowStep(Span(s[..n], t, m - 1, 0, m), s[n], t[c], Pow(n), Pow(c), Val(t[..c]));
      } else {
        TermOutside(s, t, m - 1, n);
        assert c == d;
      }
    }
  }

  lemma RowStep(v: int, x: int, y: int, p: int, q: int, u: int)
    ensures (v + x * y) * (p * q) + x * p * u == v * (p * q) + x * p * (u + y * q)
  {
    assert x * y * (p * q) == x * p * (y * q);
  }

  lemma {:induction false} ColumnsAreProduct(s: seq<Word>, t: seq<Word>, m: nat)
    requires m + 1 >= |s| + |t|
    ensures Columns(s, t, m) == Val(s) * Val(t)
  {
    hide Val, Pow, Span, Term, Columns;
    var n := |s| - 1;
    if s == [] {
      NoColumns(t, m);
      Empty();
    } else {
      ColumnsAreProduct(s[..n], t, m);
      OneRow(s, t, m);
      assert t[..|t|] == t && s[..n + 1] == s;
      Prefix(s, n);
      assert (Val(s[..n]) + s[n] * Pow(n)) * Val(t) == Val(s[..n]) * Val(t) + s[n] * Pow(n) * Val(t);
    }
  }

  lemma {:induction false} NoColumns(t: seq<Word>, m: nat)
    ensures Columns([], t, m) == 0
  {
    if m > 0 {
      NoColumns(t, m - 1);
      EmptySpan([], t, m - 1, 0, m);
    }
  }

  lemma {:induction false} EmptySpan(s: seq<Word>, t: seq<Word>, k: int, a: int, b: int)
    requires forall i | a <= i < b :: Term(s, t, k, i) == 0
    ensures Span(s, t, k, a, b) == 0
    decreases b - a
  {
    if a < b { EmptySpan(s, t, k, a, b - 1); }
  }

  lemma {:induction false} SpanJoin(s: seq<Word>, t: seq<Word>, k: int, a: int, b: int, c: int)
    requires a <= b <= c
    ensures Span(s, t, k, a, c) == Span(s, t, k, a, b) + Span(s, t, k, b, c)
    decreases c - b
  {
    if b < c { SpanJoin(s, t, k, a, b, c - 1); }
  }

  // ----- squaring -----

  /** Adding a product, once or twice, to the three-word accumulator of the column. */
  method Accumulate(r0: Word, r1: Word, r2: Word, uv0: int, twice: bool) returns (R0: Word, R1: Word, R2: Word)
    requires 0 <= uv0 <= (B - 1) * (B - 1) && r2 <= 64
    ensures R0 + R1 * B + R2 * (B * B) == r0 + r1 * B + r2 * (B * B) + (if twice then 2 * uv0 else uv0)
    ensures R2 <= r2 + 2
  {
    var uv, carry: int := uv0, r2;
    if twice {
      if uv >= 0x8000_0000_0000_0000 { carry := carry + 1; }
      uv := uv * 2 % 0x1_0000_0000_0000_0000;
    }
    var sum: int := r0;
    sum := sum + uv % B;
    R0 := sum % B;
    sum := sum / B;
    sum := sum + r1;
    sum := sum + uv / B;
    R1 := sum % B;
    sum := sum / B;
    R2 := carry + sum;
  }

  lemma OneTerm(s: seq<Word>, t: seq<Word>, k: int, i: int)
    ensures Span(s, t, k, i, i + 1) == Term(s, t, k, i)
  {
    assert Span(s, t, k, i, i) == 0;
  }

  /** The two terms that the step to the next outer pair adds. */
  lemma OuterPair(x: seq<Word>, k: int, i: int, j: int)
    requires 0 <= i <= j < |x| && i + j == k
    ensures Span(x, x, k, i, j + 1)
            == Span(x, x, k, i + 1, j) + (if i < j then 2 * WordProduct(x[i], x[j]) else WordProduct(x[i], x[j]))
  {
    hide Span, WordProduct;
    OneTerm(x, x, k, i);
    OneTerm(x, x, k, j);
    WordProductCommutes(x[i], x[j]);
    if i < j {
      SpanJoin(x, x, k, i, i + 1, j + 1);
      SpanJoin(x, x, k, i + 1, j, j + 1);
    } else {
      NoSpan(x, x, k, i + 1, j);
    }
  }

  /** The pairs outside the number add nothing to the column. */
  lemma WholeColumn(x: seq<Word>, k: int, i: int, j: int)
    requires -1 <= i < j && i + j == k && (i == -1 || j >= |x|)
    ensures Span(x, x, k, i + 1, j) == Span(x, x, k, 0, k + 1)
  {
    hide Span;
    SpanJoin(x, x, k, 0, i + 1, k + 1);
    SpanJoin(x, x, k, i + 1, j, k + 1);
    EmptySpan(x, x, k, 0, i + 1);
    EmptySpan(x, x, k, j, k + 1);
  }

  /** One column of the square: the pairs from the middle outwards, each counted twice. */
  method SquareColumn(n: CMpi, k: nat, r0: Word, r1: Word) returns (R0: Word, R1: Word, R2: Word)
    requires n.Valid() && k <= 2 * n.len - 2
    ensures R0 + R1 * B + R2 * (B * B) == r0 + r1 * B + Span(n.Used(), n.Used(), k, 0, k + 1)
  {
    hide Val, Pow, Span, Term, WordProduct;
    ghost var x := n.Used();
    R0, R1, R2 := r0, r1, 0;
    var imax := if k / 2 < n.len - 1 then k / 2 else n.len - 1;
    var i := imax as int;
    var j := k - i;
    NoSpan(x, x, k, i + 1, j);
    while i >= 0
      invariant -1 <= i <= imax && j == k - i && i <= j
      invariant R0 + R1 * B + R2 * (B * B) == r0 + r1 * B + Span(x, x, k, i + 1, j)
      invariant R2 <= 2 * (imax - i)
    {
      if j >= n.len { break; }
      var uv := WordProduct(n.w[i], n.w[j]);
      OuterPair(x, k, i, j);
      R0, R1, R2 := Accumulate(R0, R1, R2, uv, i < j);
      i, j := i - 1, j + 1;
    }
    WholeColumn(x, k, i, j);
  }

  lemma ShiftAccumulator(vc: int, p: int, r0: int, r1: int, span: int, R0: int, R1: int, R2: int, total: int)
    requires vc + (r0 + r1 * B) * p == total && R0 + R1 * B + R2 * (B * B) == r0 + r1 * B + span
    ensures (vc + R0 * p) + (R1 + R2 * B) * (B * p) == total + span * p
  {
    assert (R0 + R1 * B + R2 * (B * B)) * p == R0 * p + (R1 + R2 * B) * (B * p);
    assert (r0 + r1 * B + span) * p == (r0 + r1 * B) * p + span * p;
  }

  /** The last word of the accumulator; the one above it is zero because the square fits. */
  lemma LastWord(vc: int, p: int, r0: int, r1: int, total: int)
    requires vc + (r0 + r1 * B) * p == total && 0 <= total < B * p && vc >= 0 && r0 >= 0 && r1 >= 0 && p > 0
    ensures r1 == 0 && vc + r0 * p == total
  {
    if r1 > 0 {
      MulMono(B, r0 + r1 * B, p);
    }
  }

  /** The words of the square. */
  method SquareWords(n: CMpi) returns (c: array<Word>)
    requires n.Valid() && n.len >= 1
    ensures fresh(c) && c.Length == 2 * MPI_LENGTH && Val(c[..2 * n.len]) == n.Abs() * n.Abs()
  {
    hide Val, Pow, Span, Columns;
    ghost var x := n.Used();
    c := new Word[2 * MPI_LENGTH](i => 0);
    var len := n.len * 2;
    var R0: Word, R1: Word, R2: Word := 0, 0, 0;
    Empty();
    assert c[..0] == [];
    ColumnsStart(x, x);
    var k := 0;
    while k < len - 1
      invariant 0 <= k <= len - 1 && n.Valid() && n.len == old(n.len) && n.Used() == x
      invariant Val(c[..k]) + (R0 + R1 * B) * Pow(k) == Columns(x, x, k)
    {
      ghost var r0, r1, s := R0, R1, c[..];
      R0, R1, R2 := SquareColumn(n, k, R0, R1);
      ColumnsStep(x, x, k);
      ShiftAccumulator(Val(c[..k]), Pow(k), r0, r1, Span(x, x, k, 0, k + 1), R0, R1, R2, Columns(x, x, k));
      c[k] := R0;
      assert c[..k] == s[..k];
      Prefix(c[..], k);
      assert c[..][..k] == c[..k] && c[..][..k + 1] == c[..k + 1];
      PowStep(k);
      R0, R1, R2 := R1, R2, 0;
      k := k + 1;
    }
    ColumnsAreProduct(x, x, k);
    SquareBound(Val(x), Pow(n.len));
    PowAdd(n.len, n.len);
    PowStep(k);
    LastWord(Val(c[..k]), Pow(k), R0, R1, Columns(x, x, k));
    ghost var s := c[..k];
    c[len - 1] := R0;
    assert c[..len] == s + [R0];
    Snoc(s, R0);
  }

  lemma SquareBound(v: int, p: int)
    requires 0 <= v < p
    ensures 0 <= v * v < p * p
  {
    MulNonNeg(v, v);
    MulStep(v, p, p);
    MulMono(v, p, v);
  }

  // ----- numbers of sixteen words -----

  /** h * B^8 + l; with anything in h, l uses all its words. */
  class CMpl {
    const h: CMpi
    const l: CMpi

    constructor ()
      ensures Valid() && fresh(h) && fresh(l) && fresh(h.w) && fresh(l.w) && h.len == 0 && l.len == 0
    {
      hide Val, Pow;
      var high := new CMpi();
      var low := new CMpi();
      h, l := high, low;
    }

    /** Two different numbers, of which the lower one has all its words as long as the upper one has any. */
    ghost predicate Formed()
      reads this, h, l
    {
      h != l && h.w != l.w && h.Valid() && l.Valid() && (h.len > 0 ==> l.len == MPI_LENGTH)
    }

    ghost predicate Valid()
      reads this, h, l
    {
      Formed() && !h.neg && !l.neg
    }

    /** The magnitude. */
    ghost function Value(): (v: int)
      requires h.Valid() && l.Valid()
      reads this, h, h.w, l, l.w
      ensures v >= 0
    {
      MulNonNeg(h.Abs(), Pow(MPI_LENGTH));
      l.Abs() + h.Abs() * Pow(MPI_LENGTH)
    }
  }

  method CopyWords(r: array<Word>, from: nat, m: CMpi)
    requires m.Valid() && from + m.len <= r.Length && r != m.w
    modifies m.w
    ensures m.Used() == r[from..from + m.len]
  {
    for i := 0 to m.len
      invariant m.w[..i] == r[from..from + i]
    {
      m.w[i] := r[i + from];
    }
  }

  lemma TwoHalves(s: seq<Word>, n: nat)
    requires MPI_LENGTH <= n <= |s|
    ensures Val(s[..n]) == Val(s[..MPI_LENGTH]) + Val(s[MPI_LENGTH..n]) * Pow(MPI_LENGTH)
  {
    hide Val, Pow;
    var low, high := s[..MPI_LENGTH], s[MPI_LENGTH..n];
    assert s[..n] == low + high;
    Append(low, high);
  }

  /** The first n words of r are stored as the value of c, words 8 and up in its h. */
  method StoreWords(r: array<Word>, n: nat, c: CMpl)
    requires r.Length == 2 * MPI_LENGTH && n <= r.Length
    requires c.h != c.l && c.h.w != c.l.w && c.h.Valid() && c.l.Valid() && r != c.h.w && r != c.l.w
    modifies c.h`len, c.l`len, c.h.w, c.l.w
    ensures c.h.Valid() && c.l.Valid() && c.l.len == Min(n, MPI_LENGTH) && c.h.len == n - c.l.len
    ensures c.l.Used() == r[..c.l.len] && c.h.Used() == r[c.l.len..n]
  {
    hide Val, Pow;
    if n > MPI_LENGTH {
      c.l.len, c.h.len := MPI_LENGTH, n - MPI_LENGTH;
      CopyWords(r, MPI_LENGTH, c.h);
      ghost var high := c.h.Used();
      CopyWords(r, 0, c.l);
      assert c.h.Used() == high;
    } else {
      c.l.len, c.h.len := n, 0;
      CopyWords(r, 0, c.l);
      assert c.h.Used() == [];
    }
  }

  /** The value stored, and the word on top of it. */
  lemma StoredValue(r: seq<Word>, n: nat, c: CMpl)
    requires |r| == 2 * MPI_LENGTH && n <= |r| && c.h.Valid() && c.l.Valid()
    requires c.l.len == Min(n, MPI_LENGTH) && c.h.len == n - c.l.len
    requires c.l.Used() == r[..c.l.len] && c.h.Used() == r[c.l.len..n]
    ensures c.Value() == Val(r[..n])
    ensures c.h.len > 0 ==> c.l.len == MPI_LENGTH && c.h.w[c.h.len - 1] == r[n - 1]
    ensures c.h.len == 0 && c.l.len > 0 ==> c.l.w[c.l.len - 1] == r[n - 1]
  {
    hide Val, Pow;
    Empty();
    if n > MPI_LENGTH {
      TwoHalves(r, n);
      assert c.h.w[c.h.len - 1] == c.h.Used()[c.h.len - 1];
    } else {
      assert c.h.Used() == [];
      assert n > 0 ==> c.l.w[n - 1] == c.l.Used()[n - 1];
    }
  }

  /** CMpi_FastSquare of a number with at least one word. */
  method FastSquare(n: CMpi, n2: CMpl)
    requires n.Valid() && n.len >= 1 && n2.h != n2.l && n2.h.w != n2.l.w && n2.h.Valid() && n2.l.Valid()
    requires n != n2.h && n != n2.l && n.w != n2.h.w && n.w != n2.l.w
    modifies n2.h, n2.h.w, n2.l, n2.l.w
    ensures n2.Valid() && n2.Value() == n.Abs() * n.Abs() && n2.l.carry == n2.h.carry == 0
  {
    hide Val, Pow;
    var c := SquareWords(n);
    n2.l.AssignD(0);
    n2.h.AssignD(0);
    StoreWords(c, n.len * 2, n2);
    StoredValue(c[..], n.len * 2, n2);
    assert c[..][..n.len * 2] == c[..n.len * 2];
  }

  // ----- multiplication -----

  lemma Difference(a: int, b: int, p: int)
    ensures a * p - b * p == (a - b) * p
  {
  }

  lemma SetWord(s: seq<Word>, t: seq<Word>, j: nat)
    requires j < |s| == |t| && s[..j] == t[..j] && s[j + 1..] == t[j + 1..]
    ensures Val(t) == Val(s) + (t[j] as int - s[j]) * Pow(j)
  {
    hide Val, Pow;
    SameTail(s, t, j + 1);
    Prefix(s, j);
    Prefix(t, j);
    Difference(t[j], s[j], Pow(j));
  }

  lemma CarryOn(v: int, sum: int, x: int, w: int, p: int, sum': int)
    requires sum + x == w + sum' * B
    ensures v + (w - x) * p + sum' * (B * p) == v + sum * p
  {
    assert (sum + x) * p == (w + sum' * B) * p;
  }

  /** The double word is added to word j and its upper word kept. */
  method AddDouble(r: array<Word>, j: nat, sum: int) returns (rest: int)
    requires j < r.Length && 0 <= sum
    modifies r
    ensures Val(r[..]) + rest * Pow(j + 1) == old(Val(r[..])) + sum * Pow(j)
    ensures rest == (sum + old(r[j])) / B >= 0
  {
    hide Val, Pow;
    ghost var s := r[..];
    var t := sum + r[j];
    r[j] := t % B;
    rest := t / B;
    assert s[..j] == r[..][..j] && s[j + 1..] == r[..][j + 1..];
    SetWord(s, r[..], j);
    PowStep(j);
    CarryOn(Val(s), sum, s[j], r[j], Pow(j), rest);
  }

  /** A product is added at word k and its carry rippled as far as it goes. */
  method AddAt(r: array<Word>, k: nat, direg: int)
    requires r.Length == 2 * MPI_LENGTH && k + 1 < r.Length && 0 <= direg <= (B - 1) * (B - 1)
    requires Val(r[..]) + direg * Pow(k) < Pow(2 * MPI_LENGTH)
    modifies r
    ensures Val(r[..]) == old(Val(r[..])) + direg * Pow(k)
  {
    hide Val, Pow;
    ghost var total := Val(r[..]) + direg * Pow(k);
    var sum := AddDouble(r, k, direg);
    sum := AddDouble(r, k + 1, sum);
    var j := k + 2;
    while sum != 0
      invariant k + 2 <= j <= r.Length && sum >= 0 && Val(r[..]) + sum * Pow(j) == total
      decreases r.Length - j
    {
      CarryFits(Val(r[..]), sum, Pow(j), total, Pow(2 * MPI_LENGTH));
      sum := AddDouble(r, j, sum);
      j := j + 1;
    }
    assert 0 * Pow(j) == 0;
  }

  lemma CarryFits(v: int, sum: int, p: int, total: int, limit: int)
    requires v >= 0 && sum > 0 && v + sum * p == total < limit && p > 0
    ensures p != limit
  {
    MulMono(1, sum, p);
  }

  lemma {:induction false} ColumnsMono(s: seq<Word>, t: seq<Word>, m: nat, n: nat)
    requires m <= n
    ensures Columns(s, t, m) <= Columns(s, t, n)
  {
    if m < n {
      ColumnsMono(s, t, m, n - 1);
      MulNonNeg(Span(s, t, n - 1, 0, n), Pow(n - 1));
    }
  }

  /** What has been added so far stays within the product, which fits sixteen words. */
  lemma PartFits(s: seq<Word>, t: seq<Word>, k: nat, i: nat)
    requires |s| <= MPI_LENGTH && |t| <= MPI_LENGTH && i <= k < |s| + |t|
    ensures Columns(s, t, k) + Span(s, t, k, 0, i + 1) * Pow(k) < Pow(2 * MPI_LENGTH)
  {
    hide Val, Pow, Span, Columns, Term;
    var m := |s| + |t|;
    ColumnsMono(s, t, k + 1, m);
    ColumnsAreProduct(s, t, m);
    SpanJoin(s, t, k, 0, i + 1, k + 1);
    MulMono(Span(s, t, k, 0, i + 1), Span(s, t, k, 0, k + 1), Pow(k));
    ColumnsStep(s, t, k);
    ProductBound(Val(s), Val(t), Pow(|s|), Pow(|t|));
    PowAdd(|s|, |t|);
    PowMono(m, 2 * MPI_LENGTH);
  }

  lemma ProductBound(u: int, v: int, p: int, q: int)
    requires 0 <= u < p && 0 <= v < q
    ensures 0 <= u * v < p * q
  {
    MulNonNeg(u, v);
    MulStep(u, p, v);
    MulStep(v, q, p);
  }

  /** The words of the product. */
  method ProductWords(a: CMpi, b: CMpi) returns (r: array<Word>)
    requires a.Valid() && b.Valid()
    ensures fresh(r) && r.Length == 2 * MPI_LENGTH && Val(r[..]) == a.Abs() * b.Abs()
  {
    hide Val, Pow, Span, Columns, Term;
    ghost var s, t := a.Used(), b.Used();
    r := new Word[2 * MPI_LENGTH](i => 0);
    var len := a.len + b.len;
    Zeros(r[..]);
    ColumnsStart(s, t);
    for k := 0 to len
      invariant a.Valid() && b.Valid() && a.Used() == s && b.Used() == t
      invariant Val(r[..]) == Columns(s, t, k)
    {
      AddColumnTerms(a, b, r, k);
      ColumnsStep(s, t, k);
    }
    ColumnsAreProduct(s, t, len);
  }

  /** The terms of column k are added one after the other. */
  method AddColumnTerms(a: CMpi, b: CMpi, r: array<Word>, k: nat)
    requires a.Valid() && b.Valid() && k < a.len + b.len && r != a.w && r != b.w && r.Length == 2 * MPI_LENGTH
    requires Val(r[..]) == Columns(a.Used(), b.Used(), k)
    modifies r
    ensures Val(r[..]) == Columns(a.Used(), b.Used(), k) + Span(a.Used(), b.Used(), k, 0, k + 1) * Pow(k)
  {
    hide Val, Pow, Span, Columns, Term, WordProduct;
    ghost var s, t := a.Used(), b.Used();
    NoSpan(s, t, k, 0, 0);
    assert 0 * Pow(k) == 0;
    var i, n := 0, k as int;
    while i <= k
      invariant 0 <= i <= k + 1 && n == k - i && a.Used() == s && b.Used() == t
      invariant Val(r[..]) == Columns(s, t, k) + Span(s, t, k, 0, i) * Pow(k)
    {
      NextTerm(s, t, k, i);
      PartFits(s, t, k, i);
      if a.len > i && b.len > n {
        AddAt(r, k, WordProduct(a.w[i], b.w[n]));
      }
      i, n := i + 1, n - 1;
    }
  }

  lemma NextTerm(s: seq<Word>, t: seq<Word>, k: nat, i: nat)
    requires i <= k
    ensures var e := if i < |s| && k - i < |t| then WordProduct(s[i], t[k - i]) else 0;
            Span(s, t, k, 0, i + 1) * Pow(k) == Span(s, t, k, 0, i) * Pow(k) + e * Pow(k)
  {
    hide WordProduct, Pow;
    var e := if i < |s| && k - i < |t| then WordProduct(s[i], t[k - i]) else 0;
    assert Span(s, t, k, 0, i + 1) == Span(s, t, k, 0, i) + e;
  }

  /** CMpi_Multiply, where the result may overwrite a factor. */
  method Multiply(a: CMpi, b: CMpi, c: CMpl)
    requires a.Valid() && b.Valid() && c.h != c.l && c.h.w != c.l.w && c.h.Valid() && c.l.Valid()
    modifies c.h, c.h.w, c.l, c.l.w
    ensures c.h.Valid() && c.l.Valid() && c.Value() == old(a.Abs()) * old(b.Abs()) && c.l.carry == c.h.carry == 0
    ensures c.h.neg == c.l.neg == old(a.neg != b.neg) && (old(a.neg == b.neg) ==> c.Valid())
    ensures c.h.len > 0 ==> c.l.len == MPI_LENGTH && c.h.w[c.h.len - 1] != 0
    ensures c.h.len == 0 && c.l.len > 0 ==> c.l.w[c.l.len - 1] != 0
  {
    hide Val, Pow;
    var r := ProductWords(a, b);
    var i := 2 * MPI_LENGTH - 1;
    while i >= 0 && r[i] == 0
      invariant -1 <= i < r.Length && forall k | i < k < r.Length :: r[k] == 0
    {
      i := i - 1;
    }
    ZeroTail(r[..], i + 1);
    assert r[..][..i + 1] == r[..i + 1];
    StoreWords(r, i + 1, c);
    StoredValue(r[..], i + 1, c);
    var sign := a.neg != b.neg;
    c.h.neg, c.l.neg := sign, sign;
    c.l.carry, c.h.carry := 0, 0;
  }
}
