/** mpi.c: numbers of at most eight words with a sign and a carry. */
module Mpi {
  import opened Words
  import Bigs

  const MPI_LENGTH: nat := 8

  /** Words at and above `len` may hold anything, and there may be leading zero words below it. */
  class CMpi {
    const w: array<Word>
    var carry: Word
    var neg: bool
    var len: nat

    constructor ()
      ensures Valid() && fresh(w) && len == 0 && !neg
    {
      w := new Word[MPI_LENGTH](i => 0);
      carry, neg, len := 0, false, 0;
    }

    ghost predicate Valid()
      reads this
    {
      w.Length == MPI_LENGTH && len <= MPI_LENGTH
    }

    /** The words in use. */
    ghost function Used(): (s: seq<Word>)
      requires Valid()
      reads this, w
      ensures |s| == len
    {
      w[..len]
    }

    ghost function Abs(): (v: int)
      requires Valid()
      reads this, w
      ensures 0 <= v < Pow(len)
    {
      Val(Used())
    }

    ghost function Value(): int
      requires Valid()
      reads this, w
    {
      if neg then -Abs() else Abs()
    }

    /** The value with the carry as a ninth word. */
    ghost function Total(): int
      requires Valid()
      reads this, w
    {
      if neg then -(Abs() + carry * Pow(MPI_LENGTH)) else Abs() + carry * Pow(MPI_LENGTH)
    }

    /** The unused words below position j are zero. */
    ghost predicate Padded(j: nat)
      requires Valid() && j <= MPI_LENGTH
      reads this, w
    {
      forall k | len <= k < j :: w[k] == 0
    }

    /** CMpi_Assign_d: a one-word number. */
    method AssignD(n: Word)
      requires Valid()
      modifies this, w
      ensures Valid() && Abs() == n && !neg && carry == 0 && len == if n == 0 then 0 else 1
      ensures w[0] == n
    {
      hide Val, Pow;
      neg := false;
      len := if n == 0 then 0 else 1;
      w[0] := n;
      carry := 0;
      Empty();
      Cons(n, []);
      assert w[..1] == [n] + [];
    }
  }

  /** Numbers that may be the same one, but do not share their words otherwise. */
  ghost predicate Distinct(a: CMpi, b: CMpi) {
    a != b ==> a.w != b.w
  }

  function Min(a: nat, b: nat): (m: nat)
    ensures m <= a && m <= b && (m == a || m == b)
  {
    if a < b then a else b
  }

  function Max(a: nat, b: nat): (m: nat)
    ensures m >= a && m >= b && (m == a || m == b)
  {
    if a > b then a else b
  }

  /** The words in use followed by zeros up to n words. */
  ghost function Pad(s: seq<Word>, n: nat): (t: seq<Word>)
    requires |s| <= n
    ensures |t| == n && Val(t) == Val(s)
  {
    var t := s + seq(n - |s|, _ => 0);
    ZeroTail(t, |s|);
    assert t[..|s|] == s;
    t
  }

  /** Column i of an addition: the low word is stored and the rest carried. */
  lemma AddStep(vz: int, d: int, p: int, vx: int, vy: int, xi: int, yi: int, w: int, d': int)
    requires vz + d * p == vx + vy && d + xi + yi == w + d' * B
    ensures (vz + w * p) + d' * (B * p) == (vx + xi * p) + (vy + yi * p)
  {
    assert (d + xi + yi) * p == (w + d' * B) * p;
  }

  /** The columns below i have been added. */
  ghost predicate Added(a: CMpi, X: seq<Word>, Y: seq<Word>, i: nat, d: int)
    requires i <= |X| == |Y| && i <= a.w.Length
    reads a.w
  {
    0 <= d <= 1 && Val(a.w[..i]) + d * Pow(i) == Val(X[..i]) + Val(Y[..i])
  }

  lemma NothingAdded(a: CMpi, X: seq<Word>, Y: seq<Word>)
    requires |X| == |Y|
    ensures Added(a, X, Y, 0, 0)
  {
    assert a.w[..0] == [] && X[..0] == [] && Y[..0] == [];
    Empty();
  }

  lemma AddedMeans(a: CMpi, X: seq<Word>, Y: seq<Word>, i: nat, d: int)
    requires i <= |X| == |Y| && i <= a.w.Length && Added(a, X, Y, i, d)
    ensures 0 <= d <= 1 && Val(a.w[..i]) + d * Pow(i) == Val(X[..i]) + Val(Y[..i])
  {
  }

  /** One column; `sum` is the double word of the addition. */
  method AddColumn(a: CMpi, sum: int, i: nat, ghost X: seq<Word>, ghost Y: seq<Word>, ghost d: int) returns (d': int)
    requires i < |X| == |Y| && i < a.w.Length && Added(a, X, Y, i, d) && sum == d + X[i] + Y[i]
    modifies a.w
    ensures Added(a, X, Y, i + 1, d') && forall k | 0 <= k < a.w.Length && k != i :: a.w[k] == old(a.w[k])
  {
    hide Val, Pow;
    a.w[i] := sum % B;
    d' := sum / B;
    ghost var s := a.w[..];
    assert s[..i] == old(a.w[..i]) && s[..i + 1] == a.w[..i + 1];
    Prefix(s, i);
    Prefix(X, i);
    Prefix(Y, i);
    PowStep(i);
    AddStep(Val(s[..i]), d, Pow(i), Val(X[..i]), Val(Y[..i]), X[i], Y[i], a.w[i], d');
  }

  /** All the columns: both numbers, then what is left of the longer one. */
  method AddColumns(a: CMpi, b: CMpi, ghost X: seq<Word>, ghost Y: seq<Word>) returns (j: nat, d: int)
    requires a.Valid() && b.Valid() && Distinct(a, b)
    requires |X| == |Y| == Max(a.len, b.len) && X == Pad(a.Used(), |X|) && Y == Pad(b.Used(), |X|)
    modifies a.w
    ensures j == |X| && Added(a, X, Y, j, d)
    ensures forall k | j <= k < a.w.Length :: a.w[k] == old(a.w[k])
  {
    hide Val, Pow, Added;
    var i := 0;
    d := 0;
    j := Min(a.len, b.len);
    NothingAdded(a, X, Y);
    assert forall k | 0 <= k < a.len :: X[k] == a.w[k];
    assert forall k | 0 <= k < b.len :: Y[k] == b.w[k];
    while i < j
      invariant i <= j && Added(a, X, Y, i, d)
      invariant forall k | i <= k < a.w.Length :: a.w[k] == old(a.w[k])
      invariant forall k | i <= k < b.len :: b.w[k] == Y[k]
    {
      AddedMeans(a, X, Y, i, d);
      d := AddColumn(a, d + a.w[i] + b.w[i], i, X, Y, d);
      i := i + 1;
    }
    var longer := a.len > b.len;
    j := if longer then a.len else b.len;
    while i < j
      invariant i <= j && Added(a, X, Y, i, d)
      invariant forall k | i <= k < a.w.Length :: a.w[k] == old(a.w[k])
      invariant forall k | i <= k < b.len :: b.w[k] == Y[k]
    {
      d := AddColumn(a, d + (if longer then a.w[i] else b.w[i]), i, X, Y, d);
      i := i + 1;
    }
  }

  /** CMpi_Add for numbers of the same sign: the sum, with a carry when it takes all eight words. */
  method Add(a: CMpi, b: CMpi)
    requires a.Valid() && b.Valid() && Distinct(a, b) && a.neg == b.neg
    modifies a, a.w
    ensures a.Valid() && a.neg == old(a.neg) && a.Abs() + a.carry * Pow(MPI_LENGTH) == old(a.Abs()) + old(b.Abs())
    ensures old(Max(a.len, b.len)) <= a.len && 0 <= a.carry <= 1 && (a.carry > 0 ==> a.len == MPI_LENGTH)
    ensures a.len > old(Max(a.len, b.len)) ==> a.len == old(Max(a.len, b.len)) + 1 && a.w[a.len - 1] != 0
    ensures a != b ==> b.Valid() && b.Abs() == old(b.Abs())
  {
    hide Val, Pow, Added;
    ghost var n := Max(a.len, b.len);
    ghost var X, Y := Pad(a.Used(), n), Pad(b.Used(), n);
    a.carry := 0;
    var j, d := AddColumns(a, b, X, Y);
    assert X[..n] == X && Y[..n] == Y;
    AddedMeans(a, X, Y, j, d);
    if j == MPI_LENGTH {
      a.carry := d;
      a.len := j;
    } else {
      ghost var s := a.w[..j];
      a.w[j] := d;
      assert a.w[..j] == s && a.w[..j + 1] == s + [d];
      Snoc(s, d);
      a.len := if a.w[j] != 0 then j + 1 else j;
      assert 0 * Pow(MPI_LENGTH) == 0 && (d == 0 ==> d * Pow(j) == 0);
    }
  }

  // ----- comparisons -----

  ghost predicate SameFrom(a: CMpi, b: CMpi, n: nat, i: nat)
    requires a.Valid() && b.Valid() && a.len <= n && b.len <= n && i <= n
    reads a, a.w, b, b.w
  {
    Pad(a.Used(), n)[i..] == Pad(b.Used(), n)[i..]
  }

  lemma PadWord(a: CMpi, n: nat, i: nat)
    requires a.Valid() && a.len <= n && i < n
    ensures Pad(a.Used(), n)[i] == if i < a.len then a.w[i] else 0
  {
  }

  lemma PadWords(a: CMpi, n: nat)
    requires a.Valid() && a.len <= n
    ensures forall k | 0 <= k < n :: Pad(a.Used(), n)[k] == if k < a.len then a.w[k] else 0
  {
  }

  lemma NothingCompared(a: CMpi, b: CMpi, n: nat)
    requires a.Valid() && b.Valid() && a.len <= n && b.len <= n
    ensures SameFrom(a, b, n, n)
  {
  }

  /** A word that differs below equal words decides. */
  lemma Decides(a: CMpi, b: CMpi, n: nat, i: nat)
    requires a.Valid() && b.Valid() && a.len <= n && b.len <= n && i < n && SameFrom(a, b, n, i + 1)
    ensures var x, y := if i < a.len then a.w[i] else 0, if i < b.len then b.w[i] else 0;
            (x > y ==> a.Abs() > b.Abs()) && (x < y ==> a.Abs() < b.Abs()) && (x == y ==> SameFrom(a, b, n, i))
  {
    hide Val, Pow, Pad;
    var X, Y := Pad(a.Used(), n), Pad(b.Used(), n);
    PadWord(a, n, i);
    PadWord(b, n, i);
    if X[i] > Y[i] { Bigs.Differ(X, Y, i); }
    if X[i] < Y[i] { Bigs.Differ(Y, X, i); }
    assert X[i..] == [X[i]] + X[i + 1..] && Y[i..] == [Y[i]] + Y[i + 1..];
  }

  lemma AllSame(a: CMpi, b: CMpi, n: nat)
    requires a.Valid() && b.Valid() && a.len <= n && b.len <= n && SameFrom(a, b, n, 0)
    ensures a.Abs() == b.Abs()
  {
    hide Val, Pow, Pad;
    var X, Y := Pad(a.Used(), n), Pad(b.Used(), n);
    assert X == X[0..] && Y == Y[0..];
  }

  /** CMpi_LargerThan_abs, which ignores leading zero words. */
  method LargerThanAbs(a: CMpi, b: CMpi) returns (r: bool)
    requires a.Valid() && b.Valid()
    ensures r <==> a.Abs() > b.Abs()
  {
    hide Val, Pow, Pad, SameFrom;
    var j := Max(a.len, b.len);
    NothingCompared(a, b, j);
    var i := (j as int) - 1;
    while i >= 0
      invariant -1 <= i < j && SameFrom(a, b, j, i + 1)
    {
      Decides(a, b, j, i);
      if a.len > i && b.len > i {
        if a.w[i] > b.w[i] { return true; }
        if a.w[i] < b.w[i] { return false; }
      } else if a.len <= i {
        if b.w[i] != 0 { return false; }
      } else {
        if a.w[i] != 0 { return true; }
      }
      i := i - 1;
    }
    AllSame(a, b, j);
    r := false;
  }

  /** CMpi_EqualsTo. */
  method EqualsTo(a: CMpi, b: CMpi) returns (r: bool)
    requires a.Valid() && b.Valid()
    ensures r <==> a.Abs() == b.Abs()
  {
    hide Val, Pow, Pad, SameFrom;
    var j := Max(a.len, b.len);
    NothingCompared(a, b, j);
    var i := (j as int) - 1;
    while i >= 0
      invariant -1 <= i < j && SameFrom(a, b, j, i + 1)
    {
      Decides(a, b, j, i);
      if a.len > i && b.len > i {
        if a.w[i] != b.w[i] { return false; }
      } else if a.len <= i {
        if b.w[i] != 0 { return false; }
      } else {
        if a.w[i] != 0 { return false; }
      }
      i := i - 1;
    }
    AllSame(a, b, j);
    r := true;
  }

  /** CMpi_LargerThan, which compares two negative numbers by their magnitudes. */
  method LargerThan(a: CMpi, b: CMpi) returns (r: bool)
    requires a.Valid() && b.Valid()
    ensures r <==> (!a.neg && b.neg) || (a.neg == b.neg && a.Abs() > b.Abs())
  {
    if !a.neg {
      if b.neg { return true; }
      r := LargerThanAbs(a, b);
    } else {
      if !b.neg { return false; }
      r := LargerThanAbs(a, b);
    }
  }

  /**
   * When the comparison is right: not for different negative numbers, and not for a number and its opposite, which
   * are taken to be equal.
   */
  ghost predicate Comparable(a: CMpi, b: CMpi)
    requires a.Valid() && b.Valid()
    reads a, a.w, b, b.w
  {
    if a.Abs() == b.Abs() then a.neg == b.neg || a.Abs() == 0 else !(a.neg && b.neg)
  }

  function SignOf(x: int): (s: int)
    ensures -1 <= s <= 1
  {
    if x == 0 then 0 else if x > 0 then 1 else -1
  }

  /** CMpi_ComparesTo: the sign of a - b exactly when the two are comparable. */
  method ComparesTo(a: CMpi, b: CMpi) returns (r: int)
    requires a.Valid() && b.Valid()
    ensures r == SignOf(a.Value() - b.Value()) <==> Comparable(a, b)
    ensures r == if a.Abs() == b.Abs() then 0 else if (if a.neg == b.neg then a.Abs() > b.Abs() else b.neg) then 1 else -1
  {
    hide Val, Pow;
    var same := EqualsTo(a, b);
    if same { return 0; }
    var larger := LargerThan(a, b);
    r := if larger then 1 else -1;
  }

  /** CMpi_EqualsTo_d; a number without words has no first word to compare. */
  method EqualsToD(a: CMpi, n: Word) returns (r: bool)
    requires a.Valid()
    ensures a.len > 0 || n == 0 ==> (r <==> a.Abs() == n)
  {
    hide Val, Pow;
    Empty();
    ghost var s := a.Used();
    if a.len > 0 {
      assert s == [s[0]] + s[1..];
      Cons(s[0], s[1..]);
    }
    if a.len == 1 && n == a.w[0] { return true; }
    if a.len == 0 && n == 0 { return true; }
    var i := 1;
    while i < a.len
      invariant forall k | 1 <= k < i && k < a.len :: a.w[k] == 0
    {
      if a.w[i] != 0 {
        NonZeroWord(s[1..], i - 1);
        return false;
      }
      i := i + 1;
    }
    if a.len > 0 { Zeros(s[1..]); }
    r := n == a.w[0];
  }

  lemma {:induction false} NonZeroWord(s: seq<Word>, i: nat)
    requires i < |s| && s[i] != 0
    ensures Val(s) > 0
  {
    var n := |s| - 1;
    if i == n { MulMono(1, s[n], Pow(n)); } else { NonZeroWord(s[..n], i); MulNonNeg(s[n], Pow(n)); }
  }

  // ----- subtraction -----

  /** One column of the subtraction with the inverted borrow kept in the upper word. */
  lemma SubtractStep(vz: int, b: int, p: int, vx: int, vy: int, xi: int, yi: int, w: int, b': int)
    requires vz - b * p == vx - vy && xi - b - yi == w - b' * B
    ensures (vz + w * p) - b' * (B * p) == (vx + xi * p) - (vy + yi * p)
  {
    assert (xi - b - yi) * p == (w - b' * B) * p;
  }

  ghost predicate Subtracted(a: CMpi, X: seq<Word>, Y: seq<Word>, i: nat, b: int)
    requires i <= |X| == |Y| && i <= a.w.Length
    reads a.w
  {
    0 <= b <= 1 && Val(a.w[..i]) - b * Pow(i) == Val(X[..i]) - Val(Y[..i])
  }

  lemma NothingSubtracted(a: CMpi, X: seq<Word>, Y: seq<Word>)
    requires |X| == |Y|
    ensures Subtracted(a, X, Y, 0, 0)
  {
    assert a.w[..0] == [] && X[..0] == [] && Y[..0] == [];
    Empty();
  }

  /** The word is stored and the borrow is what the upper word lacks to 1. */
  method SubtractColumn(a: CMpi, direg: int, i: nat, ghost X: seq<Word>, ghost Y: seq<Word>, ghost b: int) returns (rest: int)
    requires i < |X| == |Y| && i < a.w.Length && Subtracted(a, X, Y, i, b) && direg == B + X[i] - b - Y[i]
    modifies a.w
    ensures 0 <= rest <= 1 && Subtracted(a, X, Y, i + 1, 1 - rest)
    ensures forall k | 0 <= k < a.w.Length && k != i :: a.w[k] == old(a.w[k])
  {
    hide Val, Pow;
    a.w[i] := direg % B;
    rest := direg / B;
    ghost var s := a.w[..];
    assert s[..i] == old(a.w[..i]) && s[..i + 1] == a.w[..i + 1];
    Prefix(s, i);
    Prefix(X, i);
    Prefix(Y, i);
    PowStep(i);
    SubtractStep(Val(s[..i]), b, Pow(i), Val(X[..i]), Val(Y[..i]), X[i], Y[i], a.w[i], 1 - rest);
  }

  /** The word above the last one read is the carry field when all eight words are in use. */
  function WordOrCarry(pm: CMpi, i: nat): Word
    requires pm.Valid() && i <= MPI_LENGTH
    reads pm, pm.w
  {
    if i < MPI_LENGTH then pm.w[i] else pm.carry
  }

  /** One column, and the next word of the larger number brought in. */
  method NextColumn(a: CMpi, pm1: CMpi, direg0: int, i: nat, ghost X: seq<Word>, ghost Y: seq<Word>, ghost b: int)
    returns (direg: int, ghost b': int)
    requires pm1.Valid() && i < |X| == |Y| <= MPI_LENGTH && |X| <= a.w.Length && Distinct(a, pm1)
    requires Subtracted(a, X, Y, i, b) && direg0 == B + X[i] - b - Y[i]
    modifies a.w
    ensures Subtracted(a, X, Y, i + 1, b') && direg == B + WordOrCarry(pm1, i + 1) - b'
    ensures forall k | 0 <= k < a.w.Length && k != i :: a.w[k] == old(a.w[k])
  {
    hide Val, Pow, Subtracted;
    var rest := SubtractColumn(a, direg0, i, X, Y, b);
    direg := rest + WordOrCarry(pm1, i + 1) + 0xffff_ffff;
    b' := 1 - rest;
  }

  /** The columns of the larger number minus the smaller one, into either of them. */
  method SubtractColumns(a: CMpi, pm1: CMpi, pm2: CMpi, ghost X: seq<Word>, ghost Y: seq<Word>)
    requires a.Valid() && pm1.Valid() && pm2.Valid() && (a == pm1 || a == pm2) && Distinct(pm1, pm2) && |X| == Max(pm1.len, pm2.len)
    requires pm2.len <= |X| == |Y| <= MPI_LENGTH && X == pm1.w[..|X|] && Y == Pad(pm2.Used(), |X|) && Val(X) >= Val(Y)
    modifies a.w
    ensures Val(a.w[..|X|]) == Val(X) - Val(Y)
  {
    hide Val, Pow, Subtracted, Pad;
    var j, len2 := Max(pm1.len, pm2.len), pm2.len;
    ghost var b := 0;
    var direg: int := B + pm1.w[0];
    NothingSubtracted(a, X, Y);
    PadWords(pm2, j);
    var i := 0;
    while i < len2
      invariant i <= len2 && Subtracted(a, X, Y, i, b) && direg == B + WordOrCarry(pm1, i) - b
      invariant forall k | i <= k < j :: pm1.w[k] == X[k]
      invariant forall k | i <= k < len2 :: pm2.w[k] == Y[k]
    {
      direg, b := NextColumn(a, pm1, direg - pm2.w[i], i, X, Y, b);
      i := i + 1;
    }
    while i < j
      invariant i <= j && Subtracted(a, X, Y, i, b) && direg == B + WordOrCarry(pm1, i) - b
      invariant forall k | i <= k < j :: pm1.w[k] == X[k]
    {
      direg, b := NextColumn(a, pm1, direg, i, X, Y, b);
      i := i + 1;
    }
    NoBorrow(a, X, Y, j, b);
  }

  lemma NoBorrow(a: CMpi, X: seq<Word>, Y: seq<Word>, j: nat, b: int)
    requires j == |X| == |Y| <= a.w.Length && Subtracted(a, X, Y, j, b) && Val(X) >= Val(Y)
    ensures Val(a.w[..j]) == Val(X) - Val(Y)
  {
    hide Val, Pow;
    assert X[..j] == X && Y[..j] == Y;
    assert b == 0;
  }

  /** The words of x up to j are worth x exactly when the unused ones among them are zero. */
  lemma PaddedValue(x: CMpi, j: nat)
    requires x.Valid() && x.len <= j <= MPI_LENGTH
    ensures Val(x.w[..j]) >= x.Abs() && (Val(x.w[..j]) == x.Abs() <==> x.Padded(j))
  {
    hide Val, Pow;
    var s := x.w[..j];
    assert s == s[..x.len] + s[x.len..] && s[..x.len] == x.Used();
    Append(s[..x.len], s[x.len..]);
    var high := s[x.len..];
    if x.Padded(j) {
      Zeros(high);
      assert Pow(x.len) * 0 == 0;
    } else {
      var k :| x.len <= k < j && x.w[k] != 0;
      assert high[k - x.len] == x.w[k];
      NonZeroWord(high, k - x.len);
      MulMono(1, Val(high), Pow(x.len));
    }
    MulNonNeg(Pow(x.len), Val(high));
  }

  /**
   * CMpi_Substract for numbers of the same sign: the difference, with the sign and without leading zero words. All the
   * words of the greater number up to the longer length are read, so it is right exactly when the unused ones are zero.
   */
  method Substract(a: CMpi, b: CMpi)
    requires a.Valid() && b.Valid() && Distinct(a, b) && a.neg == b.neg
    modifies a, a.w
    ensures a.Valid() && a.carry == 0 && a.neg == (if old(a.Abs()) < old(b.Abs()) then !old(a.neg) else old(a.neg))
    ensures a.Abs() == old(var j := Max(a.len, b.len);
                           if a.Abs() < b.Abs() then Val(b.w[..j]) - a.Abs() else Val(a.w[..j]) - b.Abs())
    ensures a.Value() == old(a.Value()) - old(b.Value())
            <==> old(if a.Abs() < b.Abs() then b.Padded(Max(a.len, b.len)) else a.Padded(Max(a.len, b.len)))
    ensures a.len <= old(Max(a.len, b.len)) && (a.len > 0 ==> a.w[a.len - 1] != 0)
  {
    hide Val, Pow;
    ghost var va, vb := a.Abs(), b.Abs();
    a.carry := 0;
    var swap := LargerThanAbs(b, a);
    var j := Max(a.len, b.len);
    if swap {
      PaddedValue(b, j);
      ghost var X, Y := b.w[..j], Pad(a.Used(), j);
      SubtractColumns(a, b, a, X, Y);
      a.neg := !b.neg;
    } else {
      PaddedValue(a, j);
      ghost var X, Y := a.w[..j], Pad(b.Used(), j);
      SubtractColumns(a, a, b, X, Y);
    }
    a.len := j;
    Trim(a);
  }

  /** Leading zero words are dropped from the length. */
  method Trim(a: CMpi)
    requires a.Valid()
    modifies a`len
    ensures a.Valid() && a.Abs() == old(a.Abs()) && a.len <= old(a.len) && (a.len > 0 ==> a.w[a.len - 1] != 0)
  {
    hide Val, Pow;
    ghost var n, s := a.len, a.Used();
    var i := (a.len as int) - 1;
    while i >= 0 && a.w[i] == 0
      invariant -1 <= i < n && a.len == i + 1
      invariant forall k | i < k < n :: a.w[k] == 0
    {
      a.len := i;
      i := i - 1;
    }
    ZeroTail(s, a.len);
    assert s[..a.len] == a.Used();
  }

  // ----- both signs -----

  /** CMpi_Assign: only the words in use are copied. */
  method Assign(a: CMpi, b: CMpi)
    requires a.Valid() && b.Valid() && a != b && a.w != b.w
    modifies b, b.w
    ensures b.Valid() && b.len == a.len && b.neg == a.neg && b.carry == 0 && b.Used() == a.Used()
    ensures forall k | a.len <= k < MPI_LENGTH :: b.w[k] == old(b.w[k])
  {
    b.neg, b.len, b.carry := a.neg, a.len, 0;
    var i := b.len as int - 1;
    while i >= 0
      invariant -1 <= i < a.len && b.len == a.len && b.neg == a.neg && b.carry == 0
      invariant forall k | 0 <= k < MPI_LENGTH :: b.w[k] == if i < k < a.len then a.w[k] else old(b.w[k])
    {
      b.w[i] := a.w[i];
      i := i - 1;
    }
  }

  /** CMpi_Negate into a variable of the caller, whose words were `junk`. */
  method Negate(a: CMpi, junk: seq<Word>) returns (t: CMpi)
    requires a.Valid() && |junk| == MPI_LENGTH
    ensures fresh(t) && fresh(t.w) && t.Valid() && t.len == a.len && t.neg == !a.neg && t.carry == 0 && t.Abs() == a.Abs()
    ensures forall k | a.len <= k < MPI_LENGTH :: t.w[k] == junk[k]
  {
    hide Val, Pow;
    t := new CMpi();
    for i := 0 to MPI_LENGTH
      invariant t.Valid() && fresh(t.w) && forall k | 0 <= k < i :: t.w[k] == junk[k]
    {
      t.w[i] := junk[i];
    }
    Assign(a, t);
    t.neg := !t.neg;
  }

  ghost predicate ZeroBetween(ws: seq<Word>, lo: nat, hi: nat)
    requires hi <= |ws|
  {
    forall k | lo <= k < hi :: ws[k] == 0
  }

  /**
   * When adding numbers of different signs is right: the number of greater magnitude is not shorter, or the words
   * read above it are zero, words of a itself or of a local variable that was never set.
   */
  ghost predicate SumIsRight(a: CMpi, b: CMpi, junk: seq<Word>)
    requires a.Valid() && b.Valid() && |junk| == MPI_LENGTH
    reads a, a.w, b, b.w
  {
    if a.neg == b.neg then true
    else if !a.neg then
      if a.Abs() < b.Abs() then ZeroBetween(junk, b.len, a.len) else a.Padded(Max(a.len, b.len))
    else a.Abs() > b.Abs() ==> ZeroBetween(junk, a.len, b.len)
  }

  /** CMpi_Add for all signs. */
  method AddSigned(a: CMpi, b: CMpi, junk: seq<Word>)
    requires a.Valid() && b.Valid() && Distinct(a, b) && |junk| == MPI_LENGTH
    modifies a, a.w
    ensures a.Valid() && 0 <= a.carry <= 1
    ensures a.Total() == old(a.Value()) + old(b.Value()) <==> old(SumIsRight(a, b, junk))
  {
    hide Val, Pow;
    if a.neg == b.neg {
      Add(a, b);
      return;
    }
    ghost var va, vb, n := a.Abs(), b.Abs(), Max(a.len, b.len);
    if !a.neg {
      var temp := Negate(b, junk);
      Substract(a, temp);
    } else {
      var temp := Negate(a, junk);
      if a.len > b.len && va <= vb { HighWordsAreZero(a, b.len, vb); }
      Assign(b, a);
      assert a.Abs() == vb && b.Abs() == vb;
      Substract(a, temp);
    }
    assert a.carry * Pow(MPI_LENGTH) == 0;
  }

  /** The words of a number above a power it is below are zero. */
  lemma HighWordsAreZero(a: CMpi, n: nat, v: int)
    requires a.Valid() && n <= a.len && a.Abs() <= v < Pow(n)
    ensures forall k | n <= k < a.len :: a.w[k] == 0
  {
    hide Val, Pow;
    var s := a.Used();
    assert s == s[..n] + s[n..];
    Append(s[..n], s[n..]);
    forall k | n <= k < a.len
      ensures a.w[k] == 0
    {
      if a.w[k] != 0 {
        assert s[n..][k - n] == a.w[k];
        NonZeroWord(s[n..], k - n);
        MulMono(1, Val(s[n..]), Pow(n));
      }
    }
  }

  /** CMpi_Substract for all signs. */
  method SubstractSigned(a: CMpi, b: CMpi, junk: seq<Word>)
    requires a.Valid() && b.Valid() && Distinct(a, b) && |junk| == MPI_LENGTH
    modifies a, a.w
    ensures a.Valid() && 0 <= a.carry <= 1
    ensures a.Total() == old(a.Value()) - old(b.Value())
            <==> old(a.neg == b.neg ==>
                       if a.Abs() < b.Abs() then b.Padded(Max(a.len, b.len)) else a.Padded(Max(a.len, b.len)))
  {
    hide Val, Pow;
    a.carry := 0;
    if a.neg != b.neg {
      var temp := Negate(b, junk);
      Add(a, temp);
    } else {
      Substract(a, b);
      assert a.carry * Pow(MPI_LENGTH) == 0;
    }
  }
}
