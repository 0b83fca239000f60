/** mrcore.c: the representation of big numbers and the routines that only move words about. */
module Bigs {
  import opened Words

  datatype Error = NoError | Overflow | NegResult | DivByZero | BadParameters | BadModulus

  /**
   * A signed big number: `len` words of the fixed buffer `w`, least significant first, and a sign.
   * Every routine relies on the words at and above `len` being zero and on there being no leading zero word.
   */
  class Big {
    const w: array<Word>
    var len: nat
    var neg: bool

    constructor (capacity: nat)
      ensures Valid() && len == 0 && Value() == 0 && w.Length == capacity && fresh(w)
    {
      w := new Word[capacity](i => 0);
      len, neg := 0, false;
    }

    ghost predicate Valid()
      reads this, w
    {
      && Clean(len)
      && (len > 0 ==> w[len - 1] != 0)
      && (neg ==> len > 0)
    }

    /** The words at and above `n` are zero. */
    ghost predicate Clean(n: nat)
      reads w
    {
      n <= w.Length && forall i | n <= i < w.Length :: w[i] == 0
    }

    ghost function Abs(): (v: int)
      requires len <= w.Length
      reads this, w
      ensures v >= 0
    {
      Val(w[..len])
    }

    ghost function Value(): int
      requires len <= w.Length
      reads this, w
    {
      if neg then -Abs() else Abs()
    }

    /** mr_lzero: strip leading zero words; the sign goes with the last of them. */
    method Lzero()
      requires Clean(len)
      modifies this
      ensures Valid() && len <= old(len) && Value() == old(Value())
      ensures neg == (old(neg) && len > 0)
    {
      var m := len;
      while m > 0 && w[m - 1] == 0
        invariant 0 <= m <= len && Clean(m)
      {
        m := m - 1;
      }
      assert w[..len][..m] == w[..m];
      ZeroTail(w[..len], m);
      len := m;
      neg := neg && m > 0;
    }

    /** zero: clear the words in use. */
    method Zero()
      requires Clean(len)
      modifies this, w
      ensures Valid() && len == 0 && Value() == 0
    {
      for i := 0 to len
        invariant len == old(len) && Clean(len)
        invariant forall k | 0 <= k < i :: w[k] == 0
      {
        w[i] := 0;
      }
      len, neg := 0, false;
    }
  }

  /** Distinct numbers have distinct buffers. */
  ghost predicate Apart(x: Big, y: Big) {
    x != y ==> x.w != y.w
  }

  /**
   * The library context: the nominal size of a number in words, the overflow check, the error flag
   * and the two double length workspace numbers that products and quotients are built in.
   */
  class Mip {
    const nib: nat
    const w0: Big
    const w5: Big
    var check: bool
    var ernum: Error

    constructor (nd: nat)
      ensures nib == nd + 1 && check && ernum == NoError
      ensures fresh(w0) && fresh(w5) && w0 != w5 && Apart(w0, w5)
      ensures w0.Valid() && w5.Valid() && w0.w.Length == w5.w.Length == 2 * nib + 1
    {
      nib := nd + 1;
      var t0 := new Big(2 * (nd + 1) + 1);
      var t5 := new Big(2 * (nd + 1) + 1);
      w0, w5 := t0, t5;
      check, ernum := true, NoError;
    }

    ghost predicate Valid()
      reads this
    {
      nib >= 2 && ernum == NoError
    }
  }

  /** copy: y = x, word for word. */
  method Copy(x: Big, y: Big)
    requires x.Clean(x.len) && y.Clean(y.len) && Apart(x, y) && x.len <= y.w.Length
    modifies y, y.w
    ensures y.Clean(y.len) && y.len == x.len && y.neg == x.neg && y.w[..y.len] == x.w[..x.len]
    ensures x.len == old(x.len) && x.neg == old(x.neg) && x.w[..x.len] == old(x.w[..x.len])
    ensures old(x.Valid()) ==> x.Valid() && y.Valid()
    ensures y.Value() == x.Value() == old(x.Value())
    ensures x == y ==> y.w[..] == old(y.w[..])
  {
    if x == y { return; }
    var nx, ny := x.len, y.len;
    for i := nx to if ny < nx then nx else ny
      invariant forall k | ny <= k < y.w.Length :: y.w[k] == 0
      invariant forall k | nx <= k < i :: y.w[k] == 0
    {
      y.w[i] := 0;
    }
    for i := 0 to nx
      invariant y.Clean(nx) && y.w[..i] == x.w[..i]
    {
      y.w[i] := x.w[i];
    }
    y.len, y.neg := x.len, x.neg;
  }

  lemma Longer(s: seq<Word>, t: seq<Word>)
    requires |s| > |t| && s[|s| - 1] != 0
    ensures Val(s) > Val(t)
  {
    hide Val, Pow;
    Leading(s);
    PowMono(|t|, |s| - 1);
  }

  lemma {:induction false} Differ(s: seq<Word>, t: seq<Word>, m: nat)
    requires m < |s| == |t| && s[m + 1..] == t[m + 1..] && s[m] > t[m]
    ensures Val(s) > Val(t)
  {
    var n := |s| - 1;
    if m == n {
      MulStep(t[m], s[m], Pow(m));
      assert Val(s) == Val(s[..m]) + s[m] * Pow(m);
      assert Val(t) == Val(t[..m]) + t[m] * Pow(m);
    } else {
      assert s[..n][m + 1..] == s[m + 1..][..n - m - 1];
      assert t[..n][m + 1..] == t[m + 1..][..n - m - 1];
      assert s[n] == s[m + 1..][n - m - 1] == t[n];
      Differ(s[..n], t[..n], m);
    }
  }

  /** mr_compare: the sign of x - y. */
  method Compare(x: Big, y: Big) returns (r: int)
    requires x.Valid() && y.Valid()
    ensures r == if x.Value() > y.Value() then 1 else if x.Value() < y.Value() then -1 else 0
  {
    if x == y { return 0; }
    NonZero(x);
    NonZero(y);
    var sig := if x.neg then -1 else 1;
    if x.neg != y.neg { return sig; }
    var m, n := x.len, y.len;
    if m > n {
      Longer(x.w[..m], y.w[..n]);
      return sig;
    }
    if m < n {
      Longer(y.w[..n], x.w[..m]);
      return -sig;
    }
    while m > 0
      invariant 0 <= m <= n && x.w[m..n] == y.w[m..n]
    {
      m := m - 1;
      assert x.w[..n][m + 1..] == x.w[m + 1..n] == y.w[m + 1..n] == y.w[..n][m + 1..];
      if x.w[m] > y.w[m] {
        Differ(x.w[..n], y.w[..n], m);
        return sig;
      }
      if x.w[m] < y.w[m] {
        Differ(y.w[..n], x.w[..n], m);
        return -sig;
      }
    }
    return 0;
  }

  lemma NonZero(x: Big)
    requires x.Valid()
    ensures x.len > 0 <==> x.Abs() > 0
  {
    if x.len > 0 { Longer(x.w[..x.len], []); }
  }

  lemma NonNegative(x: Big)
    requires x.Valid() && x.Value() >= 0
    ensures !x.neg && x.Abs() == x.Value()
  {
    hide Val, Pow;
    NonZero(x);
  }

  lemma LenBound(x: Big, n: nat)
    requires x.Valid() && x.Abs() < Pow(n)
    ensures x.len <= n
  {
    hide Val, Pow;
    if x.len > n {
      Leading(x.w[..x.len]);
      PowMono(n, x.len - 1);
    }
  }

  /** mr_shift: w = x * B^n by moving words; for negative n the low words are dropped. */
  method Shift(mip: Mip, x: Big, n: int, w: Big)
    requires mip.Valid() && x.Clean(x.len) && w.Clean(w.len) && Apart(x, w) && x.len <= w.w.Length
    requires x.len > 0 && n > 0 && !(mip.check && x.len + n > mip.nib) ==> x.len + n <= w.w.Length
    modifies mip`ernum, w, w.w
    ensures mip.ernum == if old(mip.check && x.len > 0 && n != 0 && x.len + n > mip.nib) then Overflow else NoError
    ensures mip.ernum == NoError ==> w.Clean(w.len) && (old(x.Valid()) ==> w.Valid()) && (w.neg ==> old(x.neg))
    ensures mip.ernum == NoError && n >= 0 ==> w.Value() == old(x.Value()) * Pow(n)
    ensures mip.ernum == NoError && n < 0 ==>
              w.w[..w.len] == if old(x.len) <= -n then [] else old(x.w[..x.len])[-n..]
  {
    hide Val, Pow;
    ghost var X, ax := x.w[..x.len], x.Abs();
    Empty();
    Copy(x, w);
    assert w.w[..w.len] == X;
    if w.len == 0 || n == 0 {
      assert w.len == 0 ==> X == [];
      return;
    }
    var l := w.len;
    var bl := l + n;
    if bl <= 0 {
      w.Zero();
      return;
    }
    if bl > mip.nib && mip.check {
      mip.ernum := Overflow;
      return;
    }
    if n > 0 {
      ShiftUp(w, l, n);
      SignedShift(w.neg, Val(X), Pow(n));
    } else {
      ShiftDown(w, l, -n);
    }
    w.len := bl;
  }

  lemma SignedShift(neg: bool, v: int, p: int)
    ensures (if neg then -v else v) * p == if neg then -(p * v) else p * v
  {
  }

  method ShiftUp(w: Big, l: nat, n: nat)
    requires w.Clean(l) && l + n <= w.w.Length && n > 0 && l > 0
    modifies w.w
    ensures w.Clean(l + n) && Val(w.w[..l + n]) == Pow(n) * old(Val(w.w[..l]))
    ensures w.w[l + n - 1] == old(w.w[l - 1])
  {
    hide Val, Pow;
    ghost var X := w.w[..l];
    var i := l + n;
    while i > n
      invariant n <= i <= l + n && w.Clean(l + n)
      invariant w.w[..i - n] == X[..i - n] && w.w[i..l + n] == X[i - n..]
    {
      i := i - 1;
      ghost var high := w.w[i + 1..l + n];
      assert w.w[i - n] == w.w[..i - n + 1][i - n] == X[i - n];
      w.w[i] := w.w[i - n];
      assert w.w[i..l + n] == [w.w[i]] + high;
    }
    assert w.w[n..l + n] == X;
    ZeroLow(w, l, n);
    assert w.w[..l + n] == w.w[..n] + X;
    Append(w.w[..n], X);
    Zeros(w.w[..n]);
    assert w.w[l + n - 1] == w.w[n..l + n][l - 1];
  }

  method ZeroLow(w: Big, l: nat, n: nat)
    requires w.Clean(l + n)
    modifies w.w
    ensures w.Clean(l + n) && w.w[n..l + n] == old(w.w[n..l + n]) && forall k | 0 <= k < n :: w.w[k] == 0
  {
    for j := 0 to n
      invariant w.Clean(l + n) && w.w[n..l + n] == old(w.w[n..l + n]) && forall k | 0 <= k < j :: w.w[k] == 0
    {
      w.w[j] := 0;
    }
  }

  method ShiftDown(w: Big, l: nat, n: nat)
    requires w.Clean(l) && 0 < n < l
    modifies w.w
    ensures w.Clean(l - n) && w.w[..l - n] == old(w.w[..l])[n..]
  {
    ghost var X := w.w[..l];
    var bl := l - n;
    for i := 0 to bl
      invariant w.Clean(l) && w.w[i..l] == X[i..] && w.w[..i] == X[n..n + i]
    {
      assert w.w[i + n] == w.w[i..l][n] == X[i + n];
      ghost var low := w.w[..i];
      ghost var high := w.w[i..l];
      w.w[i] := w.w[i + n];
      assert w.w[..i + 1] == low + [w.w[i]];
      assert w.w[i + 1..l] == high[1..];
    }
    for i := 0 to n
      invariant w.Clean(l) && w.w[..bl] == X[n..]
      invariant forall k | bl <= k < bl + i :: w.w[k] == 0
    {
      w.w[bl + i] := 0;
    }
  }
}
