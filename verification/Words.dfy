/** Little-endian arrays of 32-bit words and the natural numbers they denote. */
module Words {

  const B: int := 0x1_0000_0000

  type Word = x: int | 0 <= x < B

  function Pow(n: nat): (p: int)
    ensures p >= 1
  {
    if n == 0 then 1 else B * Pow(n - 1)
  }

  /** The number a word sequence denotes, least significant word first. */
  function Val(s: seq<Word>): (v: int)
    ensures 0 <= v < Pow(|s|)
  {
    if s == [] then 0
    else
      var n := |s| - 1;
      TopWord(Val(s[..n]), s[n], Pow(n));
      Val(s[..n]) + s[n] * Pow(n)
  }

  lemma TopWord(v: int, w: Word, p: int)
    requires 0 <= v < p
    ensures 0 <= v + w * p < B * p
  {
    MulMono(w, B - 1, p);
    MulMono(0, w, p);
    assert (B - 1) * p == B * p - p;
  }

  lemma Empty()
    ensures Val([]) == 0 && Pow(0) == 1
  {
  }

  lemma MulMono(a: int, b: int, p: int)
    requires a <= b && 0 <= p
    ensures a * p <= b * p
  {
  }

  lemma MulNonNeg(a: int, b: int)
    requires 0 <= a && 0 <= b
    ensures 0 <= a * b
  {
  }

  lemma MulStep(a: int, b: int, p: int)
    requires a < b && 0 <= p
    ensures a * p + p <= b * p
  {
    MulMono(a + 1, b, p);
  }

  lemma Snoc(s: seq<Word>, w: Word)
    ensures Val(s + [w]) == Val(s) + w * Pow(|s|)
  {
    assert (s + [w])[..|s|] == s;
  }

  /** Extending a prefix of `s` by one word. */
  lemma Prefix(s: seq<Word>, i: nat)
    requires i < |s|
    ensures Val(s[..i + 1]) == Val(s[..i]) + s[i] * Pow(i)
  {
    assert s[..i + 1] == s[..i] + [s[i]];
    Snoc(s[..i], s[i]);
  }

  lemma PowStep(n: nat)
    ensures Pow(n + 1) == B * Pow(n)
  {
  }

  lemma PowAdd(m: nat, n: nat)
    ensures Pow(m + n) == Pow(m) * Pow(n)
  {
    if m != 0 {
      PowAdd(m - 1, n);
      assert Pow(m + n) == B * (Pow(m - 1) * Pow(n));
    }
  }

  lemma PowMono(m: nat, n: nat)
    requires m <= n
    ensures Pow(m) <= Pow(n)
  {
    if m < n { PowMono(m, n - 1); }
  }

  lemma {:induction false} Append(s: seq<Word>, t: seq<Word>)
    ensures Val(s + t) == Val(s) + Pow(|s|) * Val(t)
  {
    if t == [] {
      assert s + t == s;
    } else {
      var n := |t| - 1;
      assert s + t == (s + t[..n]) + [t[n]];
      Snoc(s + t[..n], t[n]);
      Append(s, t[..n]);
      PowAdd(|s|, n);
      Distribute(Pow(|s|), Val(t[..n]), t[n], Pow(n));
    }
  }

  lemma Distribute(p: int, v: int, w: int, q: int)
    ensures p * (v + w * q) == p * v + w * (p * q)
  {
  }

  lemma Cons(w: Word, s: seq<Word>)
    ensures Val([w] + s) == w + B * Val(s)
  {
    assert [w] == [] + [w];
    Snoc([], w);
    Append([w], s);
    assert Pow(1) == B * Pow(0);
  }

  lemma {:induction false} Zeros(s: seq<Word>)
    requires forall i | 0 <= i < |s| :: s[i] == 0
    ensures Val(s) == 0
  {
    if s != [] { Zeros(s[..|s| - 1]); }
  }

  /** Words at and above `n` being zero, only the first `n` words matter. */
  lemma ZeroTail(s: seq<Word>, n: nat)
    requires n <= |s| && forall i | n <= i < |s| :: s[i] == 0
    ensures Val(s) == Val(s[..n])
  {
    hide Val, Pow;
    assert s == s[..n] + s[n..];
    Append(s[..n], s[n..]);
    Zeros(s[n..]);
  }

  /** Sequences that agree from word `i` on differ in value as their low words do. */
  lemma SameTail(x: seq<Word>, z: seq<Word>, i: nat)
    requires i <= |x| == |z| && x[i..] == z[i..]
    ensures Val(z) - Val(z[..i]) == Val(x) - Val(x[..i])
  {
    hide Val, Pow;
    assert x == x[..i] + x[i..] && z == z[..i] + z[i..];
    Append(x[..i], x[i..]);
    Append(z[..i], z[i..]);
  }

  /** The top word is nonzero exactly when the value needs all the words. */
  lemma Leading(s: seq<Word>)
    requires s != []
    ensures s[|s| - 1] != 0 <==> Val(s) >= Pow(|s| - 1)
  {
    var n := |s| - 1;
    if s[n] != 0 { MulMono(1, s[n], Pow(n)); }
  }

  /** A word sequence is determined by its value and its length. */
  lemma {:induction false} Injective(s: seq<Word>, t: seq<Word>)
    requires |s| == |t| && Val(s) == Val(t)
    ensures s == t
  {
    if s != [] {
      var n := |s| - 1;
      SplitUnique(Val(s[..n]), s[n], Val(t[..n]), t[n], Pow(n));
      Injective(s[..n], t[..n]);
    }
  }

  lemma SplitUnique(r: int, q: int, r': int, q': int, p: int)
    requires 0 <= r < p && 0 <= r' < p && r + q * p == r' + q' * p
    ensures r == r' && q == q'
  {
    if q < q' { MulStep(q, q', p); }
    if q > q' { MulStep(q', q, p); }
  }

  /** Quotient and remainder are determined by the division law. */
  lemma DivMod(x: int, d: int, q: int, r: int)
    requires 0 <= r < d && x == q * d + r
    ensures q == x / d && r == x % d
  {
    SplitUnique(r, q, x % d, x / d, d);
  }

  lemma DivDiv(x: nat, a: int, b: int)
    requires a > 0 && b > 0
    ensures a * b > 0 && x / a / b == x / (a * b)
  {
    MulMono(1, a, b);
    var q, r, f := x / a / b, x / a % b, x % a;
    assert x == (q * b + r) * a + f;
    MulStep(r, b, a);
    assert (q * b + r) * a == q * (a * b) + r * a;
    MulNonNeg(r, a);
    DivMod(x, a * b, q, r * a + f);
  }

  lemma DivOrder(x: int, y: int, d: int)
    requires d > 0 && x <= y
    ensures x / d <= y / d
  {
    if x / d > y / d { MulMono(y / d + 1, x / d, d); }
  }

  /** The words below position i, the word there and the words above it. */
  lemma Split(s: seq<Word>, i: nat)
    requires i < |s|
    ensures Val(s) == Val(s[..i]) + s[i] * Pow(i) + Pow(i + 1) * Val(s[i + 1..])
  {
    hide Val, Pow;
    Prefix(s, i);
    assert s == s[..i + 1] + s[i + 1..];
    Append(s[..i + 1], s[i + 1..]);
  }
}
