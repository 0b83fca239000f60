/** mrcore.c: single bits of big numbers. */
module BigBits {
  import opened Words
  import opened Bits
  import opened Bigs

  lemma {:induction false} PowIsTwo(a: nat)
    ensures Two(32 * a) == Pow(a)
  {
    hide Two, Pow;
    if a == 0 {
      TwoStart();
      Empty();
    } else {
      PowIsTwo(a - 1);
      TwoAdd(32, 32 * (a - 1));
      WordIsTwo32();
      PowStep(a - 1);
    }
  }

  /** Bit 32 * a + b of a number is bit b of word a. */
  lemma BitOfWord(v: nat, low: int, w: Word, high: int, a: nat, b: nat)
    requires b < 32 && 0 <= low < Pow(a) && high >= 0 && v == low + w * Pow(a) + Pow(a + 1) * high
    ensures Bit(v, 32 * a + b) == Bit(w, b)
  {
    hide Two, Pow, Bit, Shr;
    PowStep(a);
    PowIsTwo(a);
    TwoAdd(32 * a, b);
    var p := Pow(a);
    var u := w + B * high;
    assert v == u * p + low by { assert B * p * high == B * high * p; }
    DivMod(v, p, u, low);
    DivDiv(v, p, Two(b));
    var h := HigherPower(b, 32);
    WordIsTwo32();
    assert B * high == Two(b) * (2 * (h * high)) by { assert Two(b) * (2 * h) * high == Two(b) * (2 * (h * high)); }
    AddAbove(w, Two(b), h * high);
    ShiftParity(w, b, v, 32 * a + b, h * high);
  }

  /** mr_testbit reads the bit out of its word. */
  method TestBit(x: Big, n: nat) returns (b: int)
    requires x.Valid() && n / 32 < x.w.Length
    ensures b == Bit(x.Abs(), n)
  {
    hide Two, Pow, Val, Bit;
    ghost var a, m := n / 32, if x.len <= n / 32 then n / 32 + 1 else x.len;
    b := Bit(x.w[n / 32], n % 32);
    ghost var s := x.w[..m];
    ZeroTail(s, x.len);
    assert s[..x.len] == x.w[..x.len];
    Split(s, a);
    BitOfWord(Val(s), Val(s[..a]), s[a], Val(s[a + 1..]), a, n % 32);
  }

  /** A word whose bit is clear has room for it. */
  lemma RoomForBit(w: Word, k: nat)
    requires k < 32 && Bit(w, k) == 0
    ensures w + Two(k) < B
  {
    hide Two;
    var t := Two(k);
    var h := HigherPower(k, 32);
    WordIsTwo32();
    var q := w / t;
    assert w == q * t + w % t && q % 2 == 0;
    if q >= 2 * h { MulMono(2 * h, q, t); }
    assert q <= 2 * h - 2;
    MulMono(q + 2, 2 * h, t);
    assert (q + 2) * t == q * t + 2 * t;
  }

  lemma RaiseWord(low: int, w: int, t: int, p: int, high: int)
    ensures low + (w + t) * p + high == low + w * p + high + p * t
  {
  }

  /** mr_addbit: adds 2^n where the bit is known to be clear. */
  method AddBit(x: Big, n: nat)
    requires x.Valid() && !x.neg && n / 32 < x.w.Length && Bit(x.w[n / 32], n % 32) == 0
    modifies x, x.w
    ensures x.Valid() && !x.neg && x.Abs() == old(x.Abs()) + Two(n)
  {
    hide Two, Pow, Val, Bit;
    var a := n / 32;
    ghost var m := if x.len <= a then a + 1 else x.len;
    ghost var s := x.w[..m];
    ZeroTail(s, x.len);
    assert s[..x.len] == x.w[..x.len];
    Split(s, a);
    RoomForBit(x.w[a], n % 32);
    x.w[a] := x.w[a] + Two(n % 32);
    if x.len < a + 1 { x.len := a + 1; }
    ghost var t := x.w[..m];
    assert t[..a] == s[..a] && t[a + 1..] == s[a + 1..];
    Split(t, a);
    PowIsTwo(a);
    TwoAdd(32 * a, n % 32);
    RaiseWord(Val(s[..a]), s[a], Two(n % 32), Pow(a), Pow(a + 1) * Val(s[a + 1..]));
  }
}
