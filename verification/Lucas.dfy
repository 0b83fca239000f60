/** mrlucas.c: the Lucas V function by a ladder of doublings. */
module LucasLadder {
  import opened Bits
  import opened Residues
  import opened Field
  import opened Modular

  /** V_0 = 2, V_1 = p, V_(k+1) = p V_k - V_(k-1). */
  ghost function V(p: int, k: nat): int {
    if k == 0 then 2 else if k == 1 then p else p * V(p, k - 1) - V(p, k - 2)
  }

  lemma Start(p: int)
    ensures V(p, 0) == 2 && V(p, 1) == p
  {
  }

  lemma Recurrence(p: int, k: nat)
    requires k >= 2
    ensures V(p, k) == p * V(p, k - 1) - V(p, k - 2)
  {
  }

  lemma TwoTerms(p: int, a1: int, b1: int, a2: int, b2: int, c: int, d: int, e: int)
    requires a1 + b1 == c * d && a2 + b2 == c * e
    ensures (p * a1 - a2) + (p * b1 - b2) == c * (p * d - e)
  {
    assert p * a1 + p * b1 == p * (c * d) by { assert p * (a1 + b1) == p * a1 + p * b1; }
    assert c * (p * d - e) == c * (p * d) - c * e;
    assert c * (p * d) == p * (c * d);
  }

  /** V_(m+n) + V_(m-n) = V_m V_n. */
  lemma {:induction false} AdditionLaw(p: int, m: nat, n: nat)
    requires n <= m
    ensures V(p, m + n) + V(p, m - n) == V(p, m) * V(p, n)
  {
    hide V;
    Start(p);
    if n == 0 {
      assert V(p, m) * 2 == V(p, m) + V(p, m);
    } else if n == 1 {
      Recurrence(p, m + 1);
      assert p * V(p, m) == V(p, m) * p;
    } else {
      AdditionLaw(p, m, n - 1);
      AdditionLaw(p, m, n - 2);
      Recurrence(p, m + n);
      Recurrence(p, m - n + 2);
      Recurrence(p, n);
      TwoTerms(p, V(p, m + n - 1), V(p, m - n + 1), V(p, m + n - 2), V(p, m - n + 2), V(p, m), V(p, n - 1), V(p, n - 2));
    }
  }

  /** The two steps of the ladder. */
  lemma Doubling(p: int, k: nat)
    ensures V(p, 2 * k) == V(p, k) * V(p, k) - 2
    ensures V(p, 2 * k + 1) == V(p, k) * V(p, k + 1) - p
    ensures V(p, 2 * k + 2) == V(p, k + 1) * V(p, k + 1) - 2
  {
    hide V;
    Start(p);
    AdditionLaw(p, k, k);
    AdditionLaw(p, k + 1, k);
    AdditionLaw(p, k + 1, k + 1);
    assert k + k == 2 * k && k - k == 0;
    assert k + 1 + k == 2 * k + 1 && k + 1 - k == 1;
    assert k + 1 + (k + 1) == 2 * k + 2 && k + 1 - (k + 1) == 0;
    Commuted(V(p, k + 1), V(p, k));
  }

  lemma Commuted(a: int, b: int)
    ensures a * b == b * a
  {
  }

  /**
   * nres_lucas: v = V_|r|(p) and vp = V_(|r|-1)(p) as n-residues; for r = 0 the second result is 0.
   */
  method NresLucas(c: Ring, p: int, r: int, ghost P: int) returns (vp: int, v: int)
    requires c.Valid() && p == Residue(c, P)
    ensures v == Residue(c, V(P, if r < 0 then -r else r))
    ensures if r == 0 then vp == 0 else vp == Residue(c, V(P, (if r < 0 then -r else r) - 1))
  {
    hide Mod, Residue, V, Two, Shr, Bit, BitLength;
    Start(P);
    if r == 0 { return 0, Residue(c, 2); }
    if r == 1 || r == -1 { return Residue(c, 2), p; }
    var w3, w4 := p, Residue(c, 2);
    var w8, w9 := w4, w3;
    var w1 := (if r < 0 then -r else r) - 1;
    var nb := BitLength(w1);
    BitLengthBounds(w1);
    ShrSmall(w1, nb);
    var i: int := nb - 1;
    while i >= 0
      invariant i >= -1
      invariant w8 == Residue(c, V(P, Shr(w1, i + 1))) && w9 == Residue(c, V(P, Shr(w1, i + 1) + 1))
    {
      ShrStep(w1, i);
      w8, w9 := LadderStep(c, w8, w9, w3, w4, Bit(w1, i), P, Shr(w1, i + 1));
      i := i - 1;
    }
    ShrZero(w1);
    v, vp := w9, w8;
  }

  /** One bit of the exponent: from (V_k, V_(k+1)) to (V_2k, V_(2k+1)) or (V_(2k+1), V_(2k+2)). */
  method LadderStep(c: Ring, v8: int, v9: int, w3: int, w4: int, bit: int, ghost P: int, ghost k: nat)
    returns (w8: int, w9: int)
    requires c.Valid() && w3 == Residue(c, P) && w4 == Residue(c, 2) && 0 <= bit <= 1
    requires v8 == Residue(c, V(P, k)) && v9 == Residue(c, V(P, k + 1))
    ensures w8 == Residue(c, V(P, 2 * k + bit)) && w9 == Residue(c, V(P, 2 * k + bit + 1))
  {
    hide Mod, Residue, V;
    ghost var a, b := V(P, k), V(P, k + 1);
    Doubling(P, k);
    w8, w9 := v8, v9;
    if bit == 1 {
      w8 := Mulm(c, w8, w9, a, b);
      w8 := Subm(c, w8, w3, a * b, P);
      w9 := Mulm(c, w9, w9, b, b);
      w9 := Subm(c, w9, w4, b * b, 2);
    } else {
      w9 := Mulm(c, w9, w8, b, a);
      assert b * a == a * b;
      w9 := Subm(c, w9, w3, b * a, P);
      w8 := Mulm(c, w8, w8, a, a);
      w8 := Subm(c, w8, w4, a * a, 2);
    }
  }
}
