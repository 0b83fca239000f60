/** Powers of two and the bits of naturals. */
module Bits {
  import opened Words

  function Two(k: nat): (p: int)
    ensures p >= 1
  {
    if k == 0 then 1 else 2 * Two(k - 1)
  }

  /** x shifted right by k bits. */
  function Shr(x: nat, k: nat): nat {
    DivOrder(0, x, Two(k));
    x / Two(k)
  }

  function Bit(x: nat, k: nat): (b: int)
    ensures 0 <= b <= 1
  {
    Shr(x, k) % 2
  }

  lemma TwoStart()
    ensures Two(0) == 1 && Two(1) == 2
  {
  }

  lemma TwoStep(k: nat)
    ensures Two(k + 1) == 2 * Two(k)
  {
  }

  lemma WordIsTwo32()
    ensures Two(32) == B
  {
    assert Two(8) == 256;
    assert Two(16) == 65536;
    assert Two(24) == 0x100_0000;
  }

  lemma {:induction false} TwoAdd(j: nat, k: nat)
    ensures Two(j + k) == Two(j) * Two(k)
  {
    if j > 0 { TwoAdd(j - 1, k); }
  }

  /** Shifting in the next bit. */
  lemma ShrStep(x: nat, k: nat)
    ensures Shr(x, k) == 2 * Shr(x, k + 1) + Bit(x, k)
  {
    hide Two;
    DivDiv(x, Two(k), 2);
    TwoStep(k);
    assert Two(k + 1) == Two(k) * 2;
  }

  lemma ShrZero(x: nat)
    ensures Shr(x, 0) == x
  {
  }

  lemma ShrSmall(x: nat, k: nat)
    requires x < Two(k)
    ensures Shr(x, k) == 0
  {
    DivMod(x, Two(k), 0, x);
  }

  lemma {:induction false} TwoMono(j: nat, k: nat)
    requires j <= k
    ensures Two(j) <= Two(k)
  {
    if j < k { TwoMono(j, k - 1); }
  }

  /** Bits at and above the length are zero. */
  lemma BitSmall(x: nat, j: nat, k: nat)
    requires x < Two(j) && j <= k
    ensures Bit(x, k) == 0
  {
    hide Two;
    TwoMono(j, k);
    ShrSmall(x, k);
  }

  lemma TopBit(x: nat, j: nat)
    requires x < Two(j)
    ensures x + Two(j) < Two(j + 1) && Bit(x + Two(j), j) == 1
  {
    assert Two(j + 1) == 2 * Two(j);
    hide Two;
    DivMod(x + Two(j), Two(j), 1, x);
  }

  lemma HigherPower(i: nat, j: nat) returns (h: int)
    requires i < j
    ensures Two(j) == Two(i) * (2 * h)
  {
    h := Two(j - i - 1);
    assert Two(j - i) == 2 * h;
    hide Two;
    TwoAdd(i, j - i);
  }

  lemma LowerBit(x: nat, j: nat, i: nat)
    requires i < j
    ensures Bit(x + Two(j), i) == Bit(x, i)
  {
    hide Bit, Shr, Two;
    var h := HigherPower(i, j);
    AddAbove(x, Two(i), h);
    ShiftParity(x, i, x + Two(j), i, h);
  }

  lemma EvenAdded(a: int, h: int)
    ensures (a + 2 * h) % 2 == a % 2
  {
  }

  lemma ShiftParity(x: nat, i: nat, y: nat, j: nat, h: int)
    requires y / Two(j) == x / Two(i) + 2 * h
    ensures Bit(y, j) == Bit(x, i)
  {
    hide Two;
    EvenAdded(x / Two(i), h);
  }

  /** Adding a power of two above a number sets that bit and no other. */
  lemma SetBit(x: nat, j: nat, i: nat)
    requires x < Two(j)
    ensures x + Two(j) < Two(j + 1)
    ensures Bit(x + Two(j), i) == if i == j then 1 else Bit(x, i)
  {
    hide Two, Bit, Shr;
    TopBit(x, j);
    if i < j { LowerBit(x, j, i); }
    if i > j {
      BitSmall(x + Two(j), j + 1, i);
      BitSmall(x, j, i);
    }
  }

  lemma AddAbove(x: nat, p: int, h: int)
    requires p > 0
    ensures (x + p * (2 * h)) / p == x / p + 2 * h
  {
    assert x == x / p * p + x % p;
    assert (x / p + 2 * h) * p == x / p * p + p * (2 * h);
    DivMod(x + p * (2 * h), p, x / p + 2 * h, x % p);
  }

  /** logb2: the number of bits. */
  function BitLength(x: nat): (n: nat)
  {
    if x == 0 then 0 else 1 + BitLength(x / 2)
  }

  lemma {:induction false} BitLengthBounds(x: nat)
    ensures x < Two(BitLength(x)) && (x > 0 ==> BitLength(x) > 0 && Two(BitLength(x) - 1) <= x)
  {
    if x > 0 { BitLengthBounds(x / 2); }
  }
}
