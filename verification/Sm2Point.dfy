/** mpi.c and sm2.c: reduction modulo the SM2 prime, and the test that a point is on the SM2 curve. */
module Sm2Point {
  import opened Words
  import opened Mpi
  import opened MpiProduct
  import Modular

  /** The prime 2^256 - 2^224 - 2^96 + 2^64 - 1. */
  const P: int := 0xFFFFFFFE_FFFFFFFF_FFFFFFFF_FFFFFFFF_FFFFFFFF_00000000_FFFFFFFF_FFFFFFFF

  /** The prime and the coefficients of the curve in words, least significant first. */
  const G_P: seq<Word> := [0xFFFFFFFF, 0xFFFFFFFF, 0, 0xFFFFFFFF, 0xFFFFFFFF, 0xFFFFFFFF, 0xFFFFFFFF, 0xFFFFFFFE]
  const G_A: seq<Word> := [0xFFFFFFFC, 0xFFFFFFFF, 0, 0xFFFFFFFF, 0xFFFFFFFF, 0xFFFFFFFF, 0xFFFFFFFF, 0xFFFFFFFE]
  const G_B: seq<Word> :=
    [0x4D940E93, 0xDDBCBD41, 0x15AB8F92, 0xF39789F5, 0xCF6509A7, 0x4D5A9E4B, 0x9D9F5E34, 0x28E9FA9E]

  lemma Powers()
    ensures Pow(0) == 1 && Pow(1) == B && Pow(2) == 0x1_00000000_00000000 && Pow(3) == 0x1_00000000_00000000_00000000
    ensures Pow(4) == 0x1_00000000_00000000_00000000_00000000
    ensures Pow(5) == 0x1_00000000_00000000_00000000_00000000_00000000
    ensures Pow(6) == 0x1_00000000_00000000_00000000_00000000_00000000_00000000
    ensures Pow(7) == 0x1_00000000_00000000_00000000_00000000_00000000_00000000_00000000
    ensures Pow(8) == 0x1_00000000_00000000_00000000_00000000_00000000_00000000_00000000_00000000
    ensures P == Pow(8) - Pow(7) - Pow(3) + Pow(2) - 1
  {
    hide Pow;
    Empty();
    PowStep(0);
    PowStep(1);
    PowStep(2);
    PowStep(3);
    PowStep(4);
    PowStep(5);
    PowStep(6);
    PowStep(7);
  }

  /** The value of eight words. */
  lemma EightWords(s: seq<Word>)
    requires |s| == 8
    ensures Val(s) == s[0] + s[1] * Pow(1) + s[2] * Pow(2) + s[3] * Pow(3)
                      + s[4] * Pow(4) + s[5] * Pow(5) + s[6] * Pow(6) + s[7] * Pow(7)
  {
    hide Val, Pow;
    Empty();
    assert s[..0] == [] && s[..8] == s;
    Prefix(s, 0);
    Prefix(s, 1);
    Prefix(s, 2);
    Prefix(s, 3);
    Prefix(s, 4);
    Prefix(s, 5);
    Prefix(s, 6);
    Prefix(s, 7);
  }

  lemma Constants()
    ensures Val(G_P) == P && Val(G_A) == P - 3
  {
    hide Val, Pow;
    Powers();
    EightWords(G_P);
    EightWords(G_A);
  }

  /** The words of g_b as a number. */
  lemma CoefficientB()
    ensures Val(G_B) == 0x28E9FA9E_9D9F5E34_4D5A9E4B_CF6509A7_F39789F5_15AB8F92_DDBCBD41_4D940E93
  {
    hide Val, Pow;
    Powers();
    EightWords(G_B);
  }

  /** The base point of the standard curve lies on the curve with the coefficients a = P - 3 and b in g_b. */
  lemma BasePoint()
    ensures 0 <= Val(G_B) < P
    ensures var x := 0x32C4AE2C_1F198119_5F990446_6A39C994_8FE30BBF_F2660BE1_715A4589_334C74C7;
            var y := 0xBC3736A2_F4F6779C_59BDCEE3_6B692153_D0A9877C_C62A4740_02DF32E5_2139F0A0;
            && 0 <= x < P && 0 <= y < P
            && Modular.Mod(y * y, P) == Modular.Mod(x * x * x + (P - 3) * x + Val(G_B), P)
  {
    hide Val, Pow;
    CoefficientB();
    var x := 0x32C4AE2C_1F198119_5F990446_6A39C994_8FE30BBF_F2660BE1_715A4589_334C74C7;
    var y := 0xBC3736A2_F4F6779C_59BDCEE3_6B692153_D0A9877C_C62A4740_02DF32E5_2139F0A0;
    var q := 0x1FF231C_B8DE202F_6800E795_420B8060_30333747_296CF08A_E9F5B2BA_2FE5BA24_316CB8AB_1E12D8E7_7DF677A1_E1D27ABD_2C3F24D3_4899B94A_BECD8E8E_33D54CF2;
    Modular.Witness(x * x * x + (P - 3) * x + Val(G_B), y * y, q, P);
  }

  /** No other coefficient has the base point on its curve. */
  lemma OnlyCoefficientB(b: int)
    requires 0 <= b < P
    requires var x := 0x32C4AE2C_1F198119_5F990446_6A39C994_8FE30BBF_F2660BE1_715A4589_334C74C7;
             var y := 0xBC3736A2_F4F6779C_59BDCEE3_6B692153_D0A9877C_C62A4740_02DF32E5_2139F0A0;
             Modular.Mod(y * y, P) == Modular.Mod(x * x * x + (P - 3) * x + b, P)
    ensures b == Val(G_B)
  {
    hide Val, Pow;
    BasePoint();
    var x := 0x32C4AE2C_1F198119_5F990446_6A39C994_8FE30BBF_F2660BE1_715A4589_334C74C7;
    var s := x * x * x + (P - 3) * x;
    Modular.Sub(s + b, s + Val(G_B), s, s, P);
    Modular.Small(b, P);
    Modular.Small(Val(G_B), P);
  }

  /** What a word v of h is replaced by: v times 2^256 - P. */
  lemma FoldedWord(s: seq<Word>, v: Word)
    requires |s| == 8 && v > 0 && s[0] == v && s[1] == 0 && s[2] == B - v && s[3] == v - 1
    requires s[4] == 0 && s[5] == 0 && s[6] == 0 && s[7] == v
    ensures Val(s) == v * (Pow(8) - P)
  {
    hide Val, Pow;
    EightWords(s);
    Powers();
  }

  // ----- shifting and adding -----

  /** All the words of a number in order. */
  ghost function AllWords(a: CMpl): (s: seq<Word>)
    requires a.Valid()
    reads a, a.h, a.l, a.h.w, a.l.w
    ensures |s| == a.l.len + a.h.len
  {
    a.l.Used() + a.h.Used()
  }

  lemma ValueOfWords(a: CMpl)
    requires a.Valid()
    ensures a.Value() == Val(AllWords(a))
  {
    hide Val, Pow;
    Append(a.l.Used(), a.h.Used());
    if a.h.len == 0 { Empty(); }
  }

  ghost function ZeroWords(n: nat): (s: seq<Word>)
    ensures |s| == n && forall i | 0 <= i < n :: s[i] == 0
  {
    seq(n, _ => 0)
  }

  /** The upper words, highest first. */
  method ShiftHigh(a: CMpl, n: nat, j: int, ghost Z: seq<Word>)
    requires a.h != a.l && a.h.w != a.l.w && a.h.Valid() && a.l.Valid() && j <= MPI_LENGTH && MPI_LENGTH + j <= |Z|
    requires a.h.len > 0 ==> a.l.len == MPI_LENGTH
    requires Z == ZeroWords(n) + (a.l.Used() + a.h.Used())
    modifies a.h.w
    ensures forall i | 0 <= i < j :: a.h.w[i] == Z[MPI_LENGTH + i]
  {
    var i, p := j - 1, j - 1 - n;
    while i >= 0
      invariant i < j && p == i - n && (j > 0 ==> i >= -1)
      invariant forall k | 0 <= k < MPI_LENGTH && k <= i :: a.h.w[k] == old(a.h.w[k])
      invariant forall k | 0 <= k < j && i < k :: a.h.w[k] == Z[MPI_LENGTH + k]
    {
      if p >= 0 {
        a.h.w[i] := a.h.w[p];
      } else if p + MPI_LENGTH >= 0 {
        a.h.w[i] := a.l.w[MPI_LENGTH + p];
      } else {
        a.h.w[i] := 0;
      }
      i, p := i - 1, p - 1;
    }
  }

  /** The lower words, highest first. */
  method ShiftLow(a: CMpl, n: nat, j: nat, ghost Z: seq<Word>)
    requires a.l.Valid() && j <= MPI_LENGTH && j <= |Z|
    requires forall i | 0 <= i < j :: Z[i] == if i < n then 0 else a.l.w[i - n]
    modifies a.l.w
    ensures a.l.w[..j] == Z[..j]
  {
    var i, p := (j as int) - 1, (j as int) - 1 - n;
    while i >= 0
      invariant -1 <= i < j && p == i - n
      invariant forall k | 0 <= k < MPI_LENGTH && k <= i :: a.l.w[k] == old(a.l.w[k])
      invariant forall k | i < k < j :: a.l.w[k] == Z[k]
    {
      a.l.w[i] := if p >= 0 then a.l.w[p] else 0;
      i, p := i - 1, p - 1;
    }
  }

  /** CMpl_WordShiftLeft: multiplication by B^n, of which sixteen words are kept. */
  method WordShiftLeft(a: CMpl, n: nat)
    requires a.Valid()
    modifies a.h`len, a.l`len, a.h.w, a.l.w
    ensures a.Valid() && a.Value() == (old(a.Value()) * Pow(n)) % Pow(2 * MPI_LENGTH)
    ensures old(a.l.len) == MPI_LENGTH ==> a.l.len == MPI_LENGTH
    ensures old(a.l.len) == MPI_LENGTH ==> a.h.len == Min(old(a.h.len) + n, MPI_LENGTH)
  {
    hide Val, Pow;
    ghost var W := AllWords(a);
    ValueOfWords(a);
    var k := a.h.len + a.l.len;
    if k == 0 {
      ShiftedZero(W, n);
      return;
    }
    if k == 1 && a.l.w[0] == 0 {
      ShiftedZero(W, n);
      return;
    }
    ghost var Z := ZeroWords(n) + W;
    k := k + n;
    if k >= 2 * MPI_LENGTH { k := 2 * MPI_LENGTH; }
    ShiftHigh(a, n, k - MPI_LENGTH, Z);
    ghost var high := a.h.w[..];
    var j := if k >= MPI_LENGTH then MPI_LENGTH else k;
    ShiftLow(a, n, j, Z);
    a.l.len := j;
    a.h.len := if j >= MPI_LENGTH then k - MPI_LENGTH else 0;
    ghost var hs := a.h.Used();
    assert |hs| == k - j && forall i | 0 <= i < |hs| :: hs[i] == a.h.w[i] == Z[j + i];
    assert hs == Z[j..k];
    assert AllWords(a) == Z[..k];
    ValueOfWords(a);
    ShiftedWords(W, n, k);
  }

  lemma ShiftedZero(W: seq<Word>, n: nat)
    requires W == [] || W == [0]
    ensures Val(W) == 0 && Val(W) == (Val(W) * Pow(n)) % Pow(2 * MPI_LENGTH)
  {
    hide Val, Pow;
    Zeros(W);
    assert 0 * Pow(n) == 0;
    Modular.Small(0, Pow(2 * MPI_LENGTH));
  }

  lemma ShiftedValue(W: seq<Word>, n: nat)
    ensures Val(ZeroWords(n) + W) == Val(W) * Pow(n)
  {
    hide Val, Pow;
    Append(ZeroWords(n), W);
    Zeros(ZeroWords(n));
  }

  lemma ShiftedWords(W: seq<Word>, n: nat, k: nat)
    requires k == Min(n + |W|, 2 * MPI_LENGTH)
    ensures Val((ZeroWords(n) + W)[..k]) == (Val(W) * Pow(n)) % Pow(2 * MPI_LENGTH)
  {
    hide Val, Pow;
    var Z := ZeroWords(n) + W;
    ShiftedValue(W, n);
    if k == |Z| {
      assert Z[..k] == Z;
      PowMono(k, 2 * MPI_LENGTH);
      Modular.Small(Val(Z), Pow(2 * MPI_LENGTH));
    } else {
      assert Z == Z[..k] + Z[k..];
      Append(Z[..k], Z[k..]);
      assert Pow(k) * Val(Z[k..]) == Val(Z[k..]) * Pow(k);
      DivMod(Val(Z), Pow(k), Val(Z[k..]), Val(Z[..k]));
    }
  }

  /** The words of the two numbers and of b are all different. */
  ghost predicate Separate(a: CMpl, b: CMpi)
    reads a
  {
    b != a.h && b != a.l && b.w != a.h.w && b.w != a.l.w
  }

  /** What is left of a sum when its carry is lost. */
  lemma CarryOut(abs: int, carry: int, p: int, total: int)
    requires abs + carry * p == total && 0 <= abs < p && carry >= 0
    ensures abs == total % p && (total < p ==> abs == total)
  {
    DivMod(total, p, carry, abs);
    if carry >= 1 { MulMono(1, carry, p); }
  }

  /** The carry of l moves to h; l keeps all its words as long as h is not zero. */
  method MoveCarry(a: CMpl)
    requires a.h != a.l && a.h.w != a.l.w && a.h.Valid() && a.l.Valid() && !a.h.neg && !a.l.neg
    requires (a.h.len > 0 || a.l.carry > 0 ==> a.l.len == MPI_LENGTH) && 0 <= a.l.carry <= 1
    modifies a.h, a.h.w, a.l`carry, a.l`len
    ensures a.h.neg == a.l.neg == false
    ensures a.Valid() && a.l.carry == 0 && a.Value() == old(a.l.Abs()) + a.h.Abs() * Pow(MPI_LENGTH)
    ensures a.h.Abs() == old(a.h.Abs() + a.l.carry) % Pow(MPI_LENGTH) && a.h.len >= old(a.h.len)
    ensures a.h.len > old(a.h.len) ==> a.h.Abs() >= Pow(a.h.len - 1)
    ensures a.l.len == old(a.l.len)
  {
    hide Val, Pow;
    PowMono(a.h.len, MPI_LENGTH);
    CarryOut(a.h.Abs(), 0, Pow(MPI_LENGTH), a.h.Abs());
    if a.l.carry != 0 {
      var o := new CMpi();
      o.AssignD(a.l.carry);
      ghost var t := a.h.Abs() + a.l.carry;
      Add(a.h, o);
      PowMono(a.h.len, MPI_LENGTH);
      CarryOut(a.h.Abs(), a.h.carry, Pow(MPI_LENGTH), t);
      if a.h.len > 0 { Leading(a.h.Used()); }
      a.l.carry := 0;
    }
    // the last statement would lengthen an l that is short below an h that is not zero: there is none
    Empty();
    assert a.l.len == MPI_LENGTH || a.h.Abs() == 0;
  }

  /** What sixteen words keep of a number. */
  ghost function Kept(x: int): int {
    MulMono(1, Pow(MPI_LENGTH), Pow(MPI_LENGTH));
    x % (Pow(MPI_LENGTH) * Pow(MPI_LENGTH))
  }

  lemma KeptSmall(x: int)
    ensures 0 <= x < Pow(MPI_LENGTH) * Pow(MPI_LENGTH) ==> Kept(x) == x
  {
    hide Pow;
    if 0 <= x < Pow(MPI_LENGTH) * Pow(MPI_LENGTH) { Modular.Small(x, Pow(MPI_LENGTH) * Pow(MPI_LENGTH)); }
  }

  lemma KeptIs(x: int)
    ensures Pow(MPI_LENGTH) * Pow(MPI_LENGTH) > 0 && Kept(x) == x % (Pow(MPI_LENGTH) * Pow(MPI_LENGTH))
  {
    hide Pow;
    MulMono(1, Pow(MPI_LENGTH), Pow(MPI_LENGTH));
  }

  /** CMpl_Addi for numbers held positive: the sum modulo sixteen words, with the carry moved from l to h. */
  method Addi(a: CMpl, b: CMpi)
    requires a.Valid() && b.Valid() && !b.neg && Separate(a, b)
    modifies a.h, a.h.w, a.l, a.l.w
    ensures a.Valid() && a.Value() == Kept(old(a.Value()) + b.Abs())
  {
    hide Val, Pow, Kept;
    ghost var p, h, total := Pow(MPI_LENGTH), a.h.Abs(), a.Value() + b.Abs();
    KeptIs(total);
    Add(a.l, b);
    assert a.h.Abs() == h;
    ghost var low, c := a.l.Abs(), a.l.carry;
    PowMono(a.l.len, MPI_LENGTH);
    var zero := EqualsToD(a.h, 0);
    if zero { a.h.neg := a.l.neg; }
    MoveCarry(a);
    WrappedHalves(low, c, h, p, total);
  }

  /** The sum by halves, of which the upper one may lose a carry. */
  lemma WrappedHalves(low: int, c: int, h: int, p: int, total: int)
    requires 0 <= low < p && c >= 0 && h >= 0 && total == low + c * p + h * p
    ensures low + (h + c) % p * p == total % (p * p)
  {
    var q, r := (h + c) / p, (h + c) % p;
    assert h + c == q * p + r;
    assert total == low + (h + c) * p;
    assert (q * p + r) * p == q * (p * p) + r * p;
    MulMono(r + 1, p, p);
    assert (r + 1) * p == r * p + p;
    MulNonNeg(r, p);
    DivMod(total, p * p, q, low + r * p);
  }

  /** CMpl_Add for numbers held positive: the sum modulo sixteen words. */
  method AddLong(a: CMpl, b: CMpl)
    requires a.Valid() && b.Valid() && Separate(a, b.h) && Separate(a, b.l)
    modifies a.h, a.h.w, a.l, a.l.w
    ensures a.Valid() && a.Value() == Kept(old(a.Value()) + b.Value())
    ensures a.h.len >= old(Max(a.h.len, b.h.len)) && a.l.len >= old(a.l.len)
    ensures a.h.len > old(Max(a.h.len, b.h.len)) && old(a.Value()) + b.Value() < Pow(MPI_LENGTH) * Pow(MPI_LENGTH) ==>
              a.h.Abs() >= Pow(a.h.len - 1)
  {
    hide Val, Pow, Max, Kept;
    ghost var p, h, hb, total := Pow(MPI_LENGTH), a.h.Abs(), b.h.Abs(), a.Value() + b.Value();
    ghost var low0, lowb := a.l.Abs(), b.l.Abs();
    assert total == (low0 + h * p) + (lowb + hb * p);
    Add(a.l, b.l);
    ghost var low, c := a.l.Abs(), a.l.carry;
    PowMono(a.l.len, MPI_LENGTH);
    Halves(low, c, low0, lowb, h, hb, p, total);
    WrappedHalves(low, c, h + hb, p, total);
    AddUpper(a, b);
    assert b.h.Abs() == hb && b.l.Abs() == lowb;
    KeptIs(total);
  }

  /** The upper halves and the carry of the lower ones. */
  method AddUpper(a: CMpl, b: CMpl)
    requires a.h != a.l && a.h.w != a.l.w && a.h.Valid() && a.l.Valid() && !a.h.neg && !a.l.neg && 0 <= a.l.carry <= 1
    requires b.Valid() && Separate(a, b.h) && Separate(a, b.l)
    requires a.h.len > 0 || b.h.len > 0 || a.l.carry > 0 ==> a.l.len == MPI_LENGTH
    modifies a.h, a.h.w, a.l`carry, a.l`len
    ensures a.Valid() && a.l.len == old(a.l.len) && a.h.Abs() == (old(a.h.Abs() + b.h.Abs()) + old(a.l.carry)) % Pow(MPI_LENGTH)
    ensures a.Value() == old(a.l.Abs()) + a.h.Abs() * Pow(MPI_LENGTH)
    ensures a.h.len >= old(Max(a.h.len, b.h.len))
    ensures a.h.len > old(Max(a.h.len, b.h.len)) && old(a.h.Abs() + b.h.Abs() + a.l.carry) < Pow(MPI_LENGTH) ==>
              a.h.Abs() >= Pow(a.h.len - 1)
  {
    hide Val, Pow, Max;
    ghost var t, c, p := a.h.Abs() + b.h.Abs(), a.l.carry, Pow(MPI_LENGTH);
    AddHigh(a, b);
    TwoWraps(t, c, p);
    MoveCarry(a);
    if t + c < p { NoWraps(t, c, p); }
  }

  lemma TwoWraps(t: int, c: int, p: int)
    requires p > 0
    ensures (t % p + c) % p == (t + c) % p
  {
    Modular.Reduce(t, p);
    Modular.Add(t % p, t, c, c, p);
  }

  lemma NoWraps(t: int, c: int, p: int)
    requires 0 <= t && 0 <= c && t + c < p
    ensures t % p == t && (t % p + c) % p == t + c
  {
    Modular.Small(t, p);
    Modular.Small(t + c, p);
  }

  /** The sum by halves. */
  lemma Halves(low: int, c: int, low0: int, lowb: int, h: int, hb: int, p: int, total: int)
    requires low + c * p == low0 + lowb && low >= 0 && p > 0 && total == (low0 + h * p) + (lowb + hb * p)
    ensures total == low + c * p + (h + hb) * p && (total < p * p ==> h + hb + c < p)
  {
    assert (h + hb + c) * p == h * p + hb * p + c * p;
    if h + hb + c >= p { MulMono(p, h + hb + c, p); }
  }

  lemma NoWords(x: CMpi)
    requires x.Valid() && x.len == 0
    ensures x.Abs() == 0
  {
    assert x.Used() == [];
  }

  /** The upper halves are added; a carry out of them is lost. */
  method AddHigh(a: CMpl, b: CMpl)
    requires a.h != a.l && a.h.w != a.l.w && a.h.Valid() && a.l.Valid() && !a.h.neg && !a.l.neg
    requires b.Valid() && Separate(a, b.h)
    modifies a.h, a.h.w
    ensures a.h.Valid() && !a.h.neg && a.h.Abs() == (old(a.h.Abs()) + b.h.Abs()) % Pow(MPI_LENGTH)
    ensures a.h.len >= old(Max(a.h.len, b.h.len))
    ensures a.h.len > old(Max(a.h.len, b.h.len)) ==> a.h.Abs() >= Pow(a.h.len - 1)
    ensures old(a.h.len == b.h.len == 0) ==> a.h.len == 0
  {
    hide Val, Pow, Max;
    ghost var t := a.h.Abs() + b.h.Abs();
    if a.h.len == 0 && b.h.len == 0 {
      NoWords(a.h);
      NoWords(b.h);
    }
    Add(a.h, b.h);
    PowMono(a.h.len, MPI_LENGTH);
    CarryOut(a.h.Abs(), a.h.carry, Pow(MPI_LENGTH), t);
    if a.h.len > 0 { Leading(a.h.Used()); }
    var zero := EqualsToD(a.h, 0);
    if zero { a.h.neg := a.l.neg; }
  }

  // ----- reduction modulo the prime -----

  /** The words of h from i on are zero. */
  lemma UpperWordsZero(s: seq<Word>, i: nat)
    requires i <= |s| && Val(s) < Pow(i)
    ensures forall k | i <= k < |s| :: s[k] == 0
  {
    hide Val, Pow;
    forall k | i <= k < |s|
      ensures s[k] == 0
    {
      if s[k] != 0 {
        Leading(s[..k + 1]);
        assert s[..k + 1][..k] == s[..k];
        PowMono(i, k);
        assert s == s[..k + 1] + s[k + 1..];
        Append(s[..k + 1], s[k + 1..]);
        MulNonNeg(Pow(k + 1), Val(s[k + 1..]));
      }
    }
  }

  /** A number below B^(i+1) whose word i is zero is below B^i. */
  lemma OneWordLess(s: seq<Word>, i: nat)
    requires i < |s| && Val(s) < Pow(i + 1) && s[i] == 0
    ensures Val(s) < Pow(i)
  {
    hide Val, Pow;
    UpperWordsZero(s, i + 1);
    ZeroTail(s, i);
  }

  /** The long number is below B^(8+i) exactly when its h is below B^i. */
  lemma HighBound(low: int, high: int, p: int, q: int)
    requires 0 <= low < p && high >= 0 && q > 0
    ensures low + high * p < q * p <==> high < q
  {
    if high < q { MulStep(high, q, p); }
    if high >= q { MulMono(q, high, p); }
  }

  /** Folding word v = h[i] lowers the value by v * B^i * P. */
  lemma FoldStep(total: int, v: int, pi: int, p8: int, t: int, rest: int)
    requires rest == total - v * pi * p8 && t == v * (p8 - P) * pi
    ensures rest + t == total - v * pi * P
  {
    assert v * (p8 - P) * pi == v * pi * p8 - v * pi * P;
  }

  /** The multiple of 2^256 - P that takes the place of the word v at position i. */
  method FoldedAt(v: Word, i: nat) returns (t: CMpl)
    requires v > 0 && i < MPI_LENGTH
    ensures fresh(t) && fresh(t.h) && fresh(t.l) && fresh(t.h.w) && fresh(t.l.w)
    ensures t.Valid() && t.Value() == v * (Pow(MPI_LENGTH) - P) * Pow(i) && t.h.len == i && t.l.len == MPI_LENGTH
  {
    hide Val, Pow;
    t := new CMpl();
    t.h.AssignD(0);
    t.l.AssignD(0);
    FoldWords(t.l, v);
    assert t.Value() == v * (Pow(MPI_LENGTH) - P) by { assert 0 * Pow(MPI_LENGTH) == 0; }
    FoldedFits(v, i);
    WordShiftLeft(t, i);
  }

  method FoldWords(l: CMpi, v: Word)
    requires v > 0 && l.Valid()
    modifies l`len, l.w
    ensures l.Valid() && l.len == MPI_LENGTH && l.Abs() == v * (Pow(MPI_LENGTH) - P)
  {
    hide Val, Pow;
    l.w[7], l.w[0] := v, v;
    l.w[6], l.w[5], l.w[4], l.w[2], l.w[1] := 0, 0, 0, 0, 0;
    l.w[2] := (0 - v as int) % B;
    l.w[3] := v - 1;
    l.len := 8;
    FoldedWord(l.Used(), v);
  }

  lemma FoldedFits(v: Word, i: nat)
    requires i < MPI_LENGTH
    ensures var x := v * (Pow(MPI_LENGTH) - P) * Pow(i);
            0 <= x < Pow(2 * MPI_LENGTH) && x % Pow(2 * MPI_LENGTH) == x
  {
    hide Pow;
    Powers();
    var p, u: int := Pow(MPI_LENGTH), v;
    var t := u * (p - P);
    MulNonNeg(u, p - P);
    MulMono(u, B - 1, p - P);
    assert (B - 1) * (p - P) < p;
    MulNonNeg(t, Pow(i));
    MulMono(t, p, Pow(i));
    PowAdd(MPI_LENGTH, i);
    PowMono(MPI_LENGTH + i, 2 * MPI_LENGTH - 1);
    PowStep(2 * MPI_LENGTH - 1);
    Modular.Small(t * Pow(i), Pow(2 * MPI_LENGTH));
  }

  /** A fold keeps the residue and lowers the value. */
  lemma FoldKeepsResidue(total: int, v: int, pi: int, total': int, v0: int)
    requires total' == total - v * pi * P && total % P == v0 % P && v >= 1 && pi >= 1
    ensures total' % P == v0 % P && total' < total
  {
    MulMono(1, v, pi);
    assert v * pi >= 1;
    MulMono(1, v * pi, P);
    Modular.Witness(total', total, -(v * pi), P);
  }

  /** Clearing word i of h takes its share from the value. */
  lemma ClearWord(s: seq<Word>, t: seq<Word>, i: nat)
    requires i < |s| == |t| && s[..i] == t[..i] && s[i + 1..] == t[i + 1..] && t[i] == 0
    ensures Val(t) == Val(s) - s[i] * Pow(i)
  {
    hide Val, Pow;
    SetWord(s, t, i);
    assert (0 - s[i] as int) * Pow(i) == -(s[i] * Pow(i));
  }

  /** Word i of h is set to zero. */
  method ClearHigh(n: CMpl, i: nat)
    requires n.Valid() && i < n.h.len
    modifies n.h.w
    ensures n.Valid() && n.Value() == old(n.Value()) - old(n.h.w[i]) * Pow(i) * Pow(MPI_LENGTH)
  {
    hide Val, Pow;
    ghost var p, s := Pow(MPI_LENGTH), n.h.Used();
    ghost var v: int := n.h.w[i];
    n.h.w[i] := 0;
    ghost var u := n.h.Used();
    assert u[..i] == s[..i] && u[i + 1..] == s[i + 1..];
    ClearWord(s, u, i);
    Difference(Val(s), v * Pow(i), p);
  }

  /** One pass of the inner loop: word i of h is replaced by its fold. */
  method FoldOnce(n: CMpl, i: nat)
    requires n.Valid() && i < n.h.len && n.h.w[i] != 0 && n.Value() < Pow(i + 1) * Pow(MPI_LENGTH)
    modifies n.h, n.h.w, n.l, n.l.w
    ensures n.Valid() && n.h.len == old(n.h.len)
    ensures n.Value() == old(n.Value()) - old(n.h.w[i]) * Pow(i) * P
  {
    hide Val, Pow, Kept;
    ghost var total := n.Value();
    var v := n.h.w[i];
    var t := FoldedAt(v, i);
    ClearHigh(n, i);
    FoldStep(total, v, Pow(i), Pow(MPI_LENGTH), t.Value(), n.Value());
    FoldFits(total, v, Pow(i), i);
    KeptSmall(n.Value() + t.Value());
    AddLong(n, t);
    SameLength(n, old(n.h.len), i);
  }

  lemma FoldFits(total: int, v: int, pi: int, i: nat)
    requires v >= 1 && pi >= 1 && total < Pow(i + 1) * Pow(MPI_LENGTH) && i < MPI_LENGTH
    ensures total - v * pi * P < total && total < Pow(MPI_LENGTH) * Pow(MPI_LENGTH)
  {
    hide Pow;
    FoldKeepsResidue(total, v, pi, total - v * pi * P, total);
    PowMono(i + 1, MPI_LENGTH);
    MulMono(Pow(i + 1), Pow(MPI_LENGTH), Pow(MPI_LENGTH));
  }

  /** h has not grown beyond its words. */
  lemma SameLength(n: CMpl, len: nat, i: nat)
    requires n.Valid() && i < len <= n.h.len && n.Value() < Pow(i + 1) * Pow(MPI_LENGTH)
    requires n.h.len > len ==> n.h.Abs() >= Pow(n.h.len - 1)
    ensures n.h.len == len
  {
    hide Val, Pow;
    ShortValue(n, i + 1);
    if n.h.len > len { PowMono(i + 1, n.h.len - 1); }
  }

  lemma ShortValue(n: CMpl, i: nat)
    requires n.Valid()
    ensures n.Value() < Pow(i) * Pow(MPI_LENGTH) <==> n.h.Abs() < Pow(i)
  {
    hide Val, Pow;
    PowMono(n.l.len, MPI_LENGTH);
    HighBound(n.l.Abs(), n.h.Abs(), Pow(MPI_LENGTH), Pow(i));
  }

  /**
   * CMpl_FastReduction: the residue modulo the SM2 prime of the magnitude of any number of sixteen words, with the
   * sign of the number.
   */
  method FastReduction(n: CMpl, m: CMpi)
    requires n.Formed() && m.Valid() && !m.neg && Separate(n, m) && m.len == MPI_LENGTH && m.Abs() == P
    modifies n.h, n.h.w, n.l, n.l.w
    ensures n.Formed() && n.h.len == 0 && n.l.Abs() == Modular.Mod(old(n.Value()), P)
    ensures n.h.neg == old(n.l.neg) && (n.l.neg ==> old(n.l.neg))
    ensures n.l.Value() == if old(n.l.neg) then -Modular.Mod(old(n.Value()), P) else Modular.Mod(old(n.Value()), P)
  {
    hide Val, Pow;
    var tflag := n.l.neg;
    n.h.neg, n.l.neg := false, false;
    ghost var v0 := n.Value();
    FoldAll(n, v0);
    n.h.len := 0;
    n.h.neg := tflag;
    LastSubtraction(n.l, m, tflag);
    NoWords(n.h);
  }

  /** The outer loop: the words of h are folded into l from the top down. */
  method FoldAll(n: CMpl, ghost v0: int)
    requires n.Valid() && v0 == n.Value()
    modifies n.h, n.h.w, n.l, n.l.w
    ensures n.Valid() && n.l.Abs() % P == v0 % P
  {
    hide Val, Pow;
    ghost var len := n.h.len;
    var i := n.h.len as int;
    ShortValue(n, n.h.len);
    while i > 0
      invariant 0 <= i <= len == n.h.len && n.Valid() && n.Value() < Pow(i) * Pow(MPI_LENGTH)
      invariant n.Value() % P == v0 % P
    {
      i := i - 1;
      ClearPosition(n, i, v0);
    }
    NothingAbove(n);
  }

  lemma NothingAbove(n: CMpl)
    requires n.Valid() && n.Value() < Pow(0) * Pow(MPI_LENGTH)
    ensures n.Value() == n.l.Abs()
  {
    hide Val, Pow;
    Empty();
    ShortValue(n, 0);
  }

  /** The inner loop: word i of h becomes zero and stays so. */
  method ClearPosition(n: CMpl, i: nat, ghost v0: int)
    requires n.Valid() && i < n.h.len && n.Value() < Pow(i + 1) * Pow(MPI_LENGTH) && n.Value() % P == v0 % P
    modifies n.h, n.h.w, n.l, n.l.w
    ensures n.Valid() && n.h.len == old(n.h.len) && n.Value() < Pow(i) * Pow(MPI_LENGTH) && n.Value() % P == v0 % P
  {
    hide Val, Pow;
    while n.h.w[i] != 0
      invariant n.Valid() && n.h.len == old(n.h.len)
      invariant n.Value() < Pow(i + 1) * Pow(MPI_LENGTH) && n.Value() % P == v0 % P
      decreases n.Value()
    {
      FoldKeepsResidue(n.Value(), n.h.w[i], Pow(i), n.Value() - n.h.w[i] * Pow(i) * P, v0);
      FoldOnce(n, i);
    }
    ShortValue(n, i + 1);
    OneWordLess(n.h.Used(), i);
    ShortValue(n, i);
  }

  /** What is below 2^256 is less than twice the prime. */
  method LastSubtraction(l: CMpi, m: CMpi, tflag: bool)
    requires l.Valid() && m.Valid() && l != m && l.w != m.w && !l.neg && !m.neg && m.len == MPI_LENGTH && m.Abs() == P
    modifies l, l.w
    ensures l.Valid() && l.Abs() == old(l.Abs()) % P && (l.neg == tflag || (!l.neg && l.Abs() == 0))
  {
    hide Val, Pow;
    ghost var v := l.Abs();
    Powers();
    PowMono(l.len, MPI_LENGTH);
    if l.len < MPI_LENGTH { PowMono(l.len, 7); }
    Modular.Small(if v >= P then v - P else v, P);
    if v >= P { Modular.Witness(v, v - P, 1, P); }
    var c := ComparesTo(l, m);
    if c == 1 { Substract(l, m); }
    c := ComparesTo(l, m);
    if c == 0 {
      l.AssignD(0);
    } else {
      l.neg := tflag;
    }
  }

  // ----- the curve equation -----

  /** A number given by its words. */
  method Constant(ws: seq<Word>) returns (c: CMpi)
    requires |ws| == MPI_LENGTH
    ensures fresh(c) && fresh(c.w) && c.Valid() && !c.neg && c.len == MPI_LENGTH && c.Abs() == Val(ws)
  {
    hide Val, Pow;
    c := new CMpi();
    for i := 0 to MPI_LENGTH
      invariant c.Valid() && !c.neg && fresh(c.w) && c.w[..i] == ws[..i]
    {
      c.w[i] := ws[i];
    }
    c.len := MPI_LENGTH;
    assert c.Used() == ws[..MPI_LENGTH] == ws;
  }

  lemma SumFits(u: int, v: int, w: int, p: int)
    requires 0 <= u < p && 0 <= v < p && 0 <= w < p
    ensures u * v + w < p * p
  {
    MulStep(u, p, v);
    MulStep(v, p, p);
    MulMono(v, p - 1, p);
  }

  /** The right hand side of the curve's equation. */
  function Cubic(x: int, a: int, b: int): int {
    x * x * x + a * x + b
  }

  /** Horner's form of the right hand side modulo the prime. */
  lemma Horner(x: int, a: int, b: int)
    ensures Modular.Mod(Modular.Mod(x * x + a, P) * x + b, P) == Modular.Mod(Cubic(x, a, b), P)
  {
    var u := Modular.Mod(x * x + a, P);
    Modular.Reduce(x * x + a, P);
    Modular.Mul(u, x * x + a, x, x, P);
    Modular.Add(u * x, (x * x + a) * x, b, b, P);
    assert (x * x + a) * x == x * x * x + a * x;
  }

  /** x^2 + a, reduced. */
  method SquarePlus(x: CMpi, gp: CMpi, ga: CMpi) returns (left: CMpl)
    requires x.Valid() && x.len >= 1 && x.Abs() < P
    requires gp.Valid() && !gp.neg && gp.len == MPI_LENGTH && gp.Abs() == P && ga.Valid() && !ga.neg
    ensures fresh(left) && fresh(left.h) && fresh(left.h.w) && fresh(left.l) && fresh(left.l.w) && left.Valid()
    ensures left.l.Abs() == Modular.Mod(x.Abs() * x.Abs() + ga.Abs(), P)
  {
    hide Val, Pow, Modular.Mod, Kept;
    Powers();
    PowMono(ga.len, MPI_LENGTH);
    left := new CMpl();
    SumFits(x.Abs(), x.Abs(), ga.Abs(), Pow(MPI_LENGTH));
    FastSquare(x, left);
    KeptSmall(left.Value() + ga.Abs());
    Addi(left, ga);
    FastReduction(left, gp);
  }

  /** The product of what left.l holds and x, plus b, reduced in place. */
  method TimesPlus(left: CMpl, x: CMpi, gp: CMpi, gb: CMpi)
    requires left.Valid() && Separate(left, x) && Separate(left, gp) && Separate(left, gb) && left.l.Abs() < P
    requires x.Valid() && x.Abs() < P && !x.neg && gb.Valid() && !gb.neg
    requires gp.Valid() && !gp.neg && gp.len == MPI_LENGTH && gp.Abs() == P
    modifies left.h, left.h.w, left.l, left.l.w
    ensures left.Valid() && left.l.Abs() == Modular.Mod(old(left.l.Abs()) * x.Abs() + gb.Abs(), P)
  {
    hide Val, Pow, Modular.Mod, Kept;
    Powers();
    PowMono(gb.len, MPI_LENGTH);
    SumFits(left.l.Abs(), x.Abs(), gb.Abs(), Pow(MPI_LENGTH));
    Multiply(left.l, x, left);
    KeptSmall(left.Value() + gb.Abs());
    Addi(left, gb);
    FastReduction(left, gp);
  }

  /** The left hand side of the equation. */
  method SquareModulo(y: CMpi, gp: CMpi) returns (right: CMpl)
    requires y.Valid() && y.len >= 1 && gp.Valid() && !gp.neg && gp.len == MPI_LENGTH && gp.Abs() == P
    ensures fresh(right) && fresh(right.l) && fresh(right.l.w) && right.Valid()
    ensures right.l.Abs() == Modular.Mod(y.Abs() * y.Abs(), P)
  {
    hide Val, Pow, Modular.Mod;
    right := new CMpl();
    FastSquare(y, right);
    FastReduction(right, gp);
  }

  /** The right hand side of the equation. */
  method CubicModulo(x: CMpi, gp: CMpi) returns (left: CMpl)
    requires x.Valid() && x.len >= 1 && x.Abs() < P && !x.neg
    requires gp.Valid() && !gp.neg && gp.len == MPI_LENGTH && gp.Abs() == P
    ensures fresh(left) && left.Valid() && left.l.Abs() == Modular.Mod(Cubic(x.Abs(), Val(G_A), Val(G_B)), P)
  {
    hide Val, Pow, Modular.Mod, Cubic;
    Horner(x.Abs(), Val(G_A), Val(G_B));
    var ga := Constant(G_A);
    left := SquarePlus(x, gp, ga);
    var gb := Constant(G_B);
    TimesPlus(left, x, gp, gb);
  }

  /** sm2_check_point: true exactly for the reduced coordinates of the points of y^2 = x^3 + ax + b. */
  method CheckPoint(x: CMpi, y: CMpi) returns (ok: bool)
    requires x.Valid() && y.Valid() && x.len >= 1 && y.len >= 1
    ensures ok <==> && !x.neg && !y.neg && x.Abs() < P && y.Abs() < P
                    && Modular.Mod(y.Abs() * y.Abs(), P) == Modular.Mod(Cubic(x.Abs(), Val(G_A), Val(G_B)), P)
  {
    hide Val, Pow, Modular.Mod, Cubic;
    Constants();
    var gp := Constant(G_P);
    if x.neg || y.neg { return false; }
    var below := LargerThanAbs(gp, x);
    if !below { return false; }
    below := LargerThanAbs(gp, y);
    if !below { return false; }
    var left := CubicModulo(x, gp);
    var right := SquareModulo(y, gp);
    ok := EqualsTo(right.l, left.l);
  }
}
