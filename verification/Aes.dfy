/** aes.c: tables, rounds, key schedules and the block cipher. */
module Aes {
  import opened AesColumns

  /** The forward and reverse S-boxes; their contents stay abstract. */
  datatype Boxes = Boxes(fsb: bv8 -> bv8, rsb: bv8 -> bv8)

  /** The reverse box undoes the forward one. */
  ghost predicate Inverse(bx: Boxes) {
    forall x: bv8 :: bx.rsb(bx.fsb(x)) == x
  }

  // ----- the tables as aes_gen_tables makes them -----

  function FT0(bx: Boxes, i: bv8): bv32 {
    var x := bx.fsb(i);
    var y := Xtime(x);
    var z := Xor(y, x);
    Pack(y, x, x, z)
  }

  function FT1(bx: Boxes, i: bv8): bv32 { Rotl8(FT0(bx, i)) }
  function FT2(bx: Boxes, i: bv8): bv32 { Rotl8(FT1(bx, i)) }
  function FT3(bx: Boxes, i: bv8): bv32 { Rotl8(FT2(bx, i)) }

  function RT0(bx: Boxes, i: bv8): bv32 {
    var x := bx.rsb(i);
    Pack(MulE(x), Mul9(x), MulD(x), MulB(x))
  }

  function RT1(bx: Boxes, i: bv8): bv32 { Rotl8(RT0(bx, i)) }
  function RT2(bx: Boxes, i: bv8): bv32 { Rotl8(RT1(bx, i)) }
  function RT3(bx: Boxes, i: bv8): bv32 { Rotl8(RT2(bx, i)) }

  function Sum32(a: bv32, b: bv32, c: bv32, d: bv32): bv32 { Xor32(Xor32(Xor32(a, b), c), d) }

  lemma PackOfSums(a0: bv8, a1: bv8, a2: bv8, a3: bv8, b0: bv8, b1: bv8, b2: bv8, b3: bv8,
                   c0: bv8, c1: bv8, c2: bv8, c3: bv8, d0: bv8, d1: bv8, d2: bv8, d3: bv8)
    ensures Sum32(Pack(a0, a1, a2, a3), Pack(b0, b1, b2, b3), Pack(c0, c1, c2, c3), Pack(d0, d1, d2, d3))
            == Pack(Sum4(a0, b0, c0, d0), Sum4(a1, b1, c1, d1), Sum4(a2, b2, c2, d2), Sum4(a3, b3, c3, d3))
  {
    hide Xor, Xor32, Pack;
    var e0, e1, e2, e3 := Xor(a0, b0), Xor(a1, b1), Xor(a2, b2), Xor(a3, b3);
    PackOfXor(a0, a1, a2, a3, b0, b1, b2, b3);
    PackOfXor(e0, e1, e2, e3, c0, c1, c2, c3);
    PackOfXor(Xor(e0, c0), Xor(e1, c1), Xor(e2, c2), Xor(e3, c3), d0, d1, d2, d3);
  }

  /** The four forward tables together are SubBytes and MixColumns on a column. */
  lemma ForwardTables(bx: Boxes, a: bv8, b: bv8, c: bv8, d: bv8)
    ensures Sum32(FT0(bx, a), FT1(bx, b), FT2(bx, c), FT3(bx, d)) == MixBytes(bx.fsb(a), bx.fsb(b), bx.fsb(c), bx.fsb(d))
  {
    hide Xor, Xor32, Pack, Rotl8, Sum32, Sum4, Xtime;
    var A, B, C, D := bx.fsb(a), bx.fsb(b), bx.fsb(c), bx.fsb(d);
    RotateWord(Mul2(B), B, B, Mul3(B));
    RotateWord(Mul2(C), C, C, Mul3(C));
    RotateWord(Mul3(C), Mul2(C), C, C);
    RotateWord(Mul2(D), D, D, Mul3(D));
    RotateWord(Mul3(D), Mul2(D), D, D);
    RotateWord(D, Mul3(D), Mul2(D), D);
    PackOfSums(Mul2(A), A, A, Mul3(A), Mul3(B), Mul2(B), B, B, C, Mul3(C), Mul2(C), C, D, D, Mul3(D), Mul2(D));
    Rotate(Mul2(B), Mul3(C), D, A);
    Rotate(Mul2(C), Mul3(D), A, B);
    Rotate(B, Mul2(C), Mul3(D), A);
    Rotate(Mul3(A), B, C, Mul2(D));
  }

  /** The four reverse tables together are InvSubBytes and InvMixColumns on a column. */
  lemma ReverseTables(bx: Boxes, a: bv8, b: bv8, c: bv8, d: bv8)
    ensures Sum32(RT0(bx, a), RT1(bx, b), RT2(bx, c), RT3(bx, d)) == UnmixBytes(bx.rsb(a), bx.rsb(b), bx.rsb(c), bx.rsb(d))
  {
    hide Xor, Xor32, Pack, Rotl8, Sum32, Sum4, MulE, MulB, MulD, Mul9;
    var A, B, C, D := bx.rsb(a), bx.rsb(b), bx.rsb(c), bx.rsb(d);
    RotateWord(MulE(B), Mul9(B), MulD(B), MulB(B));
    RotateWord(MulE(C), Mul9(C), MulD(C), MulB(C));
    RotateWord(MulB(C), MulE(C), Mul9(C), MulD(C));
    RotateWord(MulE(D), Mul9(D), MulD(D), MulB(D));
    RotateWord(MulB(D), MulE(D), Mul9(D), MulD(D));
    RotateWord(MulD(D), MulB(D), MulE(D), Mul9(D));
    PackOfSums(MulE(A), Mul9(A), MulD(A), MulB(A), MulB(B), MulE(B), Mul9(B), MulD(B),
               MulD(C), MulB(C), MulE(C), Mul9(C), Mul9(D), MulD(D), MulB(D), MulE(D));
    Rotate(MulE(B), MulB(C), MulD(D), Mul9(A));
    Rotate(MulE(C), MulB(D), MulD(A), Mul9(B));
    Rotate(Mul9(B), MulE(C), MulB(D), MulD(A));
    Rotate(MulB(A), MulD(B), Mul9(C), MulE(D));
  }

  // ----- the steps of the cipher on a state of four columns -----

  datatype Quad = Quad(x0: bv32, x1: bv32, x2: bv32, x3: bv32)

  /** One byte of each of four columns through a box. */
  function Diagonal(s: bv8 -> bv8, a: bv32, b: bv32, c: bv32, d: bv32): bv32 {
    Pack(s(Byte0(a)), s(Byte1(b)), s(Byte2(c)), s(Byte3(d)))
  }

  /** SubBytes and ShiftRows. */
  function SubShift(bx: Boxes, y: Quad): Quad {
    Quad(Diagonal(bx.fsb, y.x0, y.x1, y.x2, y.x3), Diagonal(bx.fsb, y.x1, y.x2, y.x3, y.x0),
         Diagonal(bx.fsb, y.x2, y.x3, y.x0, y.x1), Diagonal(bx.fsb, y.x3, y.x0, y.x1, y.x2))
  }

  /** InvSubBytes and InvShiftRows. */
  function UnsubShift(bx: Boxes, y: Quad): Quad {
    Quad(Diagonal(bx.rsb, y.x0, y.x3, y.x2, y.x1), Diagonal(bx.rsb, y.x1, y.x0, y.x3, y.x2),
         Diagonal(bx.rsb, y.x2, y.x1, y.x0, y.x3), Diagonal(bx.rsb, y.x3, y.x2, y.x1, y.x0))
  }

  function MixAll(y: Quad): Quad { Quad(Mix(y.x0), Mix(y.x1), Mix(y.x2), Mix(y.x3)) }

  function UnmixAll(y: Quad): Quad { Quad(Unmix(y.x0), Unmix(y.x1), Unmix(y.x2), Unmix(y.x3)) }

  /** AddRoundKey. */
  function AddKey(y: Quad, k: Quad): Quad {
    Quad(Xor32(k.x0, y.x0), Xor32(k.x1, y.x1), Xor32(k.x2, y.x2), Xor32(k.x3, y.x3))
  }

  /** Round key i of a schedule. */
  function KeyAt(rk: seq<bv32>, i: nat): Quad
    requires 4 * i + 4 <= |rk|
  {
    Quad(rk[4 * i], rk[4 * i + 1], rk[4 * i + 2], rk[4 * i + 3])
  }

  /** The state after i rounds of the cipher of section 5.1 of FIPS 197. */
  function Rounds(bx: Boxes, rk: seq<bv32>, q: Quad, i: nat): Quad
    requires 4 * i + 4 <= |rk|
  {
    if i == 0 then AddKey(q, KeyAt(rk, 0))
    else AddKey(MixAll(SubShift(bx, Rounds(bx, rk, q, i - 1))), KeyAt(rk, i))
  }

  function Encrypted(bx: Boxes, rk: seq<bv32>, nr: nat, q: Quad): Quad
    requires nr >= 1 && 4 * nr + 4 <= |rk|
  {
    AddKey(SubShift(bx, Rounds(bx, rk, q, nr - 1)), KeyAt(rk, nr))
  }

  /** The state after i rounds of the equivalent inverse cipher of section 5.3.5 of FIPS 197. */
  function InvRounds(bx: Boxes, dk: seq<bv32>, q: Quad, i: nat): Quad
    requires 4 * i + 4 <= |dk|
  {
    if i == 0 then AddKey(q, KeyAt(dk, 0))
    else AddKey(UnmixAll(UnsubShift(bx, InvRounds(bx, dk, q, i - 1))), KeyAt(dk, i))
  }

  function Decrypted(bx: Boxes, dk: seq<bv32>, nr: nat, q: Quad): Quad
    requires nr >= 1 && 4 * nr + 4 <= |dk|
  {
    AddKey(UnsubShift(bx, InvRounds(bx, dk, q, nr - 1)), KeyAt(dk, nr))
  }

  /** The decryption schedule: the round keys backwards, the inner ones through InvMixColumns. */
  ghost predicate InverseSchedule(rk: seq<bv32>, dk: seq<bv32>, nr: nat) {
    && nr >= 1 && 4 * nr + 4 <= |rk| && 4 * nr + 4 <= |dk|
    && KeyAt(dk, 0) == KeyAt(rk, nr) && KeyAt(dk, nr) == KeyAt(rk, 0)
    && forall j | 0 < j < nr :: KeyAt(dk, j) == UnmixAll(KeyAt(rk, nr - j))
  }

  lemma UndoDiagonal(bx: Boxes, w: bv32, a: bv32, b: bv32, c: bv32, d: bv32)
    requires Inverse(bx)
    requires Byte0(a) == bx.fsb(Byte0(w)) && Byte1(b) == bx.fsb(Byte1(w))
    requires Byte2(c) == bx.fsb(Byte2(w)) && Byte3(d) == bx.fsb(Byte3(w))
    ensures Diagonal(bx.rsb, a, b, c, d) == w
  {
    hide Pack, Byte0, Byte1, Byte2, Byte3;
    PackBytes(w);
  }

  lemma DiagonalBytes(s: bv8 -> bv8, a: bv32, b: bv32, c: bv32, d: bv32)
    ensures var w := Diagonal(s, a, b, c, d);
            && Byte0(w) == s(Byte0(a)) && Byte1(w) == s(Byte1(b)) && Byte2(w) == s(Byte2(c)) && Byte3(w) == s(Byte3(d))
  {
    hide Pack, Byte0, Byte1, Byte2, Byte3;
    BytesOfPack(s(Byte0(a)), s(Byte1(b)), s(Byte2(c)), s(Byte3(d)));
  }

  /** InvSubBytes and InvShiftRows undo SubBytes and ShiftRows. */
  lemma UnsubSub(bx: Boxes, y: Quad)
    requires Inverse(bx)
    ensures UnsubShift(bx, SubShift(bx, y)) == y
  {
    hide Diagonal, Byte0, Byte1, Byte2, Byte3, Inverse;
    var z := SubShift(bx, y);
    DiagonalBytes(bx.fsb, y.x0, y.x1, y.x2, y.x3);
    DiagonalBytes(bx.fsb, y.x1, y.x2, y.x3, y.x0);
    DiagonalBytes(bx.fsb, y.x2, y.x3, y.x0, y.x1);
    DiagonalBytes(bx.fsb, y.x3, y.x0, y.x1, y.x2);
    UndoDiagonal(bx, y.x0, z.x0, z.x3, z.x2, z.x1);
    UndoDiagonal(bx, y.x1, z.x1, z.x0, z.x3, z.x2);
    UndoDiagonal(bx, y.x2, z.x2, z.x1, z.x0, z.x3);
    UndoDiagonal(bx, y.x3, z.x3, z.x2, z.x1, z.x0);
  }

  lemma KeyTwice(k: bv32, w: bv32)
    ensures Xor32(k, Xor32(k, w)) == w
  {
  }

  lemma AddKeyTwice(y: Quad, k: Quad)
    ensures AddKey(AddKey(y, k), k) == y
  {
    hide Xor32;
    KeyTwice(k.x0, y.x0);
    KeyTwice(k.x1, y.x1);
    KeyTwice(k.x2, y.x2);
    KeyTwice(k.x3, y.x3);
  }

  /** InvMixColumns passes through AddRoundKey with the mixed key. */
  lemma UnmixAddKey(y: Quad, k: Quad)
    ensures UnmixAll(AddKey(MixAll(y), k)) == AddKey(y, UnmixAll(k))
  {
    hide Xor32, Mix, Unmix;
    UnmixXor(k.x0, Mix(y.x0));
    UnmixXor(k.x1, Mix(y.x1));
    UnmixXor(k.x2, Mix(y.x2));
    UnmixXor(k.x3, Mix(y.x3));
    UnmixMix(y.x0);
    UnmixMix(y.x1);
    UnmixMix(y.x2);
    UnmixMix(y.x3);
  }

  /** Round j of the inverse cipher stands one step before the end of round nr - 1 - j of the cipher. */
  lemma {:induction false} InvRoundsFollow(bx: Boxes, rk: seq<bv32>, dk: seq<bv32>, nr: nat, q: Quad, j: nat)
    requires Inverse(bx) && InverseSchedule(rk, dk, nr) && j < nr
    ensures InvRounds(bx, dk, Encrypted(bx, rk, nr, q), j) == SubShift(bx, Rounds(bx, rk, q, nr - 1 - j))
  {
    hide AddKey, SubShift, UnsubShift, MixAll, UnmixAll, KeyAt, Inverse;
    var c := Encrypted(bx, rk, nr, q);
    if j == 0 {
      AddKeyTwice(SubShift(bx, Rounds(bx, rk, q, nr - 1)), KeyAt(rk, nr));
    } else {
      InvRoundsFollow(bx, rk, dk, nr, q, j - 1);
      var before := Rounds(bx, rk, q, nr - 1 - j);
      UnsubSub(bx, Rounds(bx, rk, q, nr - j));
      assert Rounds(bx, rk, q, nr - j) == AddKey(MixAll(SubShift(bx, before)), KeyAt(rk, nr - j));
      UnmixAddKey(SubShift(bx, before), KeyAt(rk, nr - j));
      AddKeyTwice(SubShift(bx, before), UnmixAll(KeyAt(rk, nr - j)));
    }
  }

  /** Decryption with the inverse schedule undoes encryption, for every number of rounds. */
  lemma DecryptedEncrypted(bx: Boxes, rk: seq<bv32>, dk: seq<bv32>, nr: nat, q: Quad)
    requires Inverse(bx) && InverseSchedule(rk, dk, nr)
    ensures Decrypted(bx, dk, nr, Encrypted(bx, rk, nr, q)) == q
  {
    hide AddKey, SubShift, UnsubShift, MixAll, UnmixAll, KeyAt, Inverse;
    InvRoundsFollow(bx, rk, dk, nr, q, nr - 1);
    UnsubSub(bx, Rounds(bx, rk, q, 0));
    AddKeyTwice(q, KeyAt(rk, 0));
  }
}
