/** aes.c on bytes: the steps of the cipher on words of columns are the steps of FIPS 197 on the bytes of a block. */
module AesBytes {
  import opened AesColumns
  import opened Aes
  import opened AesField
  import Fips197

  // ----- the bytes of a block and of a schedule -----

  /** The four words of a block. */
  function Load(s: seq<bv8>): Quad
    requires |s| == 16
  {
    Quad(Pack(s[0], s[1], s[2], s[3]), Pack(s[4], s[5], s[6], s[7]),
         Pack(s[8], s[9], s[10], s[11]), Pack(s[12], s[13], s[14], s[15]))
  }

  function WordBytes(w: bv32): (s: seq<bv8>)
    ensures |s| == 4
  {
    [Byte0(w), Byte1(w), Byte2(w), Byte3(w)]
  }

  function Store(q: Quad): (s: seq<bv8>)
    ensures |s| == 16
  {
    WordBytes(q.x0) + WordBytes(q.x1) + WordBytes(q.x2) + WordBytes(q.x3)
  }

  lemma LoadStore(q: Quad)
    ensures Load(Store(q)) == q
  {
    hide Pack, Byte0, Byte1, Byte2, Byte3;
    PackBytes(q.x0);
    PackBytes(q.x1);
    PackBytes(q.x2);
    PackBytes(q.x3);
  }

  lemma StoreLoad(s: seq<bv8>)
    requires |s| == 16
    ensures Store(Load(s)) == s
  {
    hide Pack, Byte0, Byte1, Byte2, Byte3;
    BytesOfPack(s[0], s[1], s[2], s[3]);
    BytesOfPack(s[4], s[5], s[6], s[7]);
    BytesOfPack(s[8], s[9], s[10], s[11]);
    BytesOfPack(s[12], s[13], s[14], s[15]);
  }

  /** The words of a schedule as bytes. */
  ghost function Bytes(rk: seq<bv32>): (w: seq<Fips197.Word>)
    ensures |w| == |rk|
  {
    seq(|rk|, n requires 0 <= n < |rk| => WordBytes(rk[n]))
  }

  // ----- the columns -----

  /** One byte of MixColumns. */
  lemma MixedRow(a: bv8, b: bv8, c: bv8, d: bv8)
    ensures Row(a, b, c, d) == Fips197.Plus(Fips197.Plus(Fips197.Product(2, a), Fips197.Product(3, b)),
                                            Fips197.Plus(Fips197.Product(1, c), Fips197.Product(1, d)))
  {
    hide Xor, Mul2, Mul3, Fips197.Plus, Fips197.Product;
    TimesTwo(a);
    TimesThree(b);
    TimesOne(c);
    TimesOne(d);
    PlusIsXor(Mul2(a), Mul3(b));
    PlusIsXor(c, d);
    PlusIsXor(Xor(Mul2(a), Mul3(b)), Xor(c, d));
    XorAssoc(Xor(Mul2(a), Mul3(b)), c, d);
  }

  /** One byte of InvMixColumns. */
  lemma UnmixedRow(a: bv8, b: bv8, c: bv8, d: bv8)
    ensures InvRow(a, b, c, d) == Fips197.Plus(Fips197.Plus(Fips197.Product(14, a), Fips197.Product(11, b)),
                                               Fips197.Plus(Fips197.Product(13, c), Fips197.Product(9, d)))
  {
    hide Xor, MulE, MulB, MulD, Mul9, Fips197.Plus, Fips197.Product;
    TimesFourteen(a);
    TimesEleven(b);
    TimesThirteen(c);
    TimesNine(d);
    PlusIsXor(MulE(a), MulB(b));
    PlusIsXor(MulD(c), Mul9(d));
    PlusIsXor(Xor(MulE(a), MulB(b)), Xor(MulD(c), Mul9(d)));
    XorAssoc(Xor(MulE(a), MulB(b)), MulD(c), Mul9(d));
  }

  // ----- the steps -----

  /** Where the bytes of a state stand. */
  lemma StoredBytes(q: Quad)
    ensures var s := Store(q);
            && s[0] == Byte0(q.x0) && s[1] == Byte1(q.x0) && s[2] == Byte2(q.x0) && s[3] == Byte3(q.x0)
            && s[4] == Byte0(q.x1) && s[5] == Byte1(q.x1) && s[6] == Byte2(q.x1) && s[7] == Byte3(q.x1)
            && s[8] == Byte0(q.x2) && s[9] == Byte1(q.x2) && s[10] == Byte2(q.x2) && s[11] == Byte3(q.x2)
            && s[12] == Byte0(q.x3) && s[13] == Byte1(q.x3) && s[14] == Byte2(q.x3) && s[15] == Byte3(q.x3)
  {
    hide Byte0, Byte1, Byte2, Byte3;
  }

  lemma SameBytes(a: Fips197.State, b: Fips197.State)
    requires a[0] == b[0] && a[1] == b[1] && a[2] == b[2] && a[3] == b[3]
    requires a[4] == b[4] && a[5] == b[5] && a[6] == b[6] && a[7] == b[7]
    requires a[8] == b[8] && a[9] == b[9] && a[10] == b[10] && a[11] == b[11]
    requires a[12] == b[12] && a[13] == b[13] && a[14] == b[14] && a[15] == b[15]
    ensures a == b
  {
  }

  lemma AddedWord(y: bv32, k: bv32)
    ensures Byte0(Xor32(k, y)) == Fips197.Plus(Byte0(y), Byte0(k)) && Byte1(Xor32(k, y)) == Fips197.Plus(Byte1(y), Byte1(k))
    ensures Byte2(Xor32(k, y)) == Fips197.Plus(Byte2(y), Byte2(k)) && Byte3(Xor32(k, y)) == Fips197.Plus(Byte3(y), Byte3(k))
  {
    hide Xor, Xor32, Byte0, Byte1, Byte2, Byte3, Fips197.Plus;
    LowBytesOfXor(k, y);
    SecondBytesOfXor(k, y);
    ThirdBytesOfXor(k, y);
    TopBytesOfXor(k, y);
    XorComm(Byte0(k), Byte0(y));
    XorComm(Byte1(k), Byte1(y));
    XorComm(Byte2(k), Byte2(y));
    XorComm(Byte3(k), Byte3(y));
    PlusIsXor(Byte0(y), Byte0(k));
    PlusIsXor(Byte1(y), Byte1(k));
    PlusIsXor(Byte2(y), Byte2(k));
    PlusIsXor(Byte3(y), Byte3(k));
  }

  lemma AddKeyBytes(q: Quad, k: Quad)
    ensures Store(AddKey(q, k)) == Fips197.AddRoundKey(Store(q), Store(k))
  {
    hide Store, Xor32, Byte0, Byte1, Byte2, Byte3, Fips197.Plus;
    StoredBytes(q);
    StoredBytes(k);
    StoredBytes(AddKey(q, k));
    AddedWord(q.x0, k.x0);
    AddedWord(q.x1, k.x1);
    AddedWord(q.x2, k.x2);
    AddedWord(q.x3, k.x3);
    SameBytes(Store(AddKey(q, k)), Fips197.AddRoundKey(Store(q), Store(k)));
  }

  lemma ShiftedPlaces(s: Fips197.State)
    ensures var t := Fips197.ShiftRows(s);
            && t[0] == s[0] && t[1] == s[5] && t[2] == s[10] && t[3] == s[15]
            && t[4] == s[4] && t[5] == s[9] && t[6] == s[14] && t[7] == s[3]
            && t[8] == s[8] && t[9] == s[13] && t[10] == s[2] && t[11] == s[7]
            && t[12] == s[12] && t[13] == s[1] && t[14] == s[6] && t[15] == s[11]
  {
  }

  lemma UnshiftedPlaces(s: Fips197.State)
    ensures var t := Fips197.InvShiftRows(s);
            && t[0] == s[0] && t[1] == s[13] && t[2] == s[10] && t[3] == s[7]
            && t[4] == s[4] && t[5] == s[1] && t[6] == s[14] && t[7] == s[11]
            && t[8] == s[8] && t[9] == s[5] && t[10] == s[2] && t[11] == s[15]
            && t[12] == s[12] && t[13] == s[9] && t[14] == s[6] && t[15] == s[3]
  {
  }

  /** SubBytes and ShiftRows. */
  lemma SubShiftBytes(bx: Boxes, q: Quad)
    ensures Store(SubShift(bx, q)) == Fips197.ShiftRows(Fips197.SubBytes(bx.fsb, Store(q)))
  {
    hide Store, Diagonal, Byte0, Byte1, Byte2, Byte3, Fips197.ShiftRows;
    ShiftedPlaces(Fips197.SubBytes(bx.fsb, Store(q)));
    StoredBytes(q);
    StoredBytes(SubShift(bx, q));
    DiagonalBytes(bx.fsb, q.x0, q.x1, q.x2, q.x3);
    DiagonalBytes(bx.fsb, q.x1, q.x2, q.x3, q.x0);
    DiagonalBytes(bx.fsb, q.x2, q.x3, q.x0, q.x1);
    DiagonalBytes(bx.fsb, q.x3, q.x0, q.x1, q.x2);
    SameBytes(Store(SubShift(bx, q)), Fips197.ShiftRows(Fips197.SubBytes(bx.fsb, Store(q))));
  }

  /** InvSubBytes and InvShiftRows. */
  lemma UnsubShiftBytes(bx: Boxes, q: Quad)
    ensures Store(UnsubShift(bx, q)) == Fips197.InvShiftRows(Fips197.SubBytes(bx.rsb, Store(q)))
  {
    hide Store, Diagonal, Byte0, Byte1, Byte2, Byte3, Fips197.InvShiftRows;
    UnshiftedPlaces(Fips197.SubBytes(bx.rsb, Store(q)));
    StoredBytes(q);
    StoredBytes(UnsubShift(bx, q));
    DiagonalBytes(bx.rsb, q.x0, q.x3, q.x2, q.x1);
    DiagonalBytes(bx.rsb, q.x1, q.x0, q.x3, q.x2);
    DiagonalBytes(bx.rsb, q.x2, q.x1, q.x0, q.x3);
    DiagonalBytes(bx.rsb, q.x3, q.x2, q.x1, q.x0);
    SameBytes(Store(UnsubShift(bx, q)), Fips197.InvShiftRows(Fips197.SubBytes(bx.rsb, Store(q))));
  }

  /** One column through MixColumns. */
  lemma MixedColumn(w: bv32, s: Fips197.State, c: nat)
    requires c < 4 && s[4 * c] == Byte0(w) && s[4 * c + 1] == Byte1(w) && s[4 * c + 2] == Byte2(w) && s[4 * c + 3] == Byte3(w)
    ensures var m := [2, 3, 1, 1];
            && Byte0(Mix(w)) == Fips197.MixedByte(m, s, c, 0) && Byte1(Mix(w)) == Fips197.MixedByte(m, s, c, 1)
            && Byte2(Mix(w)) == Fips197.MixedByte(m, s, c, 2) && Byte3(Mix(w)) == Fips197.MixedByte(m, s, c, 3)
  {
    hide Pack, Byte0, Byte1, Byte2, Byte3, Row, Fips197.Plus, Fips197.Product;
    var a, b, d, e := Byte0(w), Byte1(w), Byte2(w), Byte3(w);
    BytesOfPack(Row(a, b, d, e), Row(b, d, e, a), Row(d, e, a, b), Row(e, a, b, d));
    MixedRow(a, b, d, e);
    MixedRow(b, d, e, a);
    MixedRow(d, e, a, b);
    MixedRow(e, a, b, d);
  }

  lemma UnmixedColumn(w: bv32, s: Fips197.State, c: nat)
    requires c < 4 && s[4 * c] == Byte0(w) && s[4 * c + 1] == Byte1(w) && s[4 * c + 2] == Byte2(w) && s[4 * c + 3] == Byte3(w)
    ensures var m := [14, 11, 13, 9];
            && Byte0(Unmix(w)) == Fips197.MixedByte(m, s, c, 0) && Byte1(Unmix(w)) == Fips197.MixedByte(m, s, c, 1)
            && Byte2(Unmix(w)) == Fips197.MixedByte(m, s, c, 2) && Byte3(Unmix(w)) == Fips197.MixedByte(m, s, c, 3)
  {
    hide Pack, Byte0, Byte1, Byte2, Byte3, InvRow, Fips197.Plus, Fips197.Product;
    var a, b, d, e := Byte0(w), Byte1(w), Byte2(w), Byte3(w);
    BytesOfPack(InvRow(a, b, d, e), InvRow(b, d, e, a), InvRow(d, e, a, b), InvRow(e, a, b, d));
    UnmixedRow(a, b, d, e);
    UnmixedRow(b, d, e, a);
    UnmixedRow(d, e, a, b);
    UnmixedRow(e, a, b, d);
  }

  lemma MixAllBytes(q: Quad)
    ensures Store(MixAll(q)) == Fips197.MixColumns(Store(q))
  {
    hide Store, Mix, Byte0, Byte1, Byte2, Byte3, Fips197.MixedByte;
    var s := Store(q);
    StoredBytes(q);
    StoredBytes(MixAll(q));
    MixedColumn(q.x0, s, 0);
    MixedColumn(q.x1, s, 1);
    MixedColumn(q.x2, s, 2);
    MixedColumn(q.x3, s, 3);
    SameBytes(Store(MixAll(q)), Fips197.MixColumns(s));
  }

  lemma UnmixAllBytes(q: Quad)
    ensures Store(UnmixAll(q)) == Fips197.InvMixColumns(Store(q))
  {
    hide Store, Unmix, Byte0, Byte1, Byte2, Byte3, Fips197.MixedByte;
    var s := Store(q);
    StoredBytes(q);
    StoredBytes(UnmixAll(q));
    UnmixedColumn(q.x0, s, 0);
    UnmixedColumn(q.x1, s, 1);
    UnmixedColumn(q.x2, s, 2);
    UnmixedColumn(q.x3, s, 3);
    SameBytes(Store(UnmixAll(q)), Fips197.InvMixColumns(s));
  }

  lemma KeyBytes(rk: seq<bv32>, i: nat)
    requires 4 * i + 4 <= |rk|
    ensures Store(KeyAt(rk, i)) == Fips197.RoundKey(Bytes(rk), i)
  {
    hide Store, Byte0, Byte1, Byte2, Byte3;
    StoredBytes(KeyAt(rk, i));
    SameBytes(Store(KeyAt(rk, i)), Fips197.RoundKey(Bytes(rk), i));
  }

  // ----- the cipher -----

  lemma {:induction false} RoundsBytes(bx: Boxes, rk: seq<bv32>, s: Fips197.State, i: nat)
    requires 4 * i + 4 <= |rk|
    ensures Store(Rounds(bx, rk, Load(s), i)) == Fips197.Rounds(bx.fsb, Bytes(rk), s, i)
  {
    hide Load, Store, Bytes, AddKey, SubShift, MixAll, KeyAt;
    hide Fips197.AddRoundKey, Fips197.MixColumns, Fips197.ShiftRows, Fips197.SubBytes, Fips197.RoundKey;
    KeyBytes(rk, i);
    if i == 0 {
      StoreLoad(s);
      AddKeyBytes(Load(s), KeyAt(rk, 0));
    } else {
      RoundsBytes(bx, rk, s, i - 1);
      var q := Rounds(bx, rk, Load(s), i - 1);
      SubShiftBytes(bx, q);
      MixAllBytes(SubShift(bx, q));
      AddKeyBytes(MixAll(SubShift(bx, q)), KeyAt(rk, i));
    }
  }

  /** The cipher on words of columns is the cipher of FIPS 197 on bytes. */
  lemma EncryptedBytes(bx: Boxes, rk: seq<bv32>, nr: nat, s: Fips197.State)
    requires nr >= 1 && 4 * nr + 4 <= |rk|
    ensures Store(Encrypted(bx, rk, nr, Load(s))) == Fips197.Cipher(bx.fsb, Bytes(rk), nr, s)
  {
    hide Load, Store, Bytes, AddKey, SubShift, KeyAt, Rounds;
    hide Fips197.AddRoundKey, Fips197.ShiftRows, Fips197.SubBytes, Fips197.RoundKey, Fips197.Rounds;
    var q := Rounds(bx, rk, Load(s), nr - 1);
    RoundsBytes(bx, rk, s, nr - 1);
    SubShiftBytes(bx, q);
    KeyBytes(rk, nr);
    AddKeyBytes(SubShift(bx, q), KeyAt(rk, nr));
  }

  lemma {:induction false} InvRoundsBytes(bx: Boxes, dk: seq<bv32>, s: Fips197.State, i: nat)
    requires 4 * i + 4 <= |dk|
    ensures Store(InvRounds(bx, dk, Load(s), i)) == Fips197.EqInvRounds(bx.rsb, Bytes(dk), s, i)
  {
    hide Load, Store, Bytes, AddKey, UnsubShift, UnmixAll, KeyAt;
    hide Fips197.AddRoundKey, Fips197.InvMixColumns, Fips197.InvShiftRows, Fips197.SubBytes, Fips197.RoundKey;
    KeyBytes(dk, i);
    if i == 0 {
      StoreLoad(s);
      AddKeyBytes(Load(s), KeyAt(dk, 0));
    } else {
      InvRoundsBytes(bx, dk, s, i - 1);
      var q := InvRounds(bx, dk, Load(s), i - 1);
      UnsubShiftBytes(bx, q);
      UnmixAllBytes(UnsubShift(bx, q));
      AddKeyBytes(UnmixAll(UnsubShift(bx, q)), KeyAt(dk, i));
    }
  }

  /** The inverse cipher on words of columns is the equivalent inverse cipher of FIPS 197 on bytes. */
  lemma DecryptedBytes(bx: Boxes, dk: seq<bv32>, nr: nat, s: Fips197.State)
    requires nr >= 1 && 4 * nr + 4 <= |dk|
    ensures Store(Decrypted(bx, dk, nr, Load(s))) == Fips197.EqInvCipher(bx.rsb, Bytes(dk), nr, s)
  {
    hide Load, Store, Bytes, AddKey, UnsubShift, KeyAt, InvRounds;
    hide Fips197.AddRoundKey, Fips197.InvShiftRows, Fips197.SubBytes, Fips197.RoundKey, Fips197.EqInvRounds;
    var q := InvRounds(bx, dk, Load(s), nr - 1);
    InvRoundsBytes(bx, dk, s, nr - 1);
    UnsubShiftBytes(bx, q);
    KeyBytes(dk, nr);
    AddKeyBytes(UnsubShift(bx, q), KeyAt(dk, nr));
  }

  /** Substituting bytes and moving them commute. */
  lemma SubAfterShift(g: bv8 -> bv8, s: Fips197.State)
    ensures Fips197.SubBytes(g, Fips197.InvShiftRows(s)) == Fips197.InvShiftRows(Fips197.SubBytes(g, s))
  {
    hide Fips197.InvShiftRows;
    UnshiftedPlaces(s);
    UnshiftedPlaces(Fips197.SubBytes(g, s));
    SameBytes(Fips197.SubBytes(g, Fips197.InvShiftRows(s)), Fips197.InvShiftRows(Fips197.SubBytes(g, s)));
  }

  lemma UnmixOfSum(y: Quad, k: Quad)
    ensures UnmixAll(AddKey(y, k)) == AddKey(UnmixAll(y), UnmixAll(k))
  {
    hide Xor32, Unmix;
    UnmixXor(k.x0, y.x0);
    UnmixXor(k.x1, y.x1);
    UnmixXor(k.x2, y.x2);
    UnmixXor(k.x3, y.x3);
  }

  /** With the inverse schedule, inner rounds of the equivalent inverse cipher are those of the inverse cipher mixed. */
  lemma {:induction false} EquivalentRounds(bx: Boxes, rk: seq<bv32>, dk: seq<bv32>, nr: nat, s: Fips197.State, j: nat)
    requires InverseSchedule(rk, dk, nr) && j < nr
    ensures var t := Fips197.InvRounds(bx.rsb, Bytes(rk), nr, s, nr - j);
            Store(InvRounds(bx, dk, Load(s), j)) == if j == 0 then t else Fips197.InvMixColumns(t)
  {
    hide Load, Store, Bytes, AddKey, UnsubShift, UnmixAll, KeyAt;
    hide Fips197.AddRoundKey, Fips197.InvMixColumns, Fips197.InvShiftRows, Fips197.SubBytes, Fips197.RoundKey;
    KeyBytes(rk, nr - j);
    if j == 0 {
      StoreLoad(s);
      AddKeyBytes(Load(s), KeyAt(rk, nr));
    } else {
      EquivalentRounds(bx, rk, dk, nr, s, j - 1);
      var q, k := InvRounds(bx, dk, Load(s), j - 1), KeyAt(rk, nr - j);
      UnsubShiftBytes(bx, q);
      SubAfterShift(bx.rsb, Store(q));
      AddKeyBytes(UnsubShift(bx, q), k);
      UnmixOfSum(UnsubShift(bx, q), k);
      UnmixAllBytes(AddKey(UnsubShift(bx, q), k));
    }
  }

  /** Section 5.3.5 of FIPS 197: with the inverse schedule the equivalent inverse cipher is the inverse cipher. */
  lemma EquivalentInverse(bx: Boxes, rk: seq<bv32>, dk: seq<bv32>, nr: nat, s: Fips197.State)
    requires InverseSchedule(rk, dk, nr)
    ensures Store(Decrypted(bx, dk, nr, Load(s))) == Fips197.InvCipher(bx.rsb, Bytes(rk), nr, s)
  {
    hide Load, Store, Bytes, AddKey, UnsubShift, UnmixAll, KeyAt;
    hide Fips197.AddRoundKey, Fips197.InvMixColumns, Fips197.InvShiftRows, Fips197.SubBytes, Fips197.RoundKey;
    var q := InvRounds(bx, dk, Load(s), nr - 1);
    EquivalentRounds(bx, rk, dk, nr, s, nr - 1);
    KeyBytes(rk, 0);
    UnsubShiftBytes(bx, q);
    SubAfterShift(bx.rsb, Store(q));
    AddKeyBytes(UnsubShift(bx, q), KeyAt(rk, 0));
  }
}
