/** aes.c: the XTS mode with ciphertext stealing, over any block permutation. */
module Xts {
  import opened Aes
  import opened AesBytes
  import opened AesBlock

  type Block = s: seq<bv8> | |s| == 16 witness seq(16, _ => 0)

  /** Encryption and decryption of a block under the data key, encryption under the tweak key, and what follows a tweak. */
  datatype Cipher = Cipher(enc: Block -> Block, dec: Block -> Block, tweak: Block -> Block)

  ghost predicate Permutation(c: Cipher) {
    forall b: Block :: c.dec(c.enc(b)) == b
  }

  datatype Mode = Encrypt | Decrypt

  // ----- multiplication by x in GF(2^128) -----

  function Join8(b0: bv8, b1: bv8, b2: bv8, b3: bv8, b4: bv8, b5: bv8, b6: bv8, b7: bv8): bv64 {
    (b0 as bv64) | (b1 as bv64 << 8) | (b2 as bv64 << 16) | (b3 as bv64 << 24)
    | (b4 as bv64 << 32) | (b5 as bv64 << 40) | (b6 as bv64 << 48) | (b7 as bv64 << 56)
  }

  /** GET_UINT64_LE and PUT_UINT64_LE. */
  function Get64(b: Block, i: nat): bv64
    requires i + 8 <= 16
  {
    Join8(b[i], b[i + 1], b[i + 2], b[i + 3], b[i + 4], b[i + 5], b[i + 6], b[i + 7])
  }

  function Put64(n: bv64): (s: seq<bv8>)
    ensures |s| == 8
  {
    [(n & 0xFF) as bv8, ((n >> 8) & 0xFF) as bv8, ((n >> 16) & 0xFF) as bv8, ((n >> 24) & 0xFF) as bv8,
     ((n >> 32) & 0xFF) as bv8, ((n >> 40) & 0xFF) as bv8, ((n >> 48) & 0xFF) as bv8, ((n >> 56) & 0xFF) as bv8]
  }

  /** mbedtls_gf128mul_x_ble on the two halves. */
  function MulLow(a: bv64, b: bv64): bv64 {
    (a << 1) ^ (if b >> 63 == 1 then 0x87 else 0)
  }

  function MulHigh(a: bv64, b: bv64): bv64 {
    (a >> 63) | (b << 1)
  }

  function MulX(x: Block): Block {
    var a, b := Get64(x, 0), Get64(x, 8);
    Put64(MulLow(a, b)) + Put64(MulHigh(a, b))
  }

  /** The two halves are the 128-bit shift with the polynomial folded in when a bit falls out. */
  lemma MulXIsShift(a: bv64, b: bv64)
    ensures (MulLow(a, b) as bv128) | (MulHigh(a, b) as bv128 << 64)
            == (((a as bv128) | (b as bv128 << 64)) << 1)
               ^ (if ((a as bv128) | (b as bv128 << 64)) >> 127 == 1 then 0x87 else 0)
  {
  }

  lemma PutJoined(b0: bv8, b1: bv8, b2: bv8, b3: bv8, b4: bv8, b5: bv8, b6: bv8, b7: bv8)
    ensures Put64(Join8(b0, b1, b2, b3, b4, b5, b6, b7)) == [b0, b1, b2, b3, b4, b5, b6, b7]
  {
  }

  function ShiftIn(x: bv8, below: bv8): bv8 { (x << 1) | (below >> 7) }

  function FoldIn(x: bv8, top: bv8): bv8 { (x << 1) ^ (if top >> 7 == 1 then 0x87 else 0) }

  lemma ShiftedBytes(b0: bv8, b1: bv8, b2: bv8, b3: bv8, b4: bv8, b5: bv8, b6: bv8, b7: bv8)
    ensures Join8(b0, b1, b2, b3, b4, b5, b6, b7) << 1
            == Join8(b0 << 1, (b1 << 1) | (b0 >> 7), (b2 << 1) | (b1 >> 7), (b3 << 1) | (b2 >> 7),
                     (b4 << 1) | (b3 >> 7), (b5 << 1) | (b4 >> 7), (b6 << 1) | (b5 >> 7), (b7 << 1) | (b6 >> 7))
  {
  }

  lemma FirstByte(b: bv8)
    ensures ShiftIn(b, 0) == b << 1
  {
  }

  lemma ShiftJoined(b0: bv8, b1: bv8, b2: bv8, b3: bv8, b4: bv8, b5: bv8, b6: bv8, b7: bv8)
    ensures Join8(b0, b1, b2, b3, b4, b5, b6, b7) << 1
            == Join8(ShiftIn(b0, 0), ShiftIn(b1, b0), ShiftIn(b2, b1), ShiftIn(b3, b2),
                     ShiftIn(b4, b3), ShiftIn(b5, b4), ShiftIn(b6, b5), ShiftIn(b7, b6))
  {
    hide Join8;
    FirstByte(b0);
    ShiftedBytes(b0, b1, b2, b3, b4, b5, b6, b7);
  }

  lemma TopJoined(b0: bv8, b1: bv8, b2: bv8, b3: bv8, b4: bv8, b5: bv8, b6: bv8, b7: bv8)
    ensures Join8(b0, b1, b2, b3, b4, b5, b6, b7) >> 63 == ShiftIn(0, b7) as bv64
    ensures ShiftIn(0, b7) as bv64 == 1 <==> b7 >> 7 == 1
  {
  }

  lemma XorJoined(b0: bv8, b1: bv8, b2: bv8, b3: bv8, b4: bv8, b5: bv8, b6: bv8, b7: bv8)
    ensures Join8(b0, b1, b2, b3, b4, b5, b6, b7) ^ 0x87 == Join8(b0 ^ 0x87, b1, b2, b3, b4, b5, b6, b7)
    ensures Join8(b0, b1, b2, b3, b4, b5, b6, b7) ^ 0 == Join8(b0, b1, b2, b3, b4, b5, b6, b7)
  {
  }

  lemma OrJoined(b0: bv8, b1: bv8, b2: bv8, b3: bv8, b4: bv8, b5: bv8, b6: bv8, b7: bv8, c: bv8)
    ensures (c as bv64) | Join8(b0, b1, b2, b3, b4, b5, b6, b7) == Join8(c | b0, b1, b2, b3, b4, b5, b6, b7)
  {
  }

  lemma FoldedByte(x: bv8, top: bv8)
    ensures FoldIn(x, top) == if top >> 7 == 1 then ShiftIn(x, 0) ^ 0x87 else ShiftIn(x, 0)
  {
  }

  lemma ShiftedByte(x: bv8, below: bv8)
    ensures ShiftIn(0, below) | ShiftIn(x, 0) == ShiftIn(x, below)
  {
  }

  lemma LowHalf(x0: bv8, x1: bv8, x2: bv8, x3: bv8, x4: bv8, x5: bv8, x6: bv8, x7: bv8,
                x8: bv8, x9: bv8, x10: bv8, x11: bv8, x12: bv8, x13: bv8, x14: bv8, x15: bv8)
    ensures MulLow(Join8(x0, x1, x2, x3, x4, x5, x6, x7), Join8(x8, x9, x10, x11, x12, x13, x14, x15))
            == Join8(FoldIn(x0, x15), ShiftIn(x1, x0), ShiftIn(x2, x1), ShiftIn(x3, x2),
                     ShiftIn(x4, x3), ShiftIn(x5, x4), ShiftIn(x6, x5), ShiftIn(x7, x6))
  {
    hide Join8, ShiftIn, FoldIn;
    ShiftJoined(x0, x1, x2, x3, x4, x5, x6, x7);
    TopJoined(x8, x9, x10, x11, x12, x13, x14, x15);
    XorJoined(ShiftIn(x0, 0), ShiftIn(x1, x0), ShiftIn(x2, x1), ShiftIn(x3, x2),
              ShiftIn(x4, x3), ShiftIn(x5, x4), ShiftIn(x6, x5), ShiftIn(x7, x6));
    FoldedByte(x0, x15);
  }

  lemma HighHalf(x0: bv8, x1: bv8, x2: bv8, x3: bv8, x4: bv8, x5: bv8, x6: bv8, x7: bv8,
                 x8: bv8, x9: bv8, x10: bv8, x11: bv8, x12: bv8, x13: bv8, x14: bv8, x15: bv8)
    ensures MulHigh(Join8(x0, x1, x2, x3, x4, x5, x6, x7), Join8(x8, x9, x10, x11, x12, x13, x14, x15))
            == Join8(ShiftIn(x8, x7), ShiftIn(x9, x8), ShiftIn(x10, x9), ShiftIn(x11, x10),
                     ShiftIn(x12, x11), ShiftIn(x13, x12), ShiftIn(x14, x13), ShiftIn(x15, x14))
  {
    hide Join8, ShiftIn;
    TopJoined(x0, x1, x2, x3, x4, x5, x6, x7);
    ShiftJoined(x8, x9, x10, x11, x12, x13, x14, x15);
    OrJoined(ShiftIn(x8, 0), ShiftIn(x9, x8), ShiftIn(x10, x9), ShiftIn(x11, x10),
             ShiftIn(x12, x11), ShiftIn(x13, x12), ShiftIn(x14, x13), ShiftIn(x15, x14), ShiftIn(0, x7));
    ShiftedByte(x8, x7);
  }

  lemma LowBytes(x: Block)
    ensures var s := Put64(MulLow(Get64(x, 0), Get64(x, 8)));
            && s[0] == FoldIn(x[0], x[15]) && s[1] == ShiftIn(x[1], x[0]) && s[2] == ShiftIn(x[2], x[1])
            && s[3] == ShiftIn(x[3], x[2]) && s[4] == ShiftIn(x[4], x[3]) && s[5] == ShiftIn(x[5], x[4])
            && s[6] == ShiftIn(x[6], x[5]) && s[7] == ShiftIn(x[7], x[6])
  {
    hide Join8, Put64, ShiftIn, FoldIn, MulLow;
    LowHalf(x[0], x[1], x[2], x[3], x[4], x[5], x[6], x[7], x[8], x[9], x[10], x[11], x[12], x[13], x[14], x[15]);
    PutJoined(FoldIn(x[0], x[15]), ShiftIn(x[1], x[0]), ShiftIn(x[2], x[1]), ShiftIn(x[3], x[2]),
              ShiftIn(x[4], x[3]), ShiftIn(x[5], x[4]), ShiftIn(x[6], x[5]), ShiftIn(x[7], x[6]));
  }

  lemma HighBytes(x: Block)
    ensures var s := Put64(MulHigh(Get64(x, 0), Get64(x, 8)));
            && s[0] == ShiftIn(x[8], x[7]) && s[1] == ShiftIn(x[9], x[8]) && s[2] == ShiftIn(x[10], x[9])
            && s[3] == ShiftIn(x[11], x[10]) && s[4] == ShiftIn(x[12], x[11]) && s[5] == ShiftIn(x[13], x[12])
            && s[6] == ShiftIn(x[14], x[13]) && s[7] == ShiftIn(x[15], x[14])
  {
    hide Join8, Put64, ShiftIn, MulHigh;
    HighHalf(x[0], x[1], x[2], x[3], x[4], x[5], x[6], x[7], x[8], x[9], x[10], x[11], x[12], x[13], x[14], x[15]);
    PutJoined(ShiftIn(x[8], x[7]), ShiftIn(x[9], x[8]), ShiftIn(x[10], x[9]), ShiftIn(x[11], x[10]),
              ShiftIn(x[12], x[11]), ShiftIn(x[13], x[12]), ShiftIn(x[14], x[13]), ShiftIn(x[15], x[14]));
  }

  lemma WrittenOut(x: bv8, y: bv8)
    ensures FoldIn(x, y) == (x << 1) ^ (if y >> 7 == 1 then 0x87 else 0) && ShiftIn(x, y) == (x << 1) | (y >> 7)
  {
  }

  lemma MulXByte(x: Block, i: nat)
    requires i < 16
    ensures MulX(x)[i] == if i == 0 then FoldIn(x[0], x[15]) else ShiftIn(x[i], x[i - 1])
  {
    hide Get64, Put64, MulLow, MulHigh, ShiftIn, FoldIn;
    LowBytes(x);
    HighBytes(x);
  }

  /** On the bytes of a block: every byte is shifted and takes the bit from the byte before it; byte 0 takes the polynomial. */
  lemma MulXBytes(x: Block)
    ensures MulX(x)[0] == (x[0] << 1) ^ (if x[15] >> 7 == 1 then 0x87 else 0)
    ensures forall i | 0 < i < 16 :: MulX(x)[i] == (x[i] << 1) | (x[i - 1] >> 7)
  {
    hide MulX, ShiftIn, FoldIn;
    MulXByte(x, 0);
    WrittenOut(x[0], x[15]);
    forall i | 0 < i < 16
      ensures MulX(x)[i] == (x[i] << 1) | (x[i - 1] >> 7)
    {
      MulXByte(x, i);
      WrittenOut(x[i], x[i - 1]);
    }
  }

  // ----- one block -----

  function XorBytes(x: Block, y: Block): (z: Block)
    ensures forall i | 0 <= i < 16 :: z[i] == x[i] ^ y[i]
  {
    seq(16, i requires 0 <= i < 16 => x[i] ^ y[i])
  }

  lemma XorTwice(x: Block, y: Block)
    ensures XorBytes(XorBytes(x, y), y) == x
  {
    forall i | 0 <= i < 16
      ensures XorBytes(XorBytes(x, y), y)[i] == x[i]
    {
      ByteTwice(x[i], y[i]);
    }
  }

  lemma ByteTwice(x: bv8, y: bv8)
    ensures (x ^ y) ^ y == x
  {
  }

  /** A block whitened by a tweak on both sides. */
  function Whiten(f: Block -> Block, t: Block, b: Block): Block {
    XorBytes(f(XorBytes(b, t)), t)
  }

  lemma Unwhiten(c: Cipher, t: Block, b: Block)
    requires Permutation(c)
    ensures Whiten(c.dec, t, Whiten(c.enc, t, b)) == b
  {
    hide XorBytes;
    XorTwice(c.enc(XorBytes(b, t)), t);
    XorTwice(b, t);
  }

  // ----- a data unit -----

  /** The tweak of block j. */
  function Tweak(t0: Block, j: nat): Block {
    if j == 0 then t0 else MulX(Tweak(t0, j - 1))
  }

  /** The tweak of the next block, byte by byte. */
  lemma TweakBytes(t0: Block, j: nat)
    ensures Tweak(t0, 0) == t0
    ensures var x, y := Tweak(t0, j), Tweak(t0, j + 1);
            && y[0] == (x[0] << 1) ^ (if x[15] >> 7 == 1 then 0x87 else 0)
            && forall i | 0 < i < 16 :: y[i] == (x[i] << 1) | (x[i - 1] >> 7)
  {
    hide MulX;
    MulXBytes(Tweak(t0, j));
  }

  function BlockAt(s: seq<bv8>, j: nat): (b: Block)
    requires 16 * j + 16 <= |s|
  {
    s[16 * j..16 * j + 16]
  }

  /** The first m blocks, each under its own tweak. */
  function Main(f: Block -> Block, t0: Block, s: seq<bv8>, m: nat): (o: seq<bv8>)
    requires 16 * m <= |s|
    ensures |o| == 16 * m
  {
    if m == 0 then [] else Main(f, t0, s, m - 1) + Whiten(f, Tweak(t0, m - 1), BlockAt(s, m - 1))
  }

  /** The last full block before bytes are stolen from it; decryption has the last two tweaks exchanged. */
  function Lender(f: Block -> Block, mode: Mode, t0: Block, s: seq<bv8>): Block
    requires |s| >= 16
  {
    var n := |s| / 16;
    Whiten(f, Tweak(t0, if mode == Encrypt then n - 1 else n), BlockAt(s, n - 1))
  }

  /** What takes the place of the last full block: the remainder completed with the stolen bytes. */
  function Completed(f: Block -> Block, mode: Mode, t0: Block, s: seq<bv8>): Block
    requires |s| >= 16
  {
    var n, r := |s| / 16, |s| % 16;
    Whiten(f, Tweak(t0, if mode == Encrypt then n else n - 1), s[16 * n..] + Lender(f, mode, t0, s)[r..])
  }

  /** XTS of sections 5.3 and 5.4 of IEEE Std 1619-2007. */
  function Unit(f: Block -> Block, mode: Mode, t0: Block, s: seq<bv8>): (o: seq<bv8>)
    requires |s| >= 16
    ensures |o| == |s|
  {
    var n, r := |s| / 16, |s| % 16;
    if r == 0 then Main(f, t0, s, n)
    else Main(f, t0, s, n - 1) + Completed(f, mode, t0, s) + Lender(f, mode, t0, s)[..r]
  }

  /** What takes its place when the remainder has been overwritten before it is read: the lender completed with itself. */
  function SelfCompleted(f: Block -> Block, mode: Mode, t0: Block, s: seq<bv8>): Block
    requires |s| >= 16
  {
    var n := |s| / 16;
    Whiten(f, Tweak(t0, if mode == Encrypt then n else n - 1), Lender(f, mode, t0, s))
  }

  /** What the routine leaves when input and output are the same buffer. */
  function InPlace(f: Block -> Block, mode: Mode, t0: Block, s: seq<bv8>): (o: seq<bv8>)
    requires |s| >= 16
    ensures |o| == |s|
  {
    var n, r := |s| / 16, |s| % 16;
    if r == 0 then Main(f, t0, s, n)
    else Main(f, t0, s, n - 1) + SelfCompleted(f, mode, t0, s) + Lender(f, mode, t0, s)[..r]
  }

  lemma {:induction false} MainBlocks(f: Block -> Block, t0: Block, s: seq<bv8>, m: nat, j: nat)
    requires 16 * m <= |s| && j < m
    ensures BlockAt(Main(f, t0, s, m), j) == Whiten(f, Tweak(t0, j), BlockAt(s, j))
  {
    hide Whiten, Tweak;
    if j < m - 1 {
      MainBlocks(f, t0, s, m - 1, j);
      assert Main(f, t0, s, m)[..16 * (m - 1)] == Main(f, t0, s, m - 1);
    }
  }

  lemma SameBlock(o: seq<bv8>, l: nat, j: nat)
    requires 16 * j + 16 <= l <= |o|
    ensures BlockAt(o, j) == BlockAt(o[..l], j)
  {
    assert o[..l][16 * j..16 * j + 16] == o[16 * j..16 * j + 16];
  }

  /** Blocks under their own tweaks decrypt to what they were. */
  lemma {:induction false} MainInverts(c: Cipher, t0: Block, s: seq<bv8>, o: seq<bv8>, m: nat, k: nat)
    requires Permutation(c) && k <= m && 16 * m <= |s| && 16 * m <= |o| && o[..16 * m] == Main(c.enc, t0, s, m)
    ensures Main(c.dec, t0, o, k) == s[..16 * k]
  {
    hide Whiten, Tweak, Permutation;
    if k > 0 {
      MainInverts(c, t0, s, o, m, k - 1);
      MainBlocks(c.enc, t0, s, m, k - 1);
      SameBlock(o, 16 * m, k - 1);
      Unwhiten(c, Tweak(t0, k - 1), BlockAt(s, k - 1));
      assert s[..16 * k] == s[..16 * (k - 1)] + BlockAt(s, k - 1);
    }
  }

  /** Decryption undoes encryption for every length from one block up, stolen bytes included. */
  lemma UnitRoundTrip(c: Cipher, t0: Block, s: seq<bv8>)
    requires Permutation(c) && |s| >= 16
    ensures Unit(c.dec, Decrypt, t0, Unit(c.enc, Encrypt, t0, s)) == s
  {
    hide Whiten, Tweak, Permutation, Lender, Completed, Main;
    var n, r := |s| / 16, |s| % 16;
    var o := Unit(c.enc, Encrypt, t0, s);
    if r == 0 {
      assert o[..16 * n] == o && s[..16 * n] == s;
      MainInverts(c, t0, s, o, n, n);
    } else {
      assert o[..16 * (n - 1)] == Main(c.enc, t0, s, n - 1);
      MainInverts(c, t0, s, o, n - 1, n - 1);
      StolenInverts(c, t0, s);
      assert s == s[..16 * (n - 1)] + BlockAt(s, n - 1) + s[16 * n..];
    }
  }

  /** The two blocks at the end of a unit with a remainder. */
  lemma StolenInverts(c: Cipher, t0: Block, s: seq<bv8>)
    requires Permutation(c) && |s| >= 16 && |s| % 16 != 0
    ensures var n, r, o := |s| / 16, |s| % 16, Unit(c.enc, Encrypt, t0, s);
            && Lender(c.dec, Decrypt, t0, o)[..r] == s[16 * n..] && Completed(c.dec, Decrypt, t0, o) == BlockAt(s, n - 1)
  {
    hide Whiten, Tweak, Permutation, Main;
    var n, r := |s| / 16, |s| % 16;
    var o := Unit(c.enc, Encrypt, t0, s);
    var cc, last := Lender(c.enc, Encrypt, t0, s), Completed(c.enc, Encrypt, t0, s);
    assert BlockAt(o, n - 1) == last;
    assert o[16 * n..] == cc[..r];
    var joined: Block := s[16 * n..] + cc[r..];
    Unwhiten(c, Tweak(t0, n), joined);
    assert Lender(c.dec, Decrypt, t0, o) == joined;
    assert joined[..r] == s[16 * n..] && joined[r..] == cc[r..];
    assert cc[..r] + cc[r..] == cc;
    Unwhiten(c, Tweak(t0, n - 1), BlockAt(s, n - 1));
  }

  // ----- input and output in one buffer -----

  ghost predicate Injective(f: Block -> Block) {
    forall x: Block, y: Block :: f(x) == f(y) ==> x == y
  }

  lemma WhitenInjective(f: Block -> Block, t: Block, x: Block, y: Block)
    requires Injective(f) && Whiten(f, t, x) == Whiten(f, t, y)
    ensures x == y
  {
    hide XorBytes;
    XorTwice(f(XorBytes(x, t)), t);
    XorTwice(f(XorBytes(y, t)), t);
    XorTwice(x, t);
    XorTwice(y, t);
  }

  /** A call in place is right exactly when nothing is left over or the remainder is what it is overwritten with. */
  lemma InPlaceIsRight(f: Block -> Block, mode: Mode, t0: Block, s: seq<bv8>)
    requires Injective(f) && |s| >= 16
    ensures var n, r := |s| / 16, |s| % 16;
            InPlace(f, mode, t0, s) == Unit(f, mode, t0, s) <==> s[16 * n..] == Lender(f, mode, t0, s)[..r]
  {
    hide Whiten, Tweak, Main, Injective, Lender;
    var n, r := |s| / 16, |s| % 16;
    var lender := Lender(f, mode, t0, s);
    var t := Tweak(t0, if mode == Encrypt then n else n - 1);
    if r != 0 {
      var a, b := SelfCompleted(f, mode, t0, s), Completed(f, mode, t0, s);
      SameMiddle(Main(f, t0, s, n - 1), a, b, lender[..r]);
      var joined: Block := s[16 * n..] + lender[r..];
      assert joined[..r] == s[16 * n..];
      if a == b { WhitenInjective(f, t, lender, joined); }
      assert lender == lender[..r] + lender[r..];
    } else {
      assert s[16 * n..] == [] == lender[..0];
    }
  }

  lemma SameMiddle(p: seq<bv8>, a: seq<bv8>, b: seq<bv8>, q: seq<bv8>)
    requires |a| == |b|
    ensures p + a + q == p + b + q <==> a == b
  {
    assert (p + a + q)[|p|..|p| + |a|] == a && (p + b + q)[|p|..|p| + |b|] == b;
  }

  lemma {:induction false} MainOfPrefix(f: Block -> Block, t0: Block, s: seq<bv8>, s': seq<bv8>, m: nat)
    requires 16 * m <= |s| && 16 * m <= |s'| && s[..16 * m] == s'[..16 * m]
    ensures Main(f, t0, s, m) == Main(f, t0, s', m)
  {
    hide Whiten, Tweak;
    if m > 0 {
      assert s[..16 * (m - 1)] == s[..16 * m][..16 * (m - 1)] == s'[..16 * m][..16 * (m - 1)] == s'[..16 * (m - 1)];
      MainOfPrefix(f, t0, s, s', m - 1);
      assert BlockAt(s, m - 1) == s[..16 * m][16 * (m - 1)..] == s'[..16 * m][16 * (m - 1)..] == BlockAt(s', m - 1);
    }
  }

  /** The remainder is lost: inputs that differ in it only give the same output. */
  lemma RemainderIsLost(f: Block -> Block, mode: Mode, t0: Block, s: seq<bv8>, s': seq<bv8>)
    requires |s| == |s'| >= 16 && s[..16 * (|s| / 16)] == s'[..16 * (|s| / 16)]
    ensures InPlace(f, mode, t0, s) == InPlace(f, mode, t0, s')
  {
    hide Whiten, Tweak, Main;
    var n := |s| / 16;
    var p := s[..16 * n];
    assert s[..16 * (n - 1)] == p[..16 * (n - 1)] == s'[..16 * (n - 1)];
    MainOfPrefix(f, t0, s, s', n);
    MainOfPrefix(f, t0, s, s', n - 1);
    assert BlockAt(s, n - 1) == p[16 * (n - 1)..] == BlockAt(s', n - 1);
  }

  /** With a cipher that does nothing, sixteen zero bytes and a one come back as seventeen zeros. */
  lemma InPlaceFails()
    ensures var s, id := seq(16, _ => 0 as bv8) + [1], (b: Block) => b;
            forall mode, t0 :: InPlace(id, mode, t0, s) == seq(17, _ => 0) && Unit(id, mode, t0, s)[0] == 1
  {
    hide XorBytes, Tweak;
    var s, id := seq(16, _ => 0 as bv8) + [1], (b: Block) => b;
    forall mode, t0
      ensures InPlace(id, mode, t0, s) == seq(17, _ => 0) && Unit(id, mode, t0, s)[0] == 1
    {
      IdleWhiten(Tweak(t0, if mode == Encrypt then 0 else 1), BlockAt(s, 0));
      var lender := Lender(id, mode, t0, s);
      assert lender == seq(16, _ => 0);
      IdleWhiten(Tweak(t0, if mode == Encrypt then 1 else 0), lender);
      IdleWhiten(Tweak(t0, if mode == Encrypt then 1 else 0), s[16..] + lender[1..]);
    }
  }

  lemma IdleWhiten(t: Block, b: Block)
    ensures Whiten((b: Block) => b, t, b) == b
  {
    hide XorBytes;
    XorTwice(b, t);
  }

  // ----- the method -----

  /** One block: whitened input through the cipher into the output. */
  method CryptInto(f: Block -> Block, t: Block, b: Block, output: array<bv8>, at: nat)
    requires at + 16 <= output.Length
    modifies output
    ensures output[at..at + 16] == Whiten(f, t, b)
    ensures forall k | 0 <= k < output.Length && !(at <= k < at + 16) :: output[k] == old(output[k])
  {
    hide XorBytes;
    var tmp := XorBytes(b, t);
    tmp := f(tmp);
    tmp := XorBytes(tmp, t);
    for i := 0 to 16
      invariant output[at..at + i] == tmp[..i]
      invariant forall k | 0 <= k < output.Length && !(at <= k < at + 16) :: output[k] == old(output[k])
    {
      output[at + i] := tmp[i];
    }
  }

  /**
   * mbedtls_aes_crypt_xts, with input and output in different buffers or in the same one. In the same buffer the
   * remainder is overwritten before it is read.
   */
  method CryptXts(c: Cipher, mode: Mode, length: nat, dataUnit: Block, input: array<bv8>, output: array<bv8>)
    returns (ret: Status)
    requires length <= input.Length && length <= output.Length
    modifies output
    ensures ret == if length < 16 || length > 0x100_0000 then InvalidInputLength else Success
    ensures ret != Success ==> output[..] == old(output[..])
    ensures ret == Success && (input != output || length % 16 == 0) ==>
              output[..length] == Unit(if mode == Encrypt then c.enc else c.dec, mode, c.tweak(dataUnit), old(input[..length]))
    ensures ret == Success && input == output ==>
              output[..length] == InPlace(if mode == Encrypt then c.enc else c.dec, mode, c.tweak(dataUnit), old(input[..length]))
  {
    hide Whiten, MulX, Tweak, Main, Lender, Completed, SelfCompleted;
    if length < 16 { return InvalidInputLength; }
    if length > 0x10_0000 * 16 { return InvalidInputLength; }
    ret := Success;
    ghost var s := input[..length];
    var f := if mode == Encrypt then c.enc else c.dec;
    var t0 := c.tweak(dataUnit);
    var n, leftover := length / 16, length % 16;
    var plain := if leftover != 0 then n - 1 else n;
    var tweak := CryptMain(f, t0, length, input, output, plain, s);
    if leftover != 0 {
      Steal(f, mode, t0, tweak, length, input, output, s);
    } else {
      assert output[..length] == output[..16 * n];
    }
  }

  /** Input from position lo on is what it was at the start of the call. */
  ghost predicate Unread(input: array<bv8>, s: seq<bv8>, lo: nat)
    requires |s| <= input.Length
    reads input
  {
    forall k | lo <= k < |s| :: input[k] == s[k]
  }

  lemma UnreadBlock(input: array<bv8>, s: seq<bv8>, j: nat)
    requires 16 * j + 16 <= |s| <= input.Length && Unread(input, s, 16 * j)
    ensures input[16 * j..16 * j + 16] == BlockAt(s, j)
  {
  }

  lemma MainStarts(f: Block -> Block, t0: Block, s: seq<bv8>)
    ensures Main(f, t0, s, 0) == []
  {
  }

  lemma MainGoesOn(f: Block -> Block, t0: Block, s: seq<bv8>, j: nat)
    requires 16 * (j + 1) <= |s|
    ensures Main(f, t0, s, j + 1) == Main(f, t0, s, j) + Whiten(f, Tweak(t0, j), BlockAt(s, j))
  {
  }

  /** The passes of the block loop that need no exchange of tweaks. Input not yet read is still what it was. */
  method CryptMain(f: Block -> Block, t0: Block, length: nat, input: array<bv8>, output: array<bv8>, m: nat, ghost s: seq<bv8>)
    returns (tweak: Block)
    requires 16 * m <= length <= output.Length && length <= input.Length && s == input[..length]
    modifies output
    ensures output[..16 * m] == Main(f, t0, s, m) && tweak == Tweak(t0, m)
    ensures Unread(input, s, 16 * m)
  {
    hide Whiten, MulX, Main, BlockAt;
    MainStarts(f, t0, s);
    tweak := t0;
    for j := 0 to m
      invariant output[..16 * j] == Main(f, t0, s, j) && tweak == Tweak(t0, j)
      invariant Unread(input, s, 16 * j)
    {
      ghost var done := output[..16 * j];
      UnreadBlock(input, s, j);
      CryptInto(f, tweak, input[16 * j..16 * j + 16], output, 16 * j);
      assert output[..16 * j] == done;
      assert output[..16 * (j + 1)] == done + output[16 * j..16 * j + 16];
      MainGoesOn(f, t0, s, j);
      tweak := MulX(tweak);
    }
  }

  /**
   * The first loop of the stealing: the bytes that are not stolen move behind the block, and the remainder of the
   * input is read, each byte after the output at its place has been written.
   */
  method MoveTail(input: array<bv8>, output: array<bv8>, prev: nat, leftover: nat) returns (rest: seq<bv8>)
    requires prev + 16 + leftover <= output.Length && prev + 16 + leftover <= input.Length && leftover < 16
    modifies output
    ensures output[..prev + 16] == old(output[..prev + 16])
    ensures output[prev + 16..prev + 16 + leftover] == old(output[prev..prev + leftover])
    ensures rest == if input == output then old(output[prev..prev + leftover]) else old(input[prev + 16..prev + 16 + leftover])
  {
    rest := [];
    for i := 0 to leftover
      invariant output[..prev + 16] == old(output[..prev + 16])
      invariant output[prev + 16..prev + 16 + i] == old(output[prev..prev + i])
      invariant rest == if input == output then old(output[prev..prev + i]) else old(input[prev + 16..prev + 16 + i])
    {
      assert output[prev + i] == output[..prev + 16][prev + i];
      output[prev + 16 + i] := output[prev + i];
      rest := rest + [input[prev + 16 + i]];
    }
  }

  lemma Slices(a: array<bv8>, p: nat, l: nat)
    requires p + 16 <= a.Length && l <= 16
    ensures a[p..p + 16][l..] == a[p + l..p + 16] && a[p..p + 16][..l] == a[p..p + l]
  {
  }

  /** The stealing: the remainder of the input is completed and takes the place of the block before it. */
  method Exchange(f: Block -> Block, t: Block, input: array<bv8>, output: array<bv8>, prev: nat, leftover: nat)
    requires prev + 16 + leftover <= output.Length && prev + 16 + leftover <= input.Length && leftover < 16
    modifies output
    ensures output[..prev] == old(output[..prev])
    ensures output[prev..prev + 16]
            == Whiten(f, t, if input == output then old(output[prev..prev + 16])
                            else old(input[prev + 16..prev + 16 + leftover]) + old(output[prev + leftover..prev + 16]))
    ensures output[prev + 16..prev + 16 + leftover] == old(output[prev..prev + leftover])
  {
    hide Whiten;
    ghost var lender, front := output[prev..prev + 16], output[..prev];
    Slices(output, prev, leftover);
    var rest := MoveTail(input, output, prev, leftover);
    assert output[prev..prev + 16] == output[..prev + 16][prev..] == lender && output[..prev] == output[..prev + 16][..prev] == front;
    ghost var tail := output[prev + 16..prev + 16 + leftover];
    var stolen := output[prev + leftover..prev + 16];
    assert stolen == lender[leftover..] == old(output[prev + leftover..prev + 16]);
    assert lender[..leftover] + lender[leftover..] == lender;
    CryptInto(f, t, rest + stolen, output, prev);
    assert output[..prev] == front && output[prev + 16..prev + 16 + leftover] == tail;
  }

  lemma UnreadRest(input: array<bv8>, s: seq<bv8>, lo: nat, k: nat)
    requires lo <= k <= |s| <= input.Length && Unread(input, s, lo)
    ensures input[k..|s|] == s[k..]
  {
  }

  /** The last pass of the loop when bytes are left over, and the tweak for the stealing. */
  method LastBlock(f: Block -> Block, mode: Mode, t0: Block, tweak0: Block, input: array<bv8>, output: array<bv8>, n: nat,
                   ghost s: seq<bv8>) returns (t: Block)
    requires 16 <= |s| <= output.Length && |s| <= input.Length && n == |s| / 16
    requires tweak0 == Tweak(t0, n - 1) && Unread(input, s, 16 * (n - 1))
    modifies output
    ensures output[..16 * (n - 1)] == old(output[..16 * (n - 1)])
    ensures output[16 * (n - 1)..16 * n] == Lender(f, mode, t0, s)
    ensures t == Tweak(t0, if mode == Encrypt then n else n - 1)
  {
    hide Whiten, MulX;
    var prev := 16 * (n - 1);
    ghost var front := output[..prev];
    UnreadBlock(input, s, n - 1);
    var tweak, prevTweak := tweak0, tweak0;
    if mode == Decrypt {
      // the last full block takes the next tweak, and this one is kept for the remainder
      prevTweak := tweak;
      tweak := MulX(tweak);
    }
    CryptInto(f, tweak, input[prev..prev + 16], output, prev);
    assert output[..prev] == front;
    tweak := MulX(tweak);
    t := if mode == Decrypt then prevTweak else tweak;
  }

  /** The last pass of the loop and the stealing that follows it when bytes are left over. */
  method Steal(f: Block -> Block, mode: Mode, t0: Block, tweak0: Block, length: nat, input: array<bv8>, output: array<bv8>,
               ghost s: seq<bv8>)
    requires 16 <= length <= output.Length && length <= input.Length && length % 16 != 0 && |s| == length
    requires tweak0 == Tweak(t0, length / 16 - 1) && output[..16 * (length / 16 - 1)] == Main(f, t0, s, length / 16 - 1)
    requires Unread(input, s, 16 * (length / 16 - 1))
    modifies output
    ensures output[..length] == if input == output then InPlace(f, mode, t0, s) else Unit(f, mode, t0, s)
  {
    hide Whiten, MulX, Main, Tweak, Lender, Unread, BlockAt;
    var n, leftover := length / 16, length % 16;
    var prev := 16 * (n - 1);
    ghost var front := output[..prev];
    UnreadRest(input, s, prev, 16 * n);
    var t := LastBlock(f, mode, t0, tweak0, input, output, n, s);
    ghost var lender: Block := Lender(f, mode, t0, s);
    Slices(output, prev, leftover);
    Exchange(f, t, input, output, prev, leftover);
    assert output[..prev] == front;
    UnitParts(f, mode, t0, s, output, lender, input == output);
  }

  lemma UnitParts(f: Block -> Block, mode: Mode, t0: Block, s: seq<bv8>, output: array<bv8>, lender: Block, inPlace: bool)
    requires 16 <= |s| <= output.Length && |s| % 16 != 0 && lender == Lender(f, mode, t0, s)
    requires var n, r := |s| / 16, |s| % 16;
             && output[..16 * (n - 1)] == Main(f, t0, s, n - 1)
             && output[16 * (n - 1)..16 * n] == (if inPlace then SelfCompleted(f, mode, t0, s) else Completed(f, mode, t0, s))
             && output[16 * n..16 * n + r] == lender[..r]
    ensures output[..|s|] == if inPlace then InPlace(f, mode, t0, s) else Unit(f, mode, t0, s)
  {
    hide Main, Completed, SelfCompleted, Lender;
    var n, r := |s| / 16, |s| % 16;
    assert output[..|s|] == output[..16 * (n - 1)] + output[16 * (n - 1)..16 * n] + output[16 * n..16 * n + r];
  }

  /** The cipher that mbedtls_aes_xts_setkey_enc and mbedtls_aes_xts_setkey_dec set up: data keys both ways, tweak key forward. */
  function AesCipher(bx: Boxes, rk: seq<bv32>, dk: seq<bv32>, tk: seq<bv32>, nr: nat): Cipher
    requires nr >= 1 && 4 * nr + 4 <= |rk| && 4 * nr + 4 <= |dk| && 4 * nr + 4 <= |tk|
  {
    Cipher((b: Block) => Store(Encrypted(bx, rk, nr, Load(b))), (b: Block) => Store(Decrypted(bx, dk, nr, Load(b))),
           (b: Block) => Store(Encrypted(bx, tk, nr, Load(b))))
  }

  lemma ScheduleSizes(rk: seq<bv32>, dk: seq<bv32>, nr: nat)
    requires InverseSchedule(rk, dk, nr)
    ensures nr >= 1 && 4 * nr + 4 <= |rk| && 4 * nr + 4 <= |dk|
  {
  }

  /** With AES under the two schedules of one key, XTS decryption undoes XTS encryption. */
  lemma AesXtsRoundTrip(bx: Boxes, rk: seq<bv32>, dk: seq<bv32>, tk: seq<bv32>, nr: nat, dataUnit: Block, s: seq<bv8>)
    requires Inverse(bx) && InverseSchedule(rk, dk, nr) && 4 * nr + 4 <= |tk| && |s| >= 16
    ensures var c := AesCipher(bx, rk, dk, tk, nr);
            Unit(c.dec, Decrypt, c.tweak(dataUnit), Unit(c.enc, Encrypt, c.tweak(dataUnit), s)) == s
  {
    hide Inverse, InverseSchedule, Encrypted, Decrypted, Load, Store, Unit;
    ScheduleSizes(rk, dk, nr);
    var c := AesCipher(bx, rk, dk, tk, nr);
    forall b: Block
      ensures c.dec(c.enc(b)) == b
    {
      BlockRoundTrip(bx, rk, dk, nr, b);
    }
    UnitRoundTrip(c, c.tweak(dataUnit), s);
  }
}
