/** aes.c: encryption and decryption of a block by the tables. */
module AesBlock {
  import opened AesColumns
  import opened Aes
  import opened AesBytes
  import Fips197

  datatype Status = Success | InvalidKeyLength | InvalidInputLength

  class AesContext {
    var nr: nat
    const buf: array<bv32>

    constructor ()
      ensures Valid() && fresh(buf) && nr == 10
    {
      nr := 10;
      buf := new bv32[68](i => 0);
    }

    predicate Valid()
      reads this
    {
      buf.Length == 68 && (nr == 10 || nr == 12 || nr == 14)
    }

    /** The round keys. */
    ghost function Schedule(): (rk: seq<bv32>)
      requires Valid()
      reads this, buf
      ensures |rk| == 4 * nr + 4
    {
      buf[..4 * nr + 4]
    }
  }

  // ----- the words of the macros -----

  /** One line of AES_FROUND. */
  function FColumn(bx: Boxes, k: bv32, a: bv32, b: bv32, c: bv32, d: bv32): bv32 {
    Xor32(Xor32(Xor32(Xor32(k, FT0(bx, Byte0(a))), FT1(bx, Byte1(b))), FT2(bx, Byte2(c))), FT3(bx, Byte3(d)))
  }

  /** One line of AES_RROUND. */
  function RColumn(bx: Boxes, k: bv32, a: bv32, b: bv32, c: bv32, d: bv32): bv32 {
    Xor32(Xor32(Xor32(Xor32(k, RT0(bx, Byte0(a))), RT1(bx, Byte1(b))), RT2(bx, Byte2(c))), RT3(bx, Byte3(d)))
  }

  /** A word of the last round, and of the key expansion. */
  function SColumn(k: bv32, a: bv8, b: bv8, c: bv8, d: bv8): bv32 {
    Xor32(Xor32(Xor32(Xor32(k, a as bv32), b as bv32 << 8), c as bv32 << 16), d as bv32 << 24)
  }

  lemma KeyFirst(k: bv32, a: bv32, b: bv32, c: bv32, d: bv32)
    ensures Xor32(Xor32(Xor32(Xor32(k, a), b), c), d) == Xor32(k, Sum32(a, b, c, d))
  {
    hide Xor32;
    XorWords(k, a, b);
    XorWords(k, Xor32(a, b), c);
    XorWords(k, Xor32(Xor32(a, b), c), d);
  }

  lemma FColumnIs(bx: Boxes, k: bv32, a: bv32, b: bv32, c: bv32, d: bv32)
    ensures FColumn(bx, k, a, b, c, d) == Xor32(k, Mix(Diagonal(bx.fsb, a, b, c, d)))
  {
    hide Xor32, Byte0, Byte1, Byte2, Byte3, FT0, FT1, FT2, FT3, Diagonal, MixBytes, Sum32;
    KeyFirst(k, FT0(bx, Byte0(a)), FT1(bx, Byte1(b)), FT2(bx, Byte2(c)), FT3(bx, Byte3(d)));
    ForwardTables(bx, Byte0(a), Byte1(b), Byte2(c), Byte3(d));
    DiagonalBytes(bx.fsb, a, b, c, d);
  }

  lemma RColumnIs(bx: Boxes, k: bv32, a: bv32, b: bv32, c: bv32, d: bv32)
    ensures RColumn(bx, k, a, b, c, d) == Xor32(k, Unmix(Diagonal(bx.rsb, a, b, c, d)))
  {
    hide Xor32, Byte0, Byte1, Byte2, Byte3, RT0, RT1, RT2, RT3, Diagonal, UnmixBytes, Sum32;
    KeyFirst(k, RT0(bx, Byte0(a)), RT1(bx, Byte1(b)), RT2(bx, Byte2(c)), RT3(bx, Byte3(d)));
    ReverseTables(bx, Byte0(a), Byte1(b), Byte2(c), Byte3(d));
    DiagonalBytes(bx.rsb, a, b, c, d);
  }

  lemma OrIsXor(a: bv8, b: bv8, c: bv8, d: bv8)
    ensures (a as bv32) | (b as bv32 << 8) == Xor32(a as bv32, b as bv32 << 8)
    ensures (a as bv32) | (b as bv32 << 8) | (c as bv32 << 16) == Xor32((a as bv32) | (b as bv32 << 8), c as bv32 << 16)
    ensures (a as bv32) | (b as bv32 << 8) | (c as bv32 << 16) | (d as bv32 << 24)
            == Xor32((a as bv32) | (b as bv32 << 8) | (c as bv32 << 16), d as bv32 << 24)
  {
  }

  /** Bytes that do not overlap may be joined by xor as well as by or. */
  lemma PackIsSum(a: bv8, b: bv8, c: bv8, d: bv8)
    ensures Pack(a, b, c, d) == Sum32(a as bv32, b as bv32 << 8, c as bv32 << 16, d as bv32 << 24)
  {
    hide Xor32;
    OrIsXor(a, b, c, d);
  }

  lemma SColumnIs(k: bv32, a: bv8, b: bv8, c: bv8, d: bv8)
    ensures SColumn(k, a, b, c, d) == Xor32(k, Pack(a, b, c, d))
  {
    hide Xor32, Pack, Sum32;
    KeyFirst(k, a as bv32, b as bv32 << 8, c as bv32 << 16, d as bv32 << 24);
    PackIsSum(a, b, c, d);
  }

  // ----- blocks -----

  /** AES_FROUND; rk is the position of the round key. */
  method FRound(bx: Boxes, ctx: AesContext, rk: nat, y: Quad) returns (x: Quad)
    requires ctx.Valid() && rk % 4 == 0 && rk + 4 <= 4 * ctx.nr + 4
    ensures x == AddKey(MixAll(SubShift(bx, y)), KeyAt(ctx.Schedule(), rk / 4))
  {
    hide FColumn, Xor32, Mix, Diagonal;
    var x0 := FColumn(bx, ctx.buf[rk], y.x0, y.x1, y.x2, y.x3);
    var x1 := FColumn(bx, ctx.buf[rk + 1], y.x1, y.x2, y.x3, y.x0);
    var x2 := FColumn(bx, ctx.buf[rk + 2], y.x2, y.x3, y.x0, y.x1);
    var x3 := FColumn(bx, ctx.buf[rk + 3], y.x3, y.x0, y.x1, y.x2);
    FColumnIs(bx, ctx.buf[rk], y.x0, y.x1, y.x2, y.x3);
    FColumnIs(bx, ctx.buf[rk + 1], y.x1, y.x2, y.x3, y.x0);
    FColumnIs(bx, ctx.buf[rk + 2], y.x2, y.x3, y.x0, y.x1);
    FColumnIs(bx, ctx.buf[rk + 3], y.x3, y.x0, y.x1, y.x2);
    x := Quad(x0, x1, x2, x3);
  }

  /** AES_RROUND. */
  method RRound(bx: Boxes, ctx: AesContext, rk: nat, y: Quad) returns (x: Quad)
    requires ctx.Valid() && rk % 4 == 0 && rk + 4 <= 4 * ctx.nr + 4
    ensures x == AddKey(UnmixAll(UnsubShift(bx, y)), KeyAt(ctx.Schedule(), rk / 4))
  {
    hide RColumn, Xor32, Unmix, Diagonal;
    var x0 := RColumn(bx, ctx.buf[rk], y.x0, y.x3, y.x2, y.x1);
    var x1 := RColumn(bx, ctx.buf[rk + 1], y.x1, y.x0, y.x3, y.x2);
    var x2 := RColumn(bx, ctx.buf[rk + 2], y.x2, y.x1, y.x0, y.x3);
    var x3 := RColumn(bx, ctx.buf[rk + 3], y.x3, y.x2, y.x1, y.x0);
    RColumnIs(bx, ctx.buf[rk], y.x0, y.x3, y.x2, y.x1);
    RColumnIs(bx, ctx.buf[rk + 1], y.x1, y.x0, y.x3, y.x2);
    RColumnIs(bx, ctx.buf[rk + 2], y.x2, y.x1, y.x0, y.x3);
    RColumnIs(bx, ctx.buf[rk + 3], y.x3, y.x2, y.x1, y.x0);
    x := Quad(x0, x1, x2, x3);
  }

  /** The last round of either direction, without MixColumns. */
  function LastWord(s: bv8 -> bv8, k: bv32, a: bv32, b: bv32, c: bv32, d: bv32): (w: bv32)
    ensures w == Xor32(k, Diagonal(s, a, b, c, d))
  {
    SColumnIs(k, s(Byte0(a)), s(Byte1(b)), s(Byte2(c)), s(Byte3(d)));
    SColumn(k, s(Byte0(a)), s(Byte1(b)), s(Byte2(c)), s(Byte3(d)))
  }

  /** The xor of the first round key. */
  method FirstKey(ctx: AesContext, input: seq<bv8>) returns (x: Quad)
    requires ctx.Valid() && |input| == 16
    ensures x == AddKey(Load(input), KeyAt(ctx.Schedule(), 0))
  {
    hide Xor32;
    x := Load(input);
    x := Quad(Xor32(ctx.buf[0], x.x0), Xor32(ctx.buf[1], x.x1), Xor32(ctx.buf[2], x.x2), Xor32(ctx.buf[3], x.x3));
  }

  lemma RoundStart(bx: Boxes, rk: seq<bv32>, q: Quad)
    requires 4 <= |rk|
    ensures Rounds(bx, rk, q, 0) == AddKey(q, KeyAt(rk, 0))
  {
  }

  lemma Round(bx: Boxes, rk: seq<bv32>, q: Quad, i: nat)
    requires 4 * i + 8 <= |rk|
    ensures Rounds(bx, rk, q, i + 1) == AddKey(MixAll(SubShift(bx, Rounds(bx, rk, q, i))), KeyAt(rk, i + 1))
  {
    hide AddKey, MixAll, SubShift, KeyAt;
  }

  lemma RoundLast(bx: Boxes, rk: seq<bv32>, nr: nat, q: Quad)
    requires nr >= 1 && 4 * nr + 4 <= |rk|
    ensures Encrypted(bx, rk, nr, q) == AddKey(SubShift(bx, Rounds(bx, rk, q, nr - 1)), KeyAt(rk, nr))
  {
  }

  /** mbedtls_internal_aes_encrypt. */
  method EncryptBlock(bx: Boxes, ctx: AesContext, input: seq<bv8>) returns (output: seq<bv8>)
    requires ctx.Valid() && |input| == 16
    ensures output == Fips197.Cipher(bx.fsb, Bytes(ctx.Schedule()), ctx.nr, input)
    ensures output == Store(Encrypted(bx, ctx.Schedule(), ctx.nr, Load(input)))
  {
    hide AddKey, MixAll, SubShift, KeyAt, Load, Store, Bytes, Rounds, Encrypted, Fips197.Cipher;
    ghost var q, keys := Load(input), ctx.Schedule();
    var x := FirstKey(ctx, input);
    var y: Quad;
    var rk := 4;
    ghost var r := 0;
    RoundStart(bx, keys, q);
    var i := ctx.nr / 2 - 1;
    while i > 0
      invariant 0 <= i < ctx.nr / 2 && r == ctx.nr - 2 - 2 * i && rk == 4 * (r + 1)
      invariant x == Rounds(bx, keys, q, r)
    {
      y := FRound(bx, ctx, rk, x);
      Round(bx, keys, q, r);
      x := FRound(bx, ctx, rk + 4, y);
      Round(bx, keys, q, r + 1);
      rk, r := rk + 8, r + 2;
      i := i - 1;
    }
    y := FRound(bx, ctx, rk, x);
    Round(bx, keys, q, r);
    rk := rk + 4;
    x := LastRound(bx, ctx, rk, y);
    RoundLast(bx, keys, ctx.nr, q);
    output := Store(x);
    EncryptedBytes(bx, keys, ctx.nr, input);
  }

  method LastRound(bx: Boxes, ctx: AesContext, rk: nat, y: Quad) returns (x: Quad)
    requires ctx.Valid() && rk == 4 * ctx.nr
    ensures x == AddKey(SubShift(bx, y), KeyAt(ctx.Schedule(), ctx.nr))
  {
    hide LastWord, Xor32, Diagonal;
    x := Quad(LastWord(bx.fsb, ctx.buf[rk], y.x0, y.x1, y.x2, y.x3),
              LastWord(bx.fsb, ctx.buf[rk + 1], y.x1, y.x2, y.x3, y.x0),
              LastWord(bx.fsb, ctx.buf[rk + 2], y.x2, y.x3, y.x0, y.x1),
              LastWord(bx.fsb, ctx.buf[rk + 3], y.x3, y.x0, y.x1, y.x2));
  }

  lemma InvRoundStart(bx: Boxes, rk: seq<bv32>, q: Quad)
    requires 4 <= |rk|
    ensures InvRounds(bx, rk, q, 0) == AddKey(q, KeyAt(rk, 0))
  {
  }

  lemma InvRound(bx: Boxes, rk: seq<bv32>, q: Quad, i: nat)
    requires 4 * i + 8 <= |rk|
    ensures InvRounds(bx, rk, q, i + 1) == AddKey(UnmixAll(UnsubShift(bx, InvRounds(bx, rk, q, i))), KeyAt(rk, i + 1))
  {
    hide AddKey, UnmixAll, UnsubShift, KeyAt;
  }

  lemma InvRoundLast(bx: Boxes, rk: seq<bv32>, nr: nat, q: Quad)
    requires nr >= 1 && 4 * nr + 4 <= |rk|
    ensures Decrypted(bx, rk, nr, q) == AddKey(UnsubShift(bx, InvRounds(bx, rk, q, nr - 1)), KeyAt(rk, nr))
  {
  }

  /** mbedtls_internal_aes_decrypt. */
  method DecryptBlock(bx: Boxes, ctx: AesContext, input: seq<bv8>) returns (output: seq<bv8>)
    requires ctx.Valid() && |input| == 16
    ensures output == Fips197.EqInvCipher(bx.rsb, Bytes(ctx.Schedule()), ctx.nr, input)
    ensures output == Store(Decrypted(bx, ctx.Schedule(), ctx.nr, Load(input)))
  {
    hide AddKey, UnmixAll, UnsubShift, KeyAt, Load, Store, Bytes, InvRounds, Decrypted, Fips197.EqInvCipher;
    ghost var q, keys := Load(input), ctx.Schedule();
    var x := FirstKey(ctx, input);
    var y: Quad;
    var rk := 4;
    ghost var r := 0;
    InvRoundStart(bx, keys, q);
    var i := ctx.nr / 2 - 1;
    while i > 0
      invariant 0 <= i < ctx.nr / 2 && r == ctx.nr - 2 - 2 * i && rk == 4 * (r + 1)
      invariant x == InvRounds(bx, keys, q, r)
    {
      y := RRound(bx, ctx, rk, x);
      InvRound(bx, keys, q, r);
      x := RRound(bx, ctx, rk + 4, y);
      InvRound(bx, keys, q, r + 1);
      rk, r := rk + 8, r + 2;
      i := i - 1;
    }
    y := RRound(bx, ctx, rk, x);
    InvRound(bx, keys, q, r);
    rk := rk + 4;
    x := LastInvRound(bx, ctx, rk, y);
    InvRoundLast(bx, keys, ctx.nr, q);
    output := Store(x);
    DecryptedBytes(bx, keys, ctx.nr, input);
  }

  method LastInvRound(bx: Boxes, ctx: AesContext, rk: nat, y: Quad) returns (x: Quad)
    requires ctx.Valid() && rk == 4 * ctx.nr
    ensures x == AddKey(UnsubShift(bx, y), KeyAt(ctx.Schedule(), ctx.nr))
  {
    hide LastWord, Xor32, Diagonal;
    x := Quad(LastWord(bx.rsb, ctx.buf[rk], y.x0, y.x3, y.x2, y.x1),
              LastWord(bx.rsb, ctx.buf[rk + 1], y.x1, y.x0, y.x3, y.x2),
              LastWord(bx.rsb, ctx.buf[rk + 2], y.x2, y.x1, y.x0, y.x3),
              LastWord(bx.rsb, ctx.buf[rk + 3], y.x3, y.x2, y.x1, y.x0));
  }

  /** Decrypting with the inverse schedule gives the block back. */
  lemma BlockRoundTrip(bx: Boxes, rk: seq<bv32>, dk: seq<bv32>, nr: nat, s: seq<bv8>)
    requires Inverse(bx) && InverseSchedule(rk, dk, nr) && |s| == 16
    ensures Store(Decrypted(bx, dk, nr, Load(Store(Encrypted(bx, rk, nr, Load(s)))))) == s
  {
    hide Inverse, Encrypted, Decrypted, Load, Store;
    LoadStore(Encrypted(bx, rk, nr, Load(s)));
    DecryptedEncrypted(bx, rk, dk, nr, Load(s));
    StoreLoad(s);
  }
}
