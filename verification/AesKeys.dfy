/** aes.c: the key expansion for the three key sizes, and the decryption schedule. */
module AesKeys {
  import Words
  import opened AesColumns
  import opened Aes
  import opened AesField
  import opened AesBytes
  import opened AesBlock
  import Fips197

  /** The round constants: powers of x. */
  function Rcon(i: nat): bv8 {
    if i == 0 then 1 else Xtime(Rcon(i - 1))
  }

  function SubWord(bx: Boxes, w: bv32): bv32 {
    Pack(bx.fsb(Byte0(w)), bx.fsb(Byte1(w)), bx.fsb(Byte2(w)), bx.fsb(Byte3(w)))
  }

  /** SubWord of RotWord. */
  function SubRot(bx: Boxes, w: bv32): bv32 {
    Pack(bx.fsb(Byte1(w)), bx.fsb(Byte2(w)), bx.fsb(Byte3(w)), bx.fsb(Byte0(w)))
  }

  /** What is added to the word nk places back to give word n, from the word before it. */
  ghost function Temp(bx: Boxes, nk: nat, n: nat, last: bv32): bv32
    requires nk >= 4 && nk <= n
  {
    if n % nk == 0 then Xor32(SubRot(bx, last), Rcon(n / nk - 1) as bv32)
    else if nk > 6 && n % nk == 4 then SubWord(bx, last)
    else last
  }

  /** Word n of the key expansion of section 5.2 of FIPS 197 for a key of nk words. */
  ghost function Expanded(bx: Boxes, key: seq<bv32>, n: nat): bv32
    requires |key| >= 4
  {
    if n < |key| then key[n]
    else Xor32(Expanded(bx, key, n - |key|), Temp(bx, |key|, n, Expanded(bx, key, n - 1)))
  }

  ghost predicate Filled(bx: Boxes, key: seq<bv32>, buf: array<bv32>, n: nat)
    requires |key| >= 4
    reads buf
  {
    n <= buf.Length && forall k | 0 <= k < n :: buf[k] == Expanded(bx, key, k)
  }

  /** The first words are the key itself. */
  lemma KeyFills(bx: Boxes, key: seq<bv32>, buf: array<bv32>)
    requires 4 <= |key| <= buf.Length && forall k | 0 <= k < |key| :: buf[k] == key[k]
    ensures Filled(bx, key, buf, |key|)
  {
  }

  lemma RotatedWord(bx: Boxes, u: bv32, r: bv32, w: bv32)
    ensures SColumn(Xor32(u, r), bx.fsb(Byte1(w)), bx.fsb(Byte2(w)), bx.fsb(Byte3(w)), bx.fsb(Byte0(w)))
            == Xor32(u, Xor32(SubRot(bx, w), r))
  {
    hide Xor32, SColumn, Pack, Byte0, Byte1, Byte2, Byte3;
    SColumnIs(Xor32(u, r), bx.fsb(Byte1(w)), bx.fsb(Byte2(w)), bx.fsb(Byte3(w)), bx.fsb(Byte0(w)));
    var s := SubRot(bx, w);
    XorWords(u, r, s);
    XorSwap(r, s);
  }

  lemma XorSwap(u: bv32, v: bv32)
    ensures Xor32(u, v) == Xor32(v, u)
  {
  }

  /** The first word of a group of nk. */
  method FirstOfGroup(bx: Boxes, buf: array<bv32>, n: nat, nk: nat, i: nat, ghost key: seq<bv32>)
    requires |key| == nk >= 4 && nk <= n < buf.Length && n == nk * (i + 1) && Filled(bx, key, buf, n)
    modifies buf
    ensures Filled(bx, key, buf, n + 1)
  {
    hide Xor32, SubRot, SubWord, SColumn, Byte0, Byte1, Byte2, Byte3, Rcon;
    GroupStart(nk, i);
    var last := buf[n - 1];
    var u := buf[n - nk];
    RotatedWord(bx, u, Rcon(i) as bv32, last);
    buf[n] := SColumn(Xor32(u, Rcon(i) as bv32), bx.fsb(Byte1(last)), bx.fsb(Byte2(last)), bx.fsb(Byte3(last)), bx.fsb(Byte0(last)));
  }

  lemma GroupStart(nk: nat, i: nat)
    requires nk > 0
    ensures nk * (i + 1) % nk == 0 && nk * (i + 1) / nk == i + 1
  {
    Words.DivMod(nk * (i + 1), nk, i + 1, 0);
  }

  /** An ordinary word. */
  method NextWord(bx: Boxes, buf: array<bv32>, n: nat, nk: nat, ghost key: seq<bv32>)
    requires |key| == nk >= 4 && nk <= n < buf.Length && n % nk != 0 && !(nk > 6 && n % nk == 4) && Filled(bx, key, buf, n)
    modifies buf
    ensures Filled(bx, key, buf, n + 1)
  {
    hide Xor32, SubRot, SubWord, Rcon;
    buf[n] := Xor32(buf[n - nk], buf[n - 1]);
  }

  /** The substituted word in the middle of a group of eight. */
  method SubstitutedWord(bx: Boxes, buf: array<bv32>, n: nat, ghost key: seq<bv32>)
    requires |key| == 8 <= n < buf.Length && n % 8 == 4 && Filled(bx, key, buf, n)
    modifies buf
    ensures Filled(bx, key, buf, n + 1)
  {
    hide Xor32, SubRot, SColumn, Pack, Byte0, Byte1, Byte2, Byte3, Rcon;
    var last, u := buf[n - 1], buf[n - 8];
    SColumnIs(u, bx.fsb(Byte0(last)), bx.fsb(Byte1(last)), bx.fsb(Byte2(last)), bx.fsb(Byte3(last)));
    buf[n] := SColumn(u, bx.fsb(Byte0(last)), bx.fsb(Byte1(last)), bx.fsb(Byte2(last)), bx.fsb(Byte3(last)));
  }

  /** Ten groups of four words. */
  method Expand10(bx: Boxes, buf: array<bv32>, ghost key: seq<bv32>)
    requires |key| == 4 && buf.Length == 68 && Filled(bx, key, buf, 4)
    modifies buf
    ensures Filled(bx, key, buf, 44)
  {
    hide Expanded, Filled;
    for i := 0 to 10
      invariant Filled(bx, key, buf, 4 * i + 4)
    {
      FirstOfGroup(bx, buf, 4 * i + 4, 4, i, key);
      NextWord(bx, buf, 4 * i + 5, 4, key);
      NextWord(bx, buf, 4 * i + 6, 4, key);
      NextWord(bx, buf, 4 * i + 7, 4, key);
    }
  }

  /** Eight groups of six words. */
  method Expand12(bx: Boxes, buf: array<bv32>, ghost key: seq<bv32>)
    requires |key| == 6 && buf.Length == 68 && Filled(bx, key, buf, 6)
    modifies buf
    ensures Filled(bx, key, buf, 54)
  {
    hide Expanded, Filled;
    for i := 0 to 8
      invariant Filled(bx, key, buf, 6 * i + 6)
    {
      FirstOfGroup(bx, buf, 6 * i + 6, 6, i, key);
      NextWord(bx, buf, 6 * i + 7, 6, key);
      NextWord(bx, buf, 6 * i + 8, 6, key);
      NextWord(bx, buf, 6 * i + 9, 6, key);
      NextWord(bx, buf, 6 * i + 10, 6, key);
      NextWord(bx, buf, 6 * i + 11, 6, key);
    }
  }

  /** Seven groups of eight words. */
  method Expand14(bx: Boxes, buf: array<bv32>, ghost key: seq<bv32>)
    requires |key| == 8 && buf.Length == 68 && Filled(bx, key, buf, 8)
    modifies buf
    ensures Filled(bx, key, buf, 64)
  {
    hide Expanded, Filled;
    for i := 0 to 7
      invariant Filled(bx, key, buf, 8 * i + 8)
    {
      FirstOfGroup(bx, buf, 8 * i + 8, 8, i, key);
      NextWord(bx, buf, 8 * i + 9, 8, key);
      NextWord(bx, buf, 8 * i + 10, 8, key);
      NextWord(bx, buf, 8 * i + 11, 8, key);
      SubstitutedWord(bx, buf, 8 * i + 12, key);
      NextWord(bx, buf, 8 * i + 13, 8, key);
      NextWord(bx, buf, 8 * i + 14, 8, key);
      NextWord(bx, buf, 8 * i + 15, 8, key);
    }
  }

  /** The words of the key. */
  function KeyWords(key: seq<bv8>, nk: nat): (ws: seq<bv32>)
    requires 4 * nk <= |key|
    ensures |ws| == nk
  {
    seq(nk, i requires 0 <= i < nk => Pack(key[4 * i], key[4 * i + 1], key[4 * i + 2], key[4 * i + 3]))
  }

  /** The schedule that a key expands to. */
  ghost predicate IsSchedule(bx: Boxes, key: seq<bv8>, keybits: int, rk: seq<bv32>, nr: nat)
    requires 8 * |key| >= keybits
  {
    && (keybits == 128 || keybits == 192 || keybits == 256) && nr == keybits / 32 + 6 && |rk| == 4 * nr + 4
    && forall i | 0 <= i < |rk| :: rk[i] == Expanded(bx, KeyWords(key, keybits / 32), i)
  }

  // ----- the schedule on bytes -----

  lemma Doublings()
    ensures Xtime(0x01) == 0x02 && Xtime(0x02) == 0x04 && Xtime(0x04) == 0x08 && Xtime(0x08) == 0x10 && Xtime(0x10) == 0x20
    ensures Xtime(0x20) == 0x40 && Xtime(0x40) == 0x80 && Xtime(0x80) == 0x1B && Xtime(0x1B) == 0x36
  {
  }

  lemma RoundConstants(i: nat)
    requires i < 10
    ensures Rcon(i) == Fips197.ROUND_CONSTANTS[i]
  {
    hide Xtime;
    Doublings();
    if i > 0 { RoundConstants(i - 1); }
  }

  lemma SumBytes(u: bv32, v: bv32)
    ensures WordBytes(Xor32(u, v)) == Fips197.AddWords(WordBytes(u), WordBytes(v))
  {
    hide Xor, Xor32, Byte0, Byte1, Byte2, Byte3, Fips197.Plus;
    LowBytesOfXor(u, v);
    SecondBytesOfXor(u, v);
    ThirdBytesOfXor(u, v);
    TopBytesOfXor(u, v);
    PlusIsXor(Byte0(u), Byte0(v));
    PlusIsXor(Byte1(u), Byte1(v));
    PlusIsXor(Byte2(u), Byte2(v));
    PlusIsXor(Byte3(u), Byte3(v));
  }

  lemma SubstitutedBytes(bx: Boxes, w: bv32)
    ensures WordBytes(SubWord(bx, w)) == Fips197.SubWord(bx.fsb, WordBytes(w))
    ensures WordBytes(SubRot(bx, w)) == Fips197.SubWord(bx.fsb, Fips197.RotWord(WordBytes(w)))
  {
    hide Pack, Byte0, Byte1, Byte2, Byte3;
    BytesOfPack(bx.fsb(Byte0(w)), bx.fsb(Byte1(w)), bx.fsb(Byte2(w)), bx.fsb(Byte3(w)));
    BytesOfPack(bx.fsb(Byte1(w)), bx.fsb(Byte2(w)), bx.fsb(Byte3(w)), bx.fsb(Byte0(w)));
  }

  lemma ByteAsWord(b: bv8)
    ensures WordBytes(b as bv32) == [b, 0, 0, 0]
  {
    OneByte(b);
  }

  lemma OneByte(b: bv8)
    ensures Byte0(b as bv32) == b && Byte1(b as bv32) == 0 && Byte2(b as bv32) == 0 && Byte3(b as bv32) == 0
  {
  }

  lemma KeyWordBytes(key: seq<bv8>, nk: nat, n: nat)
    requires |key| == 4 * nk && n < nk
    ensures WordBytes(KeyWords(key, nk)[n]) == key[4 * n..4 * n + 4]
  {
    hide Pack, Byte0, Byte1, Byte2, Byte3;
    BytesOfPack(key[4 * n], key[4 * n + 1], key[4 * n + 2], key[4 * n + 3]);
  }

  lemma TempBytes(bx: Boxes, nk: nat, n: nat, last: bv32)
    requires 4 <= nk <= n < 11 * nk
    ensures WordBytes(Temp(bx, nk, n, last)) == Fips197.Temp(bx.fsb, nk, n, WordBytes(last))
  {
    hide Xor32, WordBytes, SubWord, SubRot, Rcon, Fips197.AddWords, Fips197.SubWord, Fips197.RotWord;
    SubstitutedBytes(bx, last);
    if n % nk == 0 {
      var i := n / nk - 1;
      GroupIndex(nk, n);
      RoundConstants(i);
      ByteAsWord(Rcon(i));
      SumBytes(SubRot(bx, last), Rcon(i) as bv32);
    }
  }

  /** The expansion on words is that of FIPS 197 on bytes. */
  lemma {:induction false} ExpandedBytes(bx: Boxes, key: seq<bv8>, n: nat)
    requires |key| == 16 || |key| == 24 || |key| == 32
    requires n < |key| + 28
    ensures WordBytes(Expanded(bx, KeyWords(key, |key| / 4), n)) == Fips197.KeyWord(bx.fsb, key, n)
  {
    hide Xor32, WordBytes, Temp, KeyWords, Fips197.AddWords, Fips197.Temp;
    var nk := |key| / 4;
    var words := KeyWords(key, nk);
    if n < nk {
      KeyWordBytes(key, nk, n);
    } else {
      ExpandedBytes(bx, key, n - 1);
      ExpandedBytes(bx, key, n - nk);
      var last := Expanded(bx, words, n - 1);
      TempBytes(bx, nk, n, last);
      SumBytes(Expanded(bx, words, n - nk), Temp(bx, nk, n, last));
    }
  }

  /** The bytes of a schedule are the key expansion of FIPS 197 of the bytes of the key. */
  lemma ScheduleBytes(bx: Boxes, key: seq<bv8>, keybits: int, rk: seq<bv32>, nr: nat)
    requires 8 * |key| >= keybits && IsSchedule(bx, key, keybits, rk, nr)
    ensures Bytes(rk) == Fips197.KeyExpansion(bx.fsb, key[..keybits / 8])
  {
    hide Expanded, WordBytes, Fips197.KeyWord;
    var k := key[..keybits / 8];
    SameKeyWords(key, k, keybits / 32);
    forall n | 0 <= n < |rk|
      ensures WordBytes(rk[n]) == Fips197.KeyWord(bx.fsb, k, n)
    {
      ExpandedBytes(bx, k, n);
    }
  }

  lemma SameKeyWords(key: seq<bv8>, k: seq<bv8>, nk: nat)
    requires 4 * nk <= |key| && k == key[..4 * nk]
    ensures KeyWords(key, nk) == KeyWords(k, nk)
  {
    hide Pack;
  }

  lemma Cancel(a: bv8, b: bv8, c: bv8)
    ensures Fips197.Plus(Fips197.Plus(Fips197.Plus(a, Fips197.Plus(b, c)), a), b) == c
  {
  }

  lemma CancelWords(a: Fips197.Word, b: Fips197.Word, c: Fips197.Word)
    ensures Fips197.AddWords(Fips197.AddWords(Fips197.AddWords(a, Fips197.AddWords(b, c)), a), b) == c
  {
    hide Fips197.Plus;
    Cancel(a[0], b[0], c[0]);
    Cancel(a[1], b[1], c[1]);
    Cancel(a[2], b[2], c[2]);
    Cancel(a[3], b[3], c[3]);
  }

  lemma GroupIndex(nk: nat, n: nat)
    requires nk >= 4 && nk <= n < 11 * nk
    ensures 0 <= n / nk - 1 < 10
  {
    var q := n / nk;
    assert n == q * nk + n % nk;
    if q >= 11 { Words.MulMono(11, q, nk); }
  }

  lemma FirstWord(f: bv8 -> bv8, k: seq<bv8>, nk: nat, n: nat)
    requires (|k| == 16 || |k| == 24 || |k| == 32) && nk == |k| / 4
    requires nk <= n < |k| + 28 && n % nk == 0
    ensures 0 <= n / nk - 1 < 10
    ensures Fips197.AddWords(Fips197.AddWords(Fips197.KeyWord(f, k, n), Fips197.KeyWord(f, k, n - nk)),
                             Fips197.SubWord(f, Fips197.RotWord(Fips197.KeyWord(f, k, n - 1))))
            == [Fips197.ROUND_CONSTANTS[n / nk - 1], 0, 0, 0]
  {
    hide Fips197.AddWords, Fips197.SubWord, Fips197.RotWord, Fips197.Temp;
    GroupIndex(nk, n);
    var last, first := Fips197.KeyWord(f, k, n - 1), Fips197.KeyWord(f, k, n - nk);
    FirstTemp(f, nk, n, last);
    CancelWords(first, Fips197.SubWord(f, Fips197.RotWord(last)), [Fips197.ROUND_CONSTANTS[n / nk - 1], 0, 0, 0]);
  }

  lemma FirstTemp(f: bv8 -> bv8, nk: nat, n: nat, last: Fips197.Word)
    requires nk >= 4 && nk <= n < 11 * nk && n % nk == 0 && 0 <= n / nk - 1 < 10
    ensures Fips197.Temp(f, nk, n, last)
            == Fips197.AddWords(Fips197.SubWord(f, Fips197.RotWord(last)), [Fips197.ROUND_CONSTANTS[n / nk - 1], 0, 0, 0])
  {
    hide Fips197.AddWords, Fips197.SubWord, Fips197.RotWord;
  }

  /**
   * The first word n of every group of a schedule, minus the first word of the group before and the last word rotated and
   * substituted, is a power of x.
   */
  lemma GroupStarts(bx: Boxes, key: seq<bv8>, keybits: int, rk: seq<bv32>, nr: nat, n: nat)
    requires 8 * |key| >= keybits && IsSchedule(bx, key, keybits, rk, nr)
    requires keybits / 32 <= n < 4 * nr + 4 && n % (keybits / 32) == 0
    ensures var nk, w := keybits / 32, Bytes(rk);
            && 1 <= n / nk <= 10
            && Fips197.AddWords(Fips197.AddWords(w[n], w[n - nk]), Fips197.SubWord(bx.fsb, Fips197.RotWord(w[n - 1])))
               == [[0x01, 0x02, 0x04, 0x08, 0x10, 0x20, 0x40, 0x80, 0x1B, 0x36][n / nk - 1], 0, 0, 0]
  {
    hide Expanded, WordBytes, Fips197.KeyWord, Fips197.AddWords, Fips197.SubWord, Fips197.RotWord;
    ScheduleBytes(bx, key, keybits, rk, nr);
    FirstWord(bx.fsb, key[..keybits / 8], keybits / 32, n);
  }

  /** mbedtls_aes_setkey_enc: the three unrolled loops compute the one recurrence. */
  method SetkeyEnc(bx: Boxes, ctx: AesContext, key: seq<bv8>, keybits: int) returns (ret: Status)
    requires ctx.Valid() && 8 * |key| >= keybits
    modifies ctx, ctx.buf
    ensures ctx.Valid() && ret in {Success, InvalidKeyLength}
    ensures ret == Success <==> keybits == 128 || keybits == 192 || keybits == 256
    ensures ret == Success ==> IsSchedule(bx, key, keybits, ctx.Schedule(), ctx.nr)
    ensures ret == Success ==> Bytes(ctx.Schedule()) == Fips197.KeyExpansion(bx.fsb, key[..keybits / 8])
  {
    hide Expanded, Pack, Bytes, Fips197.KeyExpansion;
    match keybits {
      case 128 => ctx.nr := 10;
      case 192 => ctx.nr := 12;
      case 256 => ctx.nr := 14;
      case _ => return InvalidKeyLength;
    }
    ghost var words := KeyWords(key, keybits / 32);
    var nk := keybits / 32;
    for i := 0 to nk
      invariant ctx.Valid() && ctx.nr == nk + 6 && forall k | 0 <= k < i :: ctx.buf[k] == words[k]
    {
      ctx.buf[i] := Pack(key[4 * i], key[4 * i + 1], key[4 * i + 2], key[4 * i + 3]);
    }
    KeyFills(bx, words, ctx.buf);
    match ctx.nr {
      case 10 => Expand10(bx, ctx.buf, words);
      case 12 => Expand12(bx, ctx.buf, words);
      case _ => Expand14(bx, ctx.buf, words);
    }
    ScheduleBytes(bx, key, keybits, ctx.Schedule(), ctx.nr);
    ret := Success;
  }

  lemma UnmixedKeyWord(bx: Boxes, w: bv32)
    requires Inverse(bx)
    ensures Sum32(RT0(bx, bx.fsb(Byte0(w))), RT1(bx, bx.fsb(Byte1(w))), RT2(bx, bx.fsb(Byte2(w))), RT3(bx, bx.fsb(Byte3(w))))
            == Unmix(w)
  {
    hide Byte0, Byte1, Byte2, Byte3, RT0, RT1, RT2, RT3, UnmixBytes, Sum32;
    ReverseTables(bx, bx.fsb(Byte0(w)), bx.fsb(Byte1(w)), bx.fsb(Byte2(w)), bx.fsb(Byte3(w)));
  }

  /** One word of the decryption schedule. */
  function InverseWord(bx: Boxes, w: bv32): (u: bv32)
    requires Inverse(bx)
    ensures u == Unmix(w)
  {
    UnmixedKeyWord(bx, w);
    Sum32(RT0(bx, bx.fsb(Byte0(w))), RT1(bx, bx.fsb(Byte1(w))), RT2(bx, bx.fsb(Byte2(w))), RT3(bx, bx.fsb(Byte3(w))))
  }

  /** Word c of round key j of the decryption schedule. */
  function InvertedWord(sk: seq<bv32>, nr: nat, j: nat, c: nat): bv32
    requires j <= nr && c < 4 && |sk| == 4 * nr + 4
  {
    var w := sk[4 * (nr - j) + c];
    if j == 0 || j == nr then w else Unmix(w)
  }

  /** The first m round keys of the decryption schedule are in place. */
  ghost predicate Inverted(dk: array<bv32>, sk: seq<bv32>, nr: nat, m: nat)
    requires m <= nr + 1 && dk.Length == 68 && |sk| == 4 * nr + 4 && nr <= 14
    reads dk
  {
    forall j | 0 <= j < m :: KeyAt(dk[..], j) == Quad(InvertedWord(sk, nr, j, 0), InvertedWord(sk, nr, j, 1),
                                                      InvertedWord(sk, nr, j, 2), InvertedWord(sk, nr, j, 3))
  }

  lemma NothingInverted(dk: array<bv32>, sk: seq<bv32>, nr: nat)
    requires dk.Length == 68 && |sk| == 4 * nr + 4 && nr <= 14
    ensures Inverted(dk, sk, nr, 0)
  {
  }

  /** mbedtls_aes_setkey_dec: the encryption schedule `sk` backwards, its inner keys through InvMixColumns. */
  method SetkeyDec(bx: Boxes, ctx: AesContext, key: seq<bv8>, keybits: int) returns (ret: Status, ghost sk: seq<bv32>)
    requires Inverse(bx) && ctx.Valid() && 8 * |key| >= keybits
    modifies ctx, ctx.buf
    ensures ctx.Valid() && ret in {Success, InvalidKeyLength}
    ensures ret == Success <==> keybits == 128 || keybits == 192 || keybits == 256
    ensures ret == Success ==> IsSchedule(bx, key, keybits, sk, ctx.nr) && InverseSchedule(sk, ctx.Schedule(), ctx.nr)
  {
    hide Expanded, Inverse, Unmix, Inverted;
    var cty := new AesContext();
    ret := SetkeyEnc(bx, cty, key, keybits);
    sk := cty.Schedule();
    if ret != Success { return; }
    ctx.nr := cty.nr;
    InvertKeys(bx, ctx, cty);
    KeysInPlace(ctx, sk);
  }

  lemma KeysInPlace(ctx: AesContext, sk: seq<bv32>)
    requires ctx.Valid() && |sk| == 4 * ctx.nr + 4 && Inverted(ctx.buf, sk, ctx.nr, ctx.nr + 1)
    ensures InverseSchedule(sk, ctx.Schedule(), ctx.nr)
  {
    hide Unmix;
    var nr, dk, all := ctx.nr, ctx.Schedule(), ctx.buf[..];
    assert KeyAt(dk, 0) == KeyAt(all, 0) && KeyAt(dk, nr) == KeyAt(all, nr);
    forall j | 0 < j < nr
      ensures KeyAt(dk, j) == UnmixAll(KeyAt(sk, nr - j))
    {
      assert KeyAt(dk, j) == KeyAt(all, j);
    }
  }

  /** Storing round key m leaves the earlier ones in place. */
  method StoreKey(buf: array<bv32>, m: nat, k: Quad, ghost sk: seq<bv32>, ghost nr: nat)
    requires buf.Length == 68 && nr <= 14 && m <= nr && |sk| == 4 * nr + 4 && Inverted(buf, sk, nr, m)
    requires k == Quad(InvertedWord(sk, nr, m, 0), InvertedWord(sk, nr, m, 1), InvertedWord(sk, nr, m, 2), InvertedWord(sk, nr, m, 3))
    modifies buf
    ensures Inverted(buf, sk, nr, m + 1)
  {
    hide InvertedWord;
    ghost var before := buf[..];
    buf[4 * m], buf[4 * m + 1], buf[4 * m + 2], buf[4 * m + 3] := k.x0, k.x1, k.x2, k.x3;
    forall j | 0 <= j < m + 1
      ensures KeyAt(buf[..], j) == if j < m then KeyAt(before, j) else k
    {
    }
  }

  /** The inner loop: one inner round key from the encryption schedule. */
  method InverseRoundKey(bx: Boxes, cty: AesContext, from: nat, ghost j: nat) returns (k: Quad)
    requires Inverse(bx) && cty.Valid() && 0 < j < cty.nr && from == 4 * (cty.nr - j)
    ensures var sk := cty.Schedule();
            k == Quad(InvertedWord(sk, cty.nr, j, 0), InvertedWord(sk, cty.nr, j, 1),
                      InvertedWord(sk, cty.nr, j, 2), InvertedWord(sk, cty.nr, j, 3))
  {
    hide Inverse, InverseWord, Unmix;
    k := Quad(InverseWord(bx, cty.buf[from]), InverseWord(bx, cty.buf[from + 1]),
              InverseWord(bx, cty.buf[from + 2]), InverseWord(bx, cty.buf[from + 3]));
  }

  /** The copying loop; `from` runs backwards through the encryption schedule a key at a time. */
  method InvertKeys(bx: Boxes, ctx: AesContext, cty: AesContext)
    requires Inverse(bx) && ctx.Valid() && cty.Valid() && ctx.nr == cty.nr && ctx.buf != cty.buf
    modifies ctx.buf
    ensures Inverted(ctx.buf, cty.Schedule(), ctx.nr, ctx.nr + 1)
  {
    hide Inverse, Inverted, InverseWord, Unmix;
    ghost var sk := cty.Schedule();
    var nr := ctx.nr;
    var from: int := 4 * cty.nr;
    NothingInverted(ctx.buf, sk, nr);
    StoreKey(ctx.buf, 0, Quad(cty.buf[from], cty.buf[from + 1], cty.buf[from + 2], cty.buf[from + 3]), sk, nr);
    from := from + 4 - 8;
    var i: int := ctx.nr - 1;
    while i > 0
      invariant 0 <= i < nr && from == 4 * i && cty.Schedule() == sk && Inverted(ctx.buf, sk, nr, nr - i)
    {
      var k := InverseRoundKey(bx, cty, from, nr - i);
      StoreKey(ctx.buf, nr - i, k, sk, nr);
      from := from + 4 - 8;
      i := i - 1;
    }
    StoreKey(ctx.buf, nr, Quad(cty.buf[0], cty.buf[1], cty.buf[2], cty.buf[3]), sk, nr);
  }

  /**
   * For every key size: encryption under a key is the cipher of FIPS 197 under its key expansion, decryption is the inverse
   * cipher under the same expansion, and decryption gives the block back.
   */
  method CryptRoundTrip(bx: Boxes, key: seq<bv8>, keybits: int, block: Fips197.State)
    returns (ret: Status, cipher: Fips197.State, output: Fips197.State)
    requires Inverse(bx) && 8 * |key| >= keybits
    ensures ret == Success <==> keybits == 128 || keybits == 192 || keybits == 256
    ensures ret == Success ==> cipher == Fips197.Cipher(bx.fsb, Fips197.KeyExpansion(bx.fsb, key[..keybits / 8]), keybits / 32 + 6, block)
    ensures ret == Success ==> output == block
                            == Fips197.InvCipher(bx.rsb, Fips197.KeyExpansion(bx.fsb, key[..keybits / 8]), keybits / 32 + 6, cipher)
  {
    hide Inverse, Encrypted, Decrypted, InverseSchedule, Load, Store, Expanded, Bytes;
    hide Fips197.KeyExpansion, Fips197.Cipher, Fips197.InvCipher;
    var enc := new AesContext();
    var dec := new AesContext();
    cipher, output := block, block;
    ret := SetkeyEnc(bx, enc, key, keybits);
    if ret != Success { return; }
    ghost var sk;
    ret, sk := SetkeyDec(bx, dec, key, keybits);
    assert sk == enc.Schedule();
    cipher := EncryptBlock(bx, enc, block);
    output := DecryptBlock(bx, dec, cipher);
    BlockRoundTrip(bx, enc.Schedule(), dec.Schedule(), enc.nr, block);
    EquivalentInverse(bx, enc.Schedule(), dec.Schedule(), enc.nr, cipher);
  }
}
