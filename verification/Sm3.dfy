/** sm3.c: streaming and one-shot hashing around the compression function, which stays abstract. */
module Sm3 {
  type Byte = x: int | 0 <= x < 256
  type Word32 = x: int | 0 <= x < 0x1_0000_0000

  const INITIAL: seq<Word32> :=
    [0x7380166F, 0x4914B2B9, 0x172442D7, 0xDA8A0600, 0xA96F30BC, 0x163138AA, 0xE38DEE4D, 0xB0FB0E4E]

  /** The eight words of the hash state. */
  type State = s: seq<Word32> | |s| == 8 witness INITIAL

  /** The compression function sm3_cf: a new state from a state and a block. */
  type Compression = (State, seq<Byte>) -> State

  // ----- the hash of section 5 of GB/T 32905-2016 -----

  /** The state after whole blocks. */
  ghost function Blocks(cf: Compression, h: State, s: seq<Byte>): State
    decreases |s|
  {
    if |s| < 64 then h else Blocks(cf, cf(h, s[..64]), s[64..])
  }

  lemma FourBytes(x: Word32)
    ensures x / 0x100_0000 * 0x100_0000 + x / 0x1_0000 % 256 * 0x1_0000 + x / 0x100 % 256 * 0x100 + x % 256 == x
  {
    var a: int := x / 0x100;
    var b := a / 0x100;
    assert b == x / 0x1_0000 && b / 0x100 == x / 0x100_0000;
    assert x == a * 0x100 + x % 256 && a == b * 0x100 + a % 256 && b == b / 0x100 * 0x100 + b % 256;
  }

  /** Four bytes, most significant first. */
  function BigEndian(x: Word32): (s: seq<Byte>)
    ensures |s| == 4 && x == s[0] as int * 0x100_0000 + s[1] as int * 0x1_0000 + s[2] as int * 0x100 + s[3]
  {
    FourBytes(x);
    [x / 0x100_0000, x / 0x1_0000 % 256, x / 0x100 % 256, x % 256]
  }

  function Zeros(n: nat): (s: seq<Byte>)
    ensures |s| == n && forall i | 0 <= i < n :: s[i] == 0
  {
    seq(n, _ => 0)
  }

  /** The number of zero bytes between the mark and the length. */
  function Gap(n: nat): (z: nat)
    ensures (n + 1 + z + 8) % 64 == 0 && z < 64
  {
    if n % 64 < 56 then 55 - n % 64 else 119 - n % 64
  }

  /** What follows a message of n bytes: the mark, zeros, and the number of bits as 64 bits. */
  function Padding(n: nat): (s: seq<Byte>)
    ensures |s| == 1 + Gap(n) + 8
  {
    [0x80] + Zeros(Gap(n)) + BigEndian(8 * n / 0x1_0000_0000 % 0x1_0000_0000) + BigEndian(8 * n % 0x1_0000_0000)
  }

  function Output(h: State): (s: seq<Byte>)
    ensures |s| == 32
  {
    BigEndian(h[0]) + BigEndian(h[1]) + BigEndian(h[2]) + BigEndian(h[3])
    + BigEndian(h[4]) + BigEndian(h[5]) + BigEndian(h[6]) + BigEndian(h[7])
  }

  /** The hash of a message. */
  ghost function Hash(cf: Compression, msg: seq<Byte>): seq<Byte> {
    Output(Blocks(cf, INITIAL, msg + Padding(|msg|)))
  }

  // ----- the hash written out -----

  /** The number that bytes stand for, most significant first. */
  ghost function Number(s: seq<Byte>): nat {
    if s == [] then 0 else Number(s[..|s| - 1]) * 256 + s[|s| - 1]
  }

  lemma LastByte(a: nat, b: nat, x: Byte, y: Byte)
    requires a * 256 + x == b * 256 + y
    ensures a == b && x == y
  {
  }

  lemma {:induction false} NumberDetermines(s: seq<Byte>, t: seq<Byte>)
    requires |s| == |t| && Number(s) == Number(t)
    ensures s == t
  {
    if s == [] {
    } else {
      var n := |s| - 1;
      LastByte(Number(s[..n]), Number(t[..n]), s[n], t[n]);
      NumberDetermines(s[..n], t[..n]);
      assert s == s[..n] + [s[n]] && t == t[..n] + [t[n]];
    }
  }

  lemma NumberPlus(s: seq<Byte>, b: Byte)
    ensures Number(s + [b]) == Number(s) * 256 + b
  {
    assert (s + [b])[..|s|] == s;
  }

  lemma NumberOfFour(s: seq<Byte>, t: seq<Byte>)
    requires |t| == 4
    ensures Number(s + t) == Number(s) * 0x1_0000_0000 + t[0] as int * 0x100_0000 + t[1] as int * 0x1_0000 + t[2] as int * 0x100 + t[3]
  {
    hide Number;
    NumberPlus(s, t[0]);
    NumberPlus(s + [t[0]], t[1]);
    NumberPlus(s + [t[0]] + [t[1]], t[2]);
    NumberPlus(s + [t[0]] + [t[1]] + [t[2]], t[3]);
    assert s + t == s + [t[0]] + [t[1]] + [t[2]] + [t[3]];
  }

  lemma NumberOfWords(high: Word32, low: Word32)
    ensures Number(BigEndian(high) + BigEndian(low)) == high * 0x1_0000_0000 + low
  {
    hide BigEndian;
    NumberOfFour([], BigEndian(high));
    NumberOfFour(BigEndian(high), BigEndian(low));
    assert [] + BigEndian(high) == BigEndian(high);
  }

  /** A mark, zeros up to the next multiple of 64, and the number of bits in the last eight bytes. */
  ghost predicate Pads(n: nat, pad: seq<Byte>) {
    && 9 <= |pad| < 73 && (n + |pad|) % 64 == 0
    && pad[0] == 0x80 && (forall i | 0 < i < |pad| - 8 :: pad[i] == 0)
    && Number(pad[|pad| - 8..]) == 8 * n % 0x1_0000_0000_0000_0000
  }

  lemma SixtyFourBits(x: nat)
    ensures x / 0x1_0000_0000 % 0x1_0000_0000 * 0x1_0000_0000 + x % 0x1_0000_0000 == x % 0x1_0000_0000_0000_0000
  {
    var a, b := x / 0x1_0000_0000, x % 0x1_0000_0000;
    var c, d := a / 0x1_0000_0000, a % 0x1_0000_0000;
    assert x == c * 0x1_0000_0000_0000_0000 + (d * 0x1_0000_0000 + b);
  }

  /** The padding is the only sequence that pads. */
  lemma PaddingIsUnique(n: nat, pad: seq<Byte>)
    ensures Pads(n, pad) <==> pad == Padding(n)
  {
    hide BigEndian, Number;
    var own := Padding(n);
    var l := |own| - 8;
    var high, low := 8 * n / 0x1_0000_0000 % 0x1_0000_0000, 8 * n % 0x1_0000_0000;
    assert own[l..] == BigEndian(high) + BigEndian(low);
    NumberOfWords(high, low);
    SixtyFourBits(8 * n);
    assert Pads(n, own);
    if Pads(n, pad) {
      SameLength(n, |pad|, |own|);
      NumberDetermines(pad[l..], own[l..]);
      assert pad == pad[..l] + pad[l..] && own == own[..l] + own[l..];
      assert pad[..l] == own[..l];
    }
  }

  lemma SameLength(n: nat, k: nat, l: nat)
    requires 9 <= k < 73 && 9 <= l < 73 && (n + k) % 64 == 0 && (n + l) % 64 == 0
    ensures k == l
  {
    assert k - l == 64 * ((n + k) / 64 - (n + l) / 64);
  }

  lemma OutputWord(h: State, j: nat)
    requires j < 8
    ensures Output(h)[4 * j..4 * j + 4] == BigEndian(h[j])
  {
    hide BigEndian;
    forall t | 0 <= t < 4
      ensures Output(h)[4 * j + t] == BigEndian(h[j])[t]
    {
    }
  }

  /** The hash from the initial words and the padded message: its four bytes j are word j of the last state. */
  lemma HashWrittenOut(cf: Compression, msg: seq<Byte>, pad: seq<Byte>, j: nat)
    requires Pads(|msg|, pad) && j < 8
    ensures |Hash(cf, msg)| == 32
    ensures Number(Hash(cf, msg)[4 * j..4 * j + 4])
            == Blocks(cf, [0x7380166F, 0x4914B2B9, 0x172442D7, 0xDA8A0600, 0xA96F30BC, 0x163138AA, 0xE38DEE4D, 0xB0FB0E4E],
                      msg + pad)[j]
  {
    hide Output, Blocks, Padding, Pads, BigEndian, Number;
    PaddingIsUnique(|msg|, pad);
    var h := Blocks(cf, INITIAL, msg + pad);
    OutputWord(h, j);
    NumberOfFour([], BigEndian(h[j]));
    assert [] + BigEndian(h[j]) == BigEndian(h[j]);
    NoNumber();
  }

  lemma NoNumber()
    ensures Number([]) == 0
  {
  }

  // ----- blocks -----

  /** The whole blocks at the front of s. */
  function Whole(s: seq<Byte>): (w: seq<Byte>)
    ensures |w| % 64 == 0 && |w| == |s| - |s| % 64
  {
    s[..|s| - |s| % 64]
  }

  /** What is left over. */
  function Tail(s: seq<Byte>): (t: seq<Byte>)
    ensures |t| == |s| % 64
  {
    s[|s| - |s| % 64..]
  }

  lemma {:induction false} BlocksAppend(cf: Compression, h: State, s: seq<Byte>, t: seq<Byte>)
    requires |s| % 64 == 0
    ensures Blocks(cf, h, s + t) == Blocks(cf, Blocks(cf, h, s), t)
    decreases |s|
  {
    if |s| < 64 {
      assert s + t == t;
    } else {
      assert (s + t)[..64] == s[..64] && (s + t)[64..] == s[64..] + t;
      BlocksAppend(cf, cf(h, s[..64]), s[64..], t);
    }
  }

  lemma OneBlock(cf: Compression, h: State, b: seq<Byte>)
    requires |b| == 64
    ensures Blocks(cf, h, b) == cf(h, b)
  {
    assert b[..64] == b && b[64..] == [];
  }

  /** Compressing consecutive blocks of a buffer. */
  method CompressBlocks(cf: Compression, h0: State, input: seq<Byte>, n: nat) returns (h: State)
    requires 64 * n <= |input|
    ensures h == Blocks(cf, h0, input[..64 * n])
  {
    h := h0;
    for i := 0 to n
      invariant h == Blocks(cf, h0, input[..64 * i])
    {
      var b := input[i * 64..i * 64 + 64];
      assert input[..64 * (i + 1)] == input[..64 * i] + b;
      BlocksAppend(cf, h0, input[..64 * i], b);
      OneBlock(cf, h, b);
      h := cf(h, b);
    }
  }

  // ----- streaming -----

  class Sm3Ctx {
    var h: State
    const bb: array<Byte>
    var len: nat

    /** sm3_init. */
    constructor (cf: Compression)
      ensures fresh(bb) && Absorbed(cf, [])
    {
      h := INITIAL;
      bb := new Byte[64](i => 0);
      len := 0;
    }

    /** The context stands for a message: its blocks are compressed and its tail is in the buffer. */
    ghost predicate Absorbed(cf: Compression, msg: seq<Byte>)
      reads this, bb
    {
      && bb.Length == 64 && len == |msg| && h == Blocks(cf, INITIAL, Whole(msg))
      && bb[..len % 64] == Tail(msg)
    }

    /** The front of the input goes behind what the buffer holds. */
    method Fill(input: seq<Byte>, curPos: nat, min: nat)
      requires bb.Length == 64 && curPos + min <= 64 && min <= |input|
      modifies bb
      ensures bb[..curPos + min] == old(bb[..curPos]) + input[..min]
    {
      ghost var held := bb[..curPos];
      for i := 0 to min
        invariant bb[..curPos] == held && bb[curPos..curPos + i] == input[..i]
      {
        bb[i + curPos] := input[i];
      }
    }

    /** The end of the input goes to the front of the buffer. */
    method Keep(rest: seq<Byte>, from: nat)
      requires bb.Length == 64 && from <= |rest| < from + 64
      modifies bb
      ensures bb[..|rest| - from] == rest[from..]
    {
      for i := 0 to |rest| - from
        invariant bb[..i] == rest[from..from + i]
      {
        bb[i] := rest[from + i];
      }
    }

    /** sm3_update. */
    method Update(cf: Compression, input: seq<Byte>, ghost msg: seq<Byte>)
      requires Absorbed(cf, msg) && |input| < 0x1_0000_0000 && |msg| + |input| < 0x1_0000_0000_0000_0000
      modifies this, bb
      ensures Absorbed(cf, msg + input)
    {
      hide Blocks, Whole, Tail;
      var curPos := len % 64;
      var min := if 64 - curPos < |input| then 64 - curPos else |input|;
      Fill(input, curPos, min);
      len := len + |input|;
      if |input| >= 64 - curPos {
        ghost var block := bb[..];
        assert block == Tail(msg) + input[..64 - curPos];
        FillsBlock(msg, input, curPos);
        BlocksAppend(cf, INITIAL, Whole(msg), block);
        OneBlock(cf, h, block);
        h := cf(h, bb[..]);
        var rest := input[64 - curPos..];
        var n := |rest| / 64;
        h := CompressBlocks(cf, h, rest, n);
        BlocksAppend(cf, INITIAL, Whole(msg) + block, rest[..64 * n]);
        Keep(rest, 64 * n);
      } else {
        StaysShort(msg, input, curPos);
        assert input[..min] == input;
      }
    }
  }

  /** Enough input completes the block in the buffer. */
  lemma FillsBlock(msg: seq<Byte>, input: seq<Byte>, curPos: nat)
    requires curPos == |msg| % 64 && |input| >= 64 - curPos
    ensures var rest, all := input[64 - curPos..], msg + input;
            var block, n := Tail(msg) + input[..64 - curPos], |rest| / 64;
            && |block| == 64 && Whole(all) == Whole(msg) + block + rest[..64 * n]
            && Tail(all) == rest[64 * n..] && |all| % 64 == |rest| % 64 == |rest| - 64 * n
  {
    var rest, all := input[64 - curPos..], msg + input;
    var block, n := Tail(msg) + input[..64 - curPos], |rest| / 64;
    assert msg == Whole(msg) + Tail(msg);
    assert all == Whole(msg) + block + rest;
    assert |all| == 64 * (|msg| / 64 + 1 + n) + |rest| % 64;
    assert |all| % 64 == |rest| % 64;
  }

  lemma StaysShort(msg: seq<Byte>, input: seq<Byte>, curPos: nat)
    requires curPos == |msg| % 64 && |input| < 64 - curPos
    ensures Whole(msg + input) == Whole(msg) && Tail(msg + input) == Tail(msg) + input
    ensures |msg + input| % 64 == curPos + |input|
  {
    assert |msg| == 64 * (|msg| / 64) + curPos;
    assert |msg + input| == 64 * (|msg| / 64) + (curPos + |input|);
  }

  // ----- padding -----

  /** The tail with its padding is one block or two. */
  lemma PaddedTail(cf: Compression, h: State, msg: seq<Byte>)
    requires h == Blocks(cf, INITIAL, Whole(msg))
    ensures Hash(cf, msg) == Output(Blocks(cf, h, Tail(msg) + Padding(|msg|)))
  {
    assert msg + Padding(|msg|) == Whole(msg) + (Tail(msg) + Padding(|msg|));
    BlocksAppend(cf, INITIAL, Whole(msg), Tail(msg) + Padding(|msg|));
  }

  /** The buffer after the message's tail, the mark and the length have been stored in it. */
  lemma BufferIsPadding(tail: seq<Byte>, n: nat, high: Word32, low: Word32, bb: seq<Byte>, size: nat)
    requires |tail| == n % 64 && size == (if |tail| < 56 then 64 else 128) && |bb| == size
    requires high == 8 * n / 0x1_0000_0000 % 0x1_0000_0000 && low == 8 * n % 0x1_0000_0000
    requires bb[..|tail|] == tail && bb[|tail|] == 0x80 && forall i | |tail| < i < size - 8 :: bb[i] == 0
    requires bb[size - 8..size - 4] == BigEndian(high) && bb[size - 4..] == BigEndian(low)
    ensures bb == tail + Padding(n)
  {
    var z := Gap(n);
    assert bb[|tail| + 1..size - 8] == Zeros(z);
    assert bb == bb[..|tail|] + [bb[|tail|]] + bb[|tail| + 1..size - 8] + bb[size - 8..size - 4] + bb[size - 4..];
  }

  /** The end of sm3_final and of sm3: the tail is padded in a buffer of two blocks and compressed. */
  method Finish(cf: Compression, h0: State, tail: seq<Byte>, high: Word32, low: Word32, ghost n: nat) returns (hash: seq<Byte>)
    requires |tail| == n % 64 && high == 8 * n / 0x1_0000_0000 % 0x1_0000_0000 && low == 8 * n % 0x1_0000_0000
    ensures hash == Output(Blocks(cf, h0, tail + Padding(n)))
  {
    hide Blocks, Output, BigEndian, Padding;
    var h := h0;
    var bb := new Byte[128](i => 0);
    var i := 0;
    while i < |tail|
      invariant i <= |tail| && bb[..i] == tail[..i] && forall k | i <= k < 128 :: bb[k] == 0
    {
      bb[i] := tail[i];
      i := i + 1;
    }
    bb[i] := 0x80;
    if |tail| < 56 {
      StoreLength(bb, 56, high, low);
      assert bb[..|tail|] == tail;
      FirstBlockPads(tail, n, high, low, bb);
      OneBlock(cf, h, bb[..64]);
      h := cf(h, bb[..64]);
    } else {
      ghost var first := bb[..64];
      h := cf(h, bb[..64]);
      StoreLength(bb, 120, high, low);
      assert bb[..64] == first && bb[..|tail|] == tail;
      BothBlocksPad(tail, n, high, low, bb);
      BlocksAppend(cf, h0, bb[..64], bb[64..]);
      OneBlock(cf, h0, bb[..64]);
      OneBlock(cf, h, bb[64..]);
      h := cf(h, bb[64..]);
    }
    hash := Output(h);
  }

  lemma FirstBlockPads(tail: seq<Byte>, n: nat, high: Word32, low: Word32, bb: array<Byte>)
    requires bb.Length == 128 && |tail| == n % 64 < 56
    requires high == 8 * n / 0x1_0000_0000 % 0x1_0000_0000 && low == 8 * n % 0x1_0000_0000
    requires bb[..|tail|] == tail && bb[|tail|] == 0x80 && forall i | |tail| < i < 56 :: bb[i] == 0
    requires bb[56..60] == BigEndian(high) && bb[60..64] == BigEndian(low)
    ensures bb[..64] == tail + Padding(n)
  {
    hide BigEndian, Padding;
    var s := bb[..64];
    assert s[56..60] == bb[56..60] && s[60..] == bb[60..64] && s[..|tail|] == bb[..|tail|];
    BufferIsPadding(tail, n, high, low, s, 64);
  }

  lemma BothBlocksPad(tail: seq<Byte>, n: nat, high: Word32, low: Word32, bb: array<Byte>)
    requires bb.Length == 128 && |tail| == n % 64 >= 56
    requires high == 8 * n / 0x1_0000_0000 % 0x1_0000_0000 && low == 8 * n % 0x1_0000_0000
    requires bb[..|tail|] == tail && bb[|tail|] == 0x80 && forall i | |tail| < i < 120 :: bb[i] == 0
    requires bb[120..124] == BigEndian(high) && bb[124..128] == BigEndian(low)
    ensures bb[..64] + bb[64..] == tail + Padding(n)
  {
    hide BigEndian, Padding;
    var s := bb[..];
    assert s[120..124] == bb[120..124] && s[124..] == bb[124..128] && s[..|tail|] == bb[..|tail|];
    BufferIsPadding(tail, n, high, low, s, 128);
    assert s == bb[..64] + bb[64..];
  }

  /** The length in bits as two words, most significant byte first. */
  method StoreLength(bb: array<Byte>, at: nat, high: Word32, low: Word32)
    requires at + 8 <= bb.Length
    modifies bb
    ensures bb[at..at + 4] == BigEndian(high) && bb[at + 4..at + 8] == BigEndian(low)
    ensures forall k | 0 <= k < bb.Length && !(at <= k < at + 8) :: bb[k] == old(bb[k])
  {
    var u, v := BigEndian(high), BigEndian(low);
    bb[at], bb[at + 1], bb[at + 2], bb[at + 3] := u[0], u[1], u[2], u[3];
    bb[at + 4], bb[at + 5], bb[at + 6], bb[at + 7] := v[0], v[1], v[2], v[3];
  }

  /** The number of bits of a length, word by word. */
  lemma LengthWords(n: nat)
    ensures n / 0x2000_0000 == 8 * n / 0x1_0000_0000
  {
  }

  /** sm3_final: the hash of everything the context has absorbed. */
  method Final(cf: Compression, ctx: Sm3Ctx, ghost msg: seq<Byte>) returns (hash: seq<Byte>)
    requires ctx.Absorbed(cf, msg)
    ensures hash == Hash(cf, msg)
  {
    hide Blocks, Output, BigEndian, Padding, Hash;
    var high := ctx.len / 0x2000_0000 % 0x1_0000_0000;
    var low := ctx.len * 8 % 0x1_0000_0000;
    LengthWords(ctx.len);
    PaddedTail(cf, ctx.h, msg);
    hash := Finish(cf, ctx.h, ctx.bb[..ctx.len % 64], high, low, |msg|);
  }

  /** sm3: the hash of a message given at once. */
  method OneShot(cf: Compression, input: seq<Byte>) returns (hash: seq<Byte>)
    requires |input| < 0x1_0000_0000
    ensures hash == Hash(cf, input)
  {
    hide Blocks, Output, BigEndian, Padding, Hash;
    var h := CompressBlocks(cf, INITIAL, input, |input| / 64);
    assert input[..64 * (|input| / 64)] == Whole(input);
    var high := |input| / 0x2000_0000;
    var low := |input| * 8 % 0x1_0000_0000;
    LengthWords(|input|);
    PaddedTail(cf, h, input);
    assert input[|input| / 64 * 64..] == Tail(input);
    hash := Finish(cf, h, input[|input| / 64 * 64..], high, low, |input|);
  }

  ghost function Join(chunks: seq<seq<Byte>>): seq<Byte> {
    if chunks == [] then [] else Join(chunks[..|chunks| - 1]) + chunks[|chunks| - 1]
  }

  lemma {:induction false} JoinLonger(chunks: seq<seq<Byte>>, i: nat)
    requires i <= |chunks|
    ensures |Join(chunks[..i])| <= |Join(chunks)| && forall k | i <= k < |chunks| :: |chunks[k]| <= |Join(chunks)|
  {
    if i < |chunks| {
      var n := |chunks| - 1;
      assert chunks[..n][..i] == chunks[..i];
      JoinLonger(chunks[..n], i);
    } else {
      assert chunks[..i] == chunks;
    }
  }

  /** Any way of cutting a message into chunks gives the hash that one call of sm3 gives. */
  method HashChunks(cf: Compression, chunks: seq<seq<Byte>>) returns (hash: seq<Byte>)
    requires |Join(chunks)| < 0x1_0000_0000
    ensures hash == Hash(cf, Join(chunks))
  {
    var ctx := new Sm3Ctx(cf);
    for i := 0 to |chunks|
      invariant fresh(ctx) && fresh(ctx.bb) && ctx.Absorbed(cf, Join(chunks[..i]))
    {
      JoinLonger(chunks, i);
      JoinLonger(chunks, i + 1);
      ctx.Update(cf, chunks[i], Join(chunks[..i]));
      assert chunks[..i + 1][..i] == chunks[..i];
    }
    assert chunks[..|chunks|] == chunks;
    hash := Final(cf, ctx, Join(chunks));
  }
}
