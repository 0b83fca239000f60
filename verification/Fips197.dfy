/**
 * The cipher of FIPS 197 on bytes: the reference that the table driven code of aes.c is measured against. Byte 4c + r
 * of a state stands in row r and column c; a word of a key schedule is its four bytes in order.
 */
module Fips197 {
  type State = s: seq<bv8> | |s| == 16 witness seq(16, _ => 0)
  type Word = s: seq<bv8> | |s| == 4 witness [0, 0, 0, 0]

  // ----- section 4: the field with 256 elements -----

  /** Addition. */
  ghost function Plus(x: bv8, y: bv8): bv8 { x ^ y }

  /** A term of a sum that is there when the bits of the mask are in x. */
  ghost function Term(x: bv8, mask: bv8, p: bv16): bv16 {
    if x & mask != 0 then p else 0
  }

  /** Addition of longer polynomials. */
  ghost function Sum(p: bv16, q: bv16): bv16 { p ^ q }

  /** The product of two polynomials over bits, not reduced: y is shifted to every power that is in x. */
  ghost function LongProduct(x: bv8, y: bv8): bv16 {
    var p := y as bv16;
    Sum(Sum(Sum(Term(x, 0x01, p), Term(x, 0x02, p << 1)), Sum(Term(x, 0x04, p << 2), Term(x, 0x08, p << 3))),
        Sum(Sum(Term(x, 0x10, p << 4), Term(x, 0x20, p << 5)), Sum(Term(x, 0x40, p << 6), Term(x, 0x80, p << 7))))
  }

  /** A multiple of the modulus is taken off when p has the power top. */
  ghost function Without(p: bv16, top: bv16, multiple: bv16): bv16 {
    if p & top != 0 then Sum(p, multiple) else p
  }

  ghost function LowByte(p: bv16): bv8 { (p & 0xFF) as bv8 }

  /** The residue of a polynomial modulo x^8 + x^4 + x^3 + x + 1. */
  ghost function Residue(p: bv16): bv8 {
    var p6 := Without(p, 0x4000, 0x11B << 6);
    var p5 := Without(p6, 0x2000, 0x11B << 5);
    var p4 := Without(p5, 0x1000, 0x11B << 4);
    var p3 := Without(p4, 0x0800, 0x11B << 3);
    var p2 := Without(p3, 0x0400, 0x11B << 2);
    var p1 := Without(p2, 0x0200, 0x11B << 1);
    LowByte(Without(p1, 0x0100, 0x11B))
  }

  /** Multiplication. */
  ghost function Product(x: bv8, y: bv8): bv8 {
    Residue(LongProduct(x, y))
  }

  // ----- section 5.1.1: the S-box -----

  /** The multiplicative inverse; zero is mapped to itself. */
  ghost predicate InverseOf(x: bv8, y: bv8) {
    if x == 0 then y == 0 else Product(x, y) == 1
  }

  ghost predicate On(x: bv8, mask: bv8) { x & mask != 0 }

  ghost predicate Odd(a: bool, b: bool, c: bool, d: bool, e: bool) { ((a != b) != (c != d)) != e }

  /** Bit i of s is the sum of bits i, i + 4, i + 5, i + 6 and i + 7 of y, indices modulo 8, and of bit i of 0x63. */
  ghost predicate Affine(y: bv8, s: bv8) {
    var b0, b1, b2, b3 := On(y, 0x01), On(y, 0x02), On(y, 0x04), On(y, 0x08);
    var b4, b5, b6, b7 := On(y, 0x10), On(y, 0x20), On(y, 0x40), On(y, 0x80);
    && On(s, 0x01) != Odd(b0, b4, b5, b6, b7) && On(s, 0x02) != Odd(b1, b5, b6, b7, b0)
    && On(s, 0x04) == Odd(b2, b6, b7, b0, b1) && On(s, 0x08) == Odd(b3, b7, b0, b1, b2)
    && On(s, 0x10) == Odd(b4, b0, b1, b2, b3) && On(s, 0x20) != Odd(b5, b1, b2, b3, b4)
    && On(s, 0x40) != Odd(b6, b2, b3, b4, b5) && On(s, 0x80) == Odd(b7, b3, b4, b5, b6)
  }

  /** s is the affine image of the inverse of x. */
  ghost predicate SubstituteOf(x: bv8, s: bv8) {
    exists y :: InverseOf(x, y) && Affine(y, s)
  }

  ghost predicate IsSbox(f: bv8 -> bv8) {
    forall x :: SubstituteOf(x, f(x))
  }

  // ----- section 5.1: the cipher -----

  ghost function SubBytes(f: bv8 -> bv8, s: State): State {
    seq(16, i requires 0 <= i < 16 => f(s[i]))
  }

  /** Row r moves r columns to the left. */
  ghost function ShiftRows(s: State): State {
    seq(16, i requires 0 <= i < 16 => s[4 * ((i / 4 + i % 4) % 4) + i % 4])
  }

  /** Row r of a column multiplied by the circulant matrix whose first row is m. */
  ghost function MixedByte(m: Word, s: State, c: nat, r: nat): bv8
    requires c < 4 && r < 4
  {
    Plus(Plus(Product(m[0], s[4 * c + r]), Product(m[1], s[4 * c + (r + 1) % 4])),
         Plus(Product(m[2], s[4 * c + (r + 2) % 4]), Product(m[3], s[4 * c + (r + 3) % 4])))
  }

  ghost function MixColumns(s: State): State {
    seq(16, i requires 0 <= i < 16 => MixedByte([2, 3, 1, 1], s, i / 4, i % 4))
  }

  ghost function AddRoundKey(s: State, k: State): State {
    seq(16, i requires 0 <= i < 16 => Plus(s[i], k[i]))
  }

  /** The four words of round key i in a row. */
  ghost function RoundKey(w: seq<Word>, i: nat): State
    requires 4 * i + 4 <= |w|
  {
    seq(16, k requires 0 <= k < 16 => w[4 * i + k / 4][k % 4])
  }

  /** The state after i rounds. */
  ghost function Rounds(f: bv8 -> bv8, w: seq<Word>, s: State, i: nat): State
    requires 4 * i + 4 <= |w|
  {
    if i == 0 then AddRoundKey(s, RoundKey(w, 0))
    else AddRoundKey(MixColumns(ShiftRows(SubBytes(f, Rounds(f, w, s, i - 1)))), RoundKey(w, i))
  }

  /** Cipher, for the S-box f. */
  ghost function Cipher(f: bv8 -> bv8, w: seq<Word>, nr: nat, s: State): State
    requires nr >= 1 && 4 * nr + 4 <= |w|
  {
    AddRoundKey(ShiftRows(SubBytes(f, Rounds(f, w, s, nr - 1))), RoundKey(w, nr))
  }

  // ----- section 5.2: the key expansion -----

  /** The powers of x up to x^9. */
  const ROUND_CONSTANTS: seq<bv8> := [0x01, 0x02, 0x04, 0x08, 0x10, 0x20, 0x40, 0x80, 0x1B, 0x36]

  ghost function SubWord(f: bv8 -> bv8, a: Word): Word { [f(a[0]), f(a[1]), f(a[2]), f(a[3])] }

  ghost function RotWord(a: Word): Word { [a[1], a[2], a[3], a[0]] }

  ghost function AddWords(a: Word, b: Word): Word {
    [Plus(a[0], b[0]), Plus(a[1], b[1]), Plus(a[2], b[2]), Plus(a[3], b[3])]
  }

  /** What is added to the word nk places back to give word n, from the word before it. */
  ghost function Temp(f: bv8 -> bv8, nk: nat, n: nat, last: Word): Word
    requires nk >= 4 && nk <= n < 11 * nk
  {
    if n % nk == 0 then AddWords(SubWord(f, RotWord(last)), [ROUND_CONSTANTS[n / nk - 1], 0, 0, 0])
    else if nk > 6 && n % nk == 4 then SubWord(f, last)
    else last
  }

  /** Word n of the schedule of a key of four, six or eight words. */
  ghost function KeyWord(f: bv8 -> bv8, key: seq<bv8>, n: nat): Word
    requires |key| == 16 || |key| == 24 || |key| == 32
    requires n < |key| + 28
  {
    var nk := |key| / 4;
    if n < nk then key[4 * n..4 * n + 4]
    else AddWords(KeyWord(f, key, n - nk), Temp(f, nk, n, KeyWord(f, key, n - 1)))
  }

  /** KeyExpansion: four words for each of the 11, 13 or 15 round keys. */
  ghost function KeyExpansion(f: bv8 -> bv8, key: seq<bv8>): (w: seq<Word>)
    requires |key| == 16 || |key| == 24 || |key| == 32
    ensures |w| == |key| + 28
  {
    seq(|key| + 28, n requires 0 <= n < |key| + 28 => KeyWord(f, key, n))
  }

  // ----- section 5.3: the inverse cipher -----

  /** Row r moves r columns to the right. */
  ghost function InvShiftRows(s: State): State {
    seq(16, i requires 0 <= i < 16 => s[4 * ((i / 4 + 4 - i % 4) % 4) + i % 4])
  }

  ghost function InvMixColumns(s: State): State {
    seq(16, i requires 0 <= i < 16 => MixedByte([14, 11, 13, 9], s, i / 4, i % 4))
  }

  /** The state after the round keys nr down to i have been added; g is the inverse S-box. */
  ghost function InvRounds(g: bv8 -> bv8, w: seq<Word>, nr: nat, s: State, i: nat): State
    requires i <= nr && 4 * nr + 4 <= |w|
    decreases nr - i
  {
    if i == nr then AddRoundKey(s, RoundKey(w, nr))
    else
      var before := InvRounds(g, w, nr, s, i + 1);
      var mixed := if i + 1 == nr then before else InvMixColumns(before);
      AddRoundKey(SubBytes(g, InvShiftRows(mixed)), RoundKey(w, i))
  }

  /** InvCipher. */
  ghost function InvCipher(g: bv8 -> bv8, w: seq<Word>, nr: nat, s: State): State
    requires nr >= 1 && 4 * nr + 4 <= |w|
  {
    InvRounds(g, w, nr, s, 0)
  }

  /** The rounds of the equivalent inverse cipher of section 5.3.5 with its own schedule dw, first key first. */
  ghost function EqInvRounds(g: bv8 -> bv8, dw: seq<Word>, s: State, i: nat): State
    requires 4 * i + 4 <= |dw|
  {
    if i == 0 then AddRoundKey(s, RoundKey(dw, 0))
    else AddRoundKey(InvMixColumns(InvShiftRows(SubBytes(g, EqInvRounds(g, dw, s, i - 1)))), RoundKey(dw, i))
  }

  ghost function EqInvCipher(g: bv8 -> bv8, dw: seq<Word>, nr: nat, s: State): State
    requires nr >= 1 && 4 * nr + 4 <= |dw|
  {
    AddRoundKey(InvShiftRows(SubBytes(g, EqInvRounds(g, dw, s, nr - 1))), RoundKey(dw, nr))
  }
}
