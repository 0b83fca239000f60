/** aes.c aes_gen_tables: the S-boxes, the round constants and the big tables, made from powers of 3 and their logarithms. */
module AesTables {
  import opened AesColumns
  import opened Aes
  import opened AesBytes
  import opened AesBlock
  import opened AesField
  import AesKeys
  import Fips197

  function ByteAt(i: nat): bv8
    requires i < 256
  {
    i as bv8
  }

  lemma NextByte(b: bv8)
    requires b != 255
    ensures (b + 1) as int == b as int + 1
  {
  }

  lemma ByteBack(b: bv8)
    ensures (b as int) as bv8 == b && (b == 255 ==> b as int == 255)
  {
  }

  lemma {:induction false} ByteWith(i: nat) returns (b: bv8)
    requires i < 256
    ensures b as int == i
  {
    if i == 0 {
      b := 0;
    } else {
      var c := ByteWith(i - 1);
      ByteBack(c);
      NextByte(c);
      b := c + 1;
    }
  }

  lemma IndexOfByte(i: nat)
    requires i < 256
    ensures Index(ByteAt(i)) == i
  {
    var b := ByteWith(i);
    ByteBack(b);
  }

  lemma ByteOfIndex(x: bv8)
    ensures ByteAt(Index(x)) == x
  {
    IndexOfByte(Index(x));
    IndexInjective(ByteAt(Index(x)), x);
  }

  // ----- powers and logarithms -----

  /** Entry k is the k-th power of 3. */
  ghost predicate IsPow(pow: seq<bv8>) {
    |pow| == 256 && forall k | 0 <= k < 256 :: pow[k] == Power(k)
  }

  /** The entry of a byte that is not zero is an exponent from 1 to 255 that gives the byte. */
  ghost predicate IsLog(log: seq<nat>) {
    |log| == 256 && forall x: bv8 | x != 0 :: 1 <= log[Index(x)] <= 255 && Power(log[Index(x)]) == x
  }

  /** The first loop: a logarithm is what was stored last, so that of 1 is 255. */
  method PowLog() returns (pow: array<bv8>, log: array<nat>)
    ensures fresh(pow) && fresh(log) && IsPow(pow[..]) && IsLog(log[..])
  {
    hide Power, Three, Index;
    pow := new bv8[256](_ => 0);
    log := new nat[256](_ => 0);
    var x: bv8 := 1;
    PowerStarts();
    for i := 0 to 256
      invariant x == Power(i) && forall k | 0 <= k < i :: pow[k] == Power(k)
      invariant forall k | 0 <= k < i && (k > 0 || i < 256) :: log[Index(Power(k))] == k
    {
      forall k | 0 <= k < i && (k > 0 || i < 255)
        ensures Index(Power(k)) != Index(x)
      {
        PowersDiffer(k, i);
        IndexInjective(Power(k), x);
      }
      pow[i] := x;
      log[Index(x)] := i;
      PowerNext(i);
      x := Three(x);
    }
    forall y: bv8 | y != 0
      ensures 1 <= log[Index(y)] <= 255 && Power(log[Index(y)]) == y
    {
      var n := EveryByte(y);
    }
  }

  lemma PowerNext(n: nat)
    ensures Power(n + 1) == Three(Power(n))
  {
  }

  lemma {:induction false} PowerMod(n: nat)
    ensures Power(n % 255) == Power(n)
  {
    hide Power;
    if n >= 255 {
      Powers();
      Period(255, n - 255);
      PowerMod(n - 255);
      assert (n - 255) % 255 == n % 255;
    }
  }

  /** MUL: multiplication by the tables. */
  function Mul(pow: seq<bv8>, log: seq<nat>, x: bv8, y: bv8): (z: bv8)
    requires IsPow(pow) && IsLog(log)
    ensures z == Fips197.Product(x, y)
  {
    MulIsProduct(pow, log, x, y);
    if x != 0 && y != 0 then pow[(log[Index(x)] + log[Index(y)]) % 255] else 0
  }

  lemma WithZero(x: bv8)
    ensures Fips197.Product(0, x) == 0 && Fips197.Product(x, 0) == 0
  {
  }

  lemma MulIsProduct(pow: seq<bv8>, log: seq<nat>, x: bv8, y: bv8)
    requires IsPow(pow) && IsLog(log)
    ensures Fips197.Product(x, y) == if x != 0 && y != 0 then pow[(log[Index(x)] + log[Index(y)]) % 255] else 0
  {
    hide Power, Index, Fips197.Product;
    if x != 0 && y != 0 {
      PowerSum(log[Index(x)], log[Index(y)]);
      PowerMod(log[Index(x)] + log[Index(y)]);
    } else {
      WithZero(x);
      WithZero(y);
    }
  }

  // ----- the S-boxes -----

  function Rotl1(y: bv8): bv8 { (y << 1) | (y >> 7) }

  /** The five xors of the S-box loop. */
  function Substituted(x: bv8): bv8 {
    var y1 := Rotl1(x);
    var x1 := Xor(x, y1);
    var y2 := Rotl1(y1);
    var x2 := Xor(x1, y2);
    var y3 := Rotl1(y2);
    var x3 := Xor(x2, y3);
    var y4 := Rotl1(y3);
    Xor(x3, Xor(y4, 0x63))
  }

  lemma SubstitutedIsAffine(x: bv8)
    ensures Fips197.Affine(x, Substituted(x))
  {
  }

  lemma SubstitutedZero()
    ensures Substituted(0) == 0x63
  {
  }

  lemma SubstitutedInjective(x: bv8, y: bv8)
    requires Substituted(x) == Substituted(y)
    ensures x == y
  {
  }

  /** The inverse as the tables give it. */
  function Inv(log: seq<nat>, x: bv8): bv8
    requires IsLog(log)
  {
    if x == 0 then 0 else Power(255 - log[Index(x)])
  }

  lemma InvIsInverse(log: seq<nat>, x: bv8)
    requires IsLog(log)
    ensures Fips197.InverseOf(x, Inv(log, x))
  {
    hide Power, Index, Fips197.Product;
    if x != 0 {
      PowerSum(log[Index(x)], 255 - log[Index(x)]);
      Powers();
    }
  }

  lemma InvInjective(log: seq<nat>, x: bv8, y: bv8)
    requires IsLog(log) && Inv(log, x) == Inv(log, y)
    ensures x == y
  {
    hide Power, Index;
    if x != 0 { PowerNotZero(255 - log[Index(x)]); }
    if y != 0 { PowerNotZero(255 - log[Index(y)]); }
    if x != 0 && y != 0 {
      var m, n := 255 - log[Index(x)], 255 - log[Index(y)];
      if m < n { PowersDiffer(m, n); }
      if n < m { PowersDiffer(n, m); }
    }
  }

  /** The function that an array of 256 bytes is. */
  function Lookup(t: seq<bv8>): bv8 -> bv8
    requires |t| == 256
  {
    (x: bv8) => t[Index(x)]
  }

  /** The boxes are right for the bytes below i. */
  ghost predicate BoxesTo(fsb: seq<bv8>, rsb: seq<bv8>, log: seq<nat>, i: nat)
    requires |fsb| == 256 && |rsb| == 256 && IsLog(log)
  {
    forall x: bv8 | Index(x) < i :: fsb[Index(x)] == Substituted(Inv(log, x)) && rsb[Index(fsb[Index(x)])] == x
  }

  lemma BoxStored(fsb: seq<bv8>, rsb: seq<bv8>, log: seq<nat>, x: bv8)
    requires |fsb| == 256 && |rsb| == 256 && IsLog(log) && BoxesTo(fsb, rsb, log, Index(x))
    ensures var s := Substituted(Inv(log, x));
            BoxesTo(fsb[Index(x) := s], rsb[Index(s) := x], log, Index(x) + 1)
  {
    hide Index, Substituted, Inv, IsLog;
    var s := Substituted(Inv(log, x));
    forall y: bv8 | Index(y) < Index(x) + 1
      ensures y == x || (Index(y) < Index(x) && Index(Substituted(Inv(log, y))) != Index(s))
    {
      IndexInjective(y, x);
      IndexInjective(Substituted(Inv(log, y)), s);
      if y != x && Substituted(Inv(log, y)) == s {
        SubstitutedInjective(Inv(log, y), Inv(log, x));
        InvInjective(log, y, x);
      }
    }
  }

  lemma FullBoxes(fsb: seq<bv8>, rsb: seq<bv8>, log: seq<nat>)
    requires |fsb| == 256 && |rsb| == 256 && IsLog(log) && BoxesTo(fsb, rsb, log, 256)
    ensures Fips197.IsSbox(Lookup(fsb)) && Inverse(Boxes(Lookup(fsb), Lookup(rsb)))
  {
    hide Index, Substituted, Inv, IsLog, Fips197.InverseOf, Fips197.Affine;
    forall x: bv8
      ensures Fips197.SubstituteOf(x, Lookup(fsb)(x)) && Lookup(rsb)(Lookup(fsb)(x)) == x
    {
      InvIsInverse(log, x);
      SubstitutedIsAffine(Inv(log, x));
      assert Lookup(fsb)(x) == Substituted(Inv(log, x));
    }
  }

  /** The S-box loop. */
  method GenBoxes(fsb: array<bv8>, rsb: array<bv8>, pow: seq<bv8>, log: seq<nat>)
    requires fsb.Length == 256 && rsb.Length == 256 && fsb != rsb && IsPow(pow) && IsLog(log)
    modifies fsb, rsb
    ensures Fips197.IsSbox(Lookup(fsb[..])) && Inverse(Boxes(Lookup(fsb[..]), Lookup(rsb[..])))
  {
    hide Index, ByteAt, Substituted, IsLog, IsPow, BoxesTo;
    ghost var f0, r0 := fsb[..], rsb[..];
    BoxesStart(f0, r0, log);
    IndexInjective(0, 0);
    SubstitutedZero();
    fsb[0] := 0x63;
    rsb[Index(0x63)] := 0;
    BoxStored(f0, r0, log, 0);
    assert fsb[..] == f0[0 := 0x63] && rsb[..] == r0[Index(0x63) := 0];
    for i := 1 to 256
      invariant BoxesTo(fsb[..], rsb[..], log, i)
    {
      f0, r0 := fsb[..], rsb[..];
      IndexOfByte(i);
      LogEntry(pow, log, i);
      var x := pow[255 - log[i]];
      x := Substituted(x);
      fsb[i] := x;
      rsb[Index(x)] := ByteAt(i);
      BoxStored(f0, r0, log, ByteAt(i));
      assert fsb[..] == f0[i := x] && rsb[..] == r0[Index(x) := ByteAt(i)];
    }
    FullBoxes(fsb[..], rsb[..], log);
  }

  lemma BoxesStart(fsb: seq<bv8>, rsb: seq<bv8>, log: seq<nat>)
    requires |fsb| == 256 && |rsb| == 256 && IsLog(log)
    ensures BoxesTo(fsb, rsb, log, 0) && Inv(log, 0) == 0
  {
    hide Index;
  }

  lemma LogEntry(pow: seq<bv8>, log: seq<nat>, i: nat)
    requires IsPow(pow) && IsLog(log) && 1 <= i < 256
    ensures |pow| == 256 && |log| == 256 && 1 <= log[i] <= 255 && pow[255 - log[i]] == Inv(log, ByteAt(i))
  {
    hide Index, ByteAt, Power;
    IndexOfByte(i);
    IndexInjective(ByteAt(i), 0);
  }

  lemma OneInverse(x: bv8, y: bv8, z: bv8)
    requires Fips197.InverseOf(x, y) && Fips197.InverseOf(x, z)
    ensures y == z
  {
    hide Power, Fips197.Product;
    WithZero(x);
    if x != 0 {
      var k := EveryByte(x);
      var m := EveryByte(y);
      var n := EveryByte(z);
      InverseIs(k, m);
      InverseIs(k, n);
    }
  }

  lemma InverseIs(k: nat, m: nat)
    requires k <= 255 && Fips197.Product(Power(k), Power(m)) == 1
    ensures Power(m) == Power(255 - k)
  {
    hide Power, Fips197.Product;
    Powers();
    Period(255, m);
    PowerSum(k, m);
    Period(k + m, 255 - k);
  }

  lemma OneImage(y: bv8, s: bv8, t: bv8)
    requires Fips197.Affine(y, s) && Fips197.Affine(y, t)
    ensures s == t
  {
  }

  /** There is only one S-box. */
  lemma SboxIsUnique(f: bv8 -> bv8, g: bv8 -> bv8, x: bv8)
    requires Fips197.IsSbox(f) && Fips197.IsSbox(g)
    ensures f(x) == g(x)
  {
    hide Fips197.InverseOf, Fips197.Affine;
    assert Fips197.SubstituteOf(x, f(x)) && Fips197.SubstituteOf(x, g(x));
    var y :| Fips197.InverseOf(x, y) && Fips197.Affine(y, f(x));
    var z :| Fips197.InverseOf(x, z) && Fips197.Affine(z, g(x));
    OneInverse(x, y, z);
    OneImage(y, f(x), g(x));
  }

  // ----- the big tables -----

  datatype Kind = F0 | F1 | F2 | F3 | R0 | R1 | R2 | R3

  /** The entry of a big table for the byte x. */
  ghost function Entry(kind: Kind, bx: Boxes, x: bv8): bv32 {
    match kind
    case F0 => FT0(bx, x)
    case F1 => FT1(bx, x)
    case F2 => FT2(bx, x)
    case F3 => FT3(bx, x)
    case R0 => RT0(bx, x)
    case R1 => RT1(bx, x)
    case R2 => RT2(bx, x)
    case R3 => RT3(bx, x)
  }

  /** The first i entries of a table are right. */
  ghost predicate Entries(t: array<bv32>, kind: Kind, bx: Boxes, i: nat)
    reads t
  {
    t.Length == 256 && forall x: bv8 | Index(x) < i :: t[Index(x)] == Entry(kind, bx, x)
  }

  method SetEntry(t: array<bv32>, i: nat, v: bv32, ghost kind: Kind, ghost bx: Boxes)
    requires i < 256 && Entries(t, kind, bx, i) && v == Entry(kind, bx, ByteAt(i))
    modifies t
    ensures Entries(t, kind, bx, i + 1)
  {
    hide Index, ByteAt, Entry;
    IndexOfByte(i);
    forall x: bv8
      ensures Index(x) == i ==> x == ByteAt(i)
    {
      IndexInjective(x, ByteAt(i));
    }
    t[i] := v;
  }

  lemma ForwardEntry(bx: Boxes, i: bv8, x: bv8, y: bv8, z: bv8)
    requires x == bx.fsb(i) && y == Xtime(x) && z == Xor(y, x)
    ensures Sum32(y as bv32, x as bv32 << 8, x as bv32 << 16, z as bv32 << 24) == FT0(bx, i)
  {
    hide Xor, Xtime, Pack, Sum32;
    PackIsSum(y, x, x, z);
  }

  lemma ReverseEntry(bx: Boxes, i: bv8, x: bv8, e: bv8, n: bv8, d: bv8, b: bv8)
    requires x == bx.rsb(i) && e == Fips197.Product(14, x) && n == Fips197.Product(9, x)
    requires d == Fips197.Product(13, x) && b == Fips197.Product(11, x)
    ensures Sum32(e as bv32, n as bv32 << 8, d as bv32 << 16, b as bv32 << 24) == RT0(bx, i)
  {
    hide MulE, Mul9, MulD, MulB, Pack, Sum32, Fips197.Product;
    TimesFourteen(x);
    TimesNine(x);
    TimesThirteen(x);
    TimesEleven(x);
    PackIsSum(e, n, d, b);
  }

  class Tables {
    const fsb: array<bv8>
    const rsb: array<bv8>
    const rcon: array<bv32>
    const ft0: array<bv32>
    const ft1: array<bv32>
    const ft2: array<bv32>
    const ft3: array<bv32>
    const rt0: array<bv32>
    const rt1: array<bv32>
    const rt2: array<bv32>
    const rt3: array<bv32>

    /** The static arrays of the file. */
    constructor ()
      ensures Placed()
    {
      fsb, rsb, rcon := new bv8[256](_ => 0), new bv8[256](_ => 0), new bv32[10](_ => 0);
      ft0, ft1, ft2, ft3 := new bv32[256](_ => 0), new bv32[256](_ => 0), new bv32[256](_ => 0), new bv32[256](_ => 0);
      rt0, rt1, rt2, rt3 := new bv32[256](_ => 0), new bv32[256](_ => 0), new bv32[256](_ => 0), new bv32[256](_ => 0);
    }

    /** The arrays are different and have their sizes. */
    ghost predicate Placed() {
      && fsb.Length == 256 && rsb.Length == 256 && rcon.Length == 10 && fsb != rsb
      && ft0.Length == 256 && ft1.Length == 256 && ft2.Length == 256 && ft3.Length == 256
      && rt0.Length == 256 && rt1.Length == 256 && rt2.Length == 256 && rt3.Length == 256
      && ft0 != ft1 && ft0 != ft2 && ft0 != ft3 && ft0 != rt0 && ft0 != rt1 && ft0 != rt2 && ft0 != rt3
      && ft1 != ft2 && ft1 != ft3 && ft1 != rt0 && ft1 != rt1 && ft1 != rt2 && ft1 != rt3
      && ft2 != ft3 && ft2 != rt0 && ft2 != rt1 && ft2 != rt2 && ft2 != rt3
      && ft3 != rt0 && ft3 != rt1 && ft3 != rt2 && ft3 != rt3
      && rt0 != rt1 && rt0 != rt2 && rt0 != rt3 && rt1 != rt2 && rt1 != rt3 && rt2 != rt3
      && rcon != ft0 && rcon != ft1 && rcon != ft2 && rcon != ft3 && rcon != rt0 && rcon != rt1 && rcon != rt2 && rcon != rt3
    }

    /** The S-boxes as functions. */
    ghost function Sboxes(): Boxes
      requires Placed()
      reads fsb, rsb
    {
      Boxes(Lookup(fsb[..]), Lookup(rsb[..]))
    }

    ghost predicate BigTables(bx: Boxes, i: nat)
      reads ft0, ft1, ft2, ft3, rt0, rt1, rt2, rt3
    {
      && Entries(ft0, F0, bx, i) && Entries(ft1, F1, bx, i) && Entries(ft2, F2, bx, i) && Entries(ft3, F3, bx, i)
      && Entries(rt0, R0, bx, i) && Entries(rt1, R1, bx, i) && Entries(rt2, R2, bx, i) && Entries(rt3, R3, bx, i)
    }

    ghost predicate RoundConstants()
      requires Placed()
      reads rcon
    {
      forall i | 0 <= i < 10 :: rcon[i] == Fips197.ROUND_CONSTANTS[i] as bv32
    }

    /** The loop for the round constants. */
    method GenConstants()
      requires Placed()
      modifies rcon
      ensures RoundConstants()
    {
      hide Xtime;
      var x: bv8 := 1;
      for i := 0 to 10
        invariant x == AesKeys.Rcon(i) && forall k | 0 <= k < i :: rcon[k] == Fips197.ROUND_CONSTANTS[k] as bv32
      {
        AesKeys.RoundConstants(i);
        rcon[i] := x as bv32;
        x := Xtime(x);
      }
    }

    /** One pass of the last loop, the forward tables. */
    method ForwardPass(i: nat, ghost bx: Boxes)
      requires Placed() && i < 256 && bx == Sboxes()
      requires Entries(ft0, F0, bx, i) && Entries(ft1, F1, bx, i) && Entries(ft2, F2, bx, i) && Entries(ft3, F3, bx, i)
      modifies ft0, ft1, ft2, ft3
      ensures Entries(ft0, F0, bx, i + 1) && Entries(ft1, F1, bx, i + 1) && Entries(ft2, F2, bx, i + 1) && Entries(ft3, F3, bx, i + 1)
    {
      hide Xor, Xtime, Sum32, FT0, Entries, Index, ByteAt, Rotl8;
      IndexOfByte(i);
      var x := fsb[i];
      var y := Xtime(x);
      var z := Xor(y, x);
      ForwardEntry(bx, ByteAt(i), x, y, z);
      var v := Sum32(y as bv32, x as bv32 << 8, x as bv32 << 16, z as bv32 << 24);
      SetEntry(ft0, i, v, F0, bx);
      SetEntry(ft1, i, Rotl8(v), F1, bx);
      SetEntry(ft2, i, Rotl8(Rotl8(v)), F2, bx);
      SetEntry(ft3, i, Rotl8(Rotl8(Rotl8(v))), F3, bx);
    }

    /** One pass of the last loop, the reverse tables. */
    method ReversePass(i: nat, pow: seq<bv8>, log: seq<nat>, ghost bx: Boxes)
      requires Placed() && i < 256 && bx == Sboxes() && IsPow(pow) && IsLog(log)
      requires Entries(rt0, R0, bx, i) && Entries(rt1, R1, bx, i) && Entries(rt2, R2, bx, i) && Entries(rt3, R3, bx, i)
      modifies rt0, rt1, rt2, rt3
      ensures Entries(rt0, R0, bx, i + 1) && Entries(rt1, R1, bx, i + 1) && Entries(rt2, R2, bx, i + 1) && Entries(rt3, R3, bx, i + 1)
    {
      hide Sum32, RT0, Entries, Index, ByteAt, Rotl8, IsPow, IsLog, Mul, Fips197.Product;
      IndexOfByte(i);
      var x := rsb[i];
      var e, n, d, b := Mul(pow, log, 0x0E, x), Mul(pow, log, 0x09, x), Mul(pow, log, 0x0D, x), Mul(pow, log, 0x0B, x);
      ReverseEntry(bx, ByteAt(i), x, e, n, d, b);
      var v := Sum32(e as bv32, n as bv32 << 8, d as bv32 << 16, b as bv32 << 24);
      SetEntry(rt0, i, v, R0, bx);
      SetEntry(rt1, i, Rotl8(v), R1, bx);
      SetEntry(rt2, i, Rotl8(Rotl8(v)), R2, bx);
      SetEntry(rt3, i, Rotl8(Rotl8(Rotl8(v))), R3, bx);
    }

    lemma NoEntries(bx: Boxes)
      requires Placed()
      ensures BigTables(bx, 0)
    {
    }

    /**
     * aes_gen_tables: the boxes are the S-box of FIPS 197 and its inverse, the round constants the powers of x, and the big
     * tables follow from the boxes.
     */
    method Generate()
      requires Placed()
      modifies fsb, rsb, rcon, ft0, ft1, ft2, ft3, rt0, rt1, rt2, rt3
      ensures Fips197.IsSbox(Sboxes().fsb) && Inverse(Sboxes())
      ensures RoundConstants() && BigTables(Sboxes(), 256)
    {
      hide Entries, IsPow, IsLog, Inverse, Fips197.IsSbox, Lookup;
      var pow, log := PowLog();
      GenConstants();
      GenBoxes(fsb, rsb, pow[..], log[..]);
      ghost var bx := Sboxes();
      NoEntries(bx);
      for i := 0 to 256
        invariant Sboxes() == bx && RoundConstants() && BigTables(bx, i)
        invariant IsPow(pow[..]) && IsLog(log[..])
      {
        ForwardPass(i, bx);
        ReversePass(i, pow[..], log[..], bx);
      }
    }
  }
}
