/** mrarth0.c: addition and subtraction, in place and under every aliasing of the operands. */
module AddSub {
  import opened Words
  import opened Bigs

  /** One column of an addition. */
  lemma AddColumn(v: int, x: int, y: int, xi: int, yi: int, carry: int, p: int, zi: int, c: int)
    requires v + carry * p == x + y
    requires xi + yi + carry == zi + c * B
    ensures (v + zi * p) + c * (B * p) == (x + xi * p) + (y + yi * p)
  {
    assert (xi + yi + carry) * p == (zi + c * B) * p;
  }

  /**
   * The carry rule of the column loops: a column total that comes out equal to the word of `x`
   * leaves the carry as it was.
   */
  function NextCarry(psum: Word, xi: Word, carry: int): (c: int)
  {
    if psum > xi then 0 else if psum < xi then 1 else carry
  }

  lemma CarryRule(xi: Word, yi: Word, carry: int)
    requires 0 <= carry <= 1
    ensures var psum := (xi + yi + carry) % B; xi + yi + carry == psum + NextCarry(psum, xi, carry) * B
  {
  }

  function NextBorrow(pdiff: Word, xi: Word, borrow: int): (c: int)
  {
    if pdiff < xi then 0 else if pdiff > xi then 1 else borrow
  }

  lemma BorrowRule(xi: Word, yi: Word, borrow: int)
    requires 0 <= borrow <= 1
    ensures var pdiff := (xi - yi - borrow) % B; xi - yi - borrow == pdiff - NextBorrow(pdiff, xi, borrow) * B
  {
  }

  function Max(a: int, b: int): (m: int)
    ensures m >= a && m >= b && (m == a || m == b)
  {
    if a < b then b else a
  }

  /** The buffers are long enough for the columns the routines read and write. */
  ghost predicate Room(mip: Mip, x: Big, y: Big, z: Big)
    reads mip, x, y
  {
    var n := Max(x.len, y.len);
    && n <= x.w.Length && n <= y.w.Length && n <= z.w.Length
    && (n < mip.nib || !mip.check ==> n < z.w.Length)
  }

  ghost predicate Operands(mip: Mip, x: Big, y: Big, z: Big)
    reads mip, x, x.w, y, y.w, z, z.w
  {
    && mip.Valid() && x.Valid() && y.Valid() && z.Valid()
    && Apart(x, y) && Apart(x, z) && Apart(y, z)
  }

  /** mr_padd: z = |x| + |y| for operands held positive, which may have leading zero words. */
  method Padd(mip: Mip, x: Big, y: Big, z: Big)
    requires mip.Valid() && x.Clean(x.len) && y.Clean(y.len) && z.Clean(z.len)
    requires Apart(x, y) && Apart(x, z) && Apart(y, z) && Room(mip, x, y, z)
    requires !x.neg && !y.neg
    modifies mip`ernum, z, z.w
    ensures mip.ernum == if old(mip.check && Max(x.len, y.len) >= mip.nib
                                && x.Abs() + y.Abs() >= Pow(Max(x.len, y.len))) then Overflow else NoError
    ensures mip.ernum == NoError ==> z.Clean(z.len) && !z.neg && z.Abs() == old(x.Abs() + y.Abs())
    ensures mip.ernum == NoError && old(x.Valid() && y.Valid()) ==> z.Valid()
    ensures z.len <= old(Max(x.len, y.len)) + 1
  {
    hide Val, Pow;
    ghost var n := Max(x.len, y.len);
    ghost var X, Y := x.w[..n], y.w[..n];
    assert Val(X) == x.Abs() by { ZeroTail(X, x.len); assert X[..x.len] == x.w[..x.len]; }
    assert Val(Y) == y.Abs() by { ZeroTail(Y, y.len); assert Y[..y.len] == y.w[..y.len]; }
    ghost var tight := x.Valid() && y.Valid();
    var lx, ly := x.len, y.len;
    var lz, la;
    ghost var long, short := if ly > lx then Y else X, if ly > lx then X else Y;
    if tight && n > 0 { Leading(long); }
    if ly > lx {
      lz, la := ly, lx;
      if x != z { Copy(y, z); } else { la := ly; }
    } else {
      lz, la := lx, ly;
      if y != z { Copy(x, z); } else { la := lx; }
    }
    var i, carry := AddColumns(x, y, z, la, lz, X, Y, long, short);
    FinishSum(mip, z, lz, i, carry, Val(X) + Val(Y), tight);
  }

  /** The end of mr_padd: store the last carry, or report that there is no room for it, and set the length. */
  method FinishSum(mip: Mip, z: Big, lz: nat, i: nat, carry: int, ghost total: int, ghost tight: bool)
    requires mip.Valid() && z.Clean(lz) && 0 <= carry <= 1 && (carry > 0 ==> i == lz)
    requires lz < mip.nib || !mip.check ==> lz < z.w.Length
    requires Val(z.w[..lz]) + carry * Pow(lz) == total && (tight && lz > 0 ==> total >= Pow(lz - 1))
    modifies mip`ernum, z, z.w
    ensures mip.ernum == if mip.check && lz >= mip.nib && total >= Pow(lz) then Overflow else NoError
    ensures mip.ernum == NoError ==> z.Clean(z.len) && !z.neg && z.Abs() == total && (tight ==> z.Valid())
    ensures z.len <= lz + 1
  {
    hide Val, Pow;
    z.len, z.neg := lz, false;
    if lz < mip.nib || !mip.check { z.len := z.len + 1; }
    if carry > 0 {
      if mip.check && i >= mip.nib {
        mip.ernum := Overflow;
        return;
      }
      z.w[i] := carry;
    }
    if lz > 0 { Leading(z.w[..lz]); }
    if z.len > lz {
      assert z.w[..z.len] == z.w[..lz] + [z.w[lz]];
      Snoc(z.w[..lz], z.w[lz]);
    } else if lz > 0 {
      assert z.w[..lz] == z.w[..lz - 1] + [z.w[lz - 1]];
      Snoc(z.w[..lz - 1], z.w[lz - 1]);
    }
    if z.w[z.len - 1] == 0 { z.len := z.len - 1; }
  }

  /** The two column loops of mr_padd: up to the shorter operand, then while a carry is left. */
  method AddColumns(x: Big, y: Big, z: Big, la: nat, lz: nat,
                    ghost X: seq<Word>, ghost Y: seq<Word>, ghost long: seq<Word>, ghost short: seq<Word>)
    returns (i: nat, carry: int)
    requires la <= lz == |X| == |Y| && z.Clean(lz)
    requires lz <= x.w.Length && lz <= y.w.Length && x.w[..lz] == X && y.w[..lz] == Y
    requires (long == X && short == Y) || (long == Y && short == X)
    requires forall k | la <= k < lz :: z.w[k] == long[k] && short[k] == 0
    modifies z.w
    ensures z.Clean(lz) && 0 <= carry <= 1 && (carry > 0 ==> i == lz)
    ensures Val(z.w[..lz]) + carry * Pow(lz) == Val(X) + Val(Y)
  {
    hide Val, Pow;
    i, carry := 0, 0;
    Empty();
    assert z.w[..0] == X[..0] == Y[..0] == [];
    while i < la
      invariant 0 <= i <= la && 0 <= carry <= 1 && z.Clean(lz)
      invariant forall k | i <= k < lz :: x.w[k] == X[k] && y.w[k] == Y[k]
      invariant forall k | la <= k < lz :: z.w[k] == long[k]
      invariant Val(z.w[..i]) + carry * Pow(i) == Val(X[..i]) + Val(Y[..i])
    {
      carry := AddWord(x, y, z, i, carry, X, Y);
      i := i + 1;
    }
    while i < lz && carry > 0
      invariant la <= i <= lz && 0 <= carry <= 1 && z.Clean(lz)
      invariant forall k | i <= k < lz :: x.w[k] == X[k] && y.w[k] == Y[k] && z.w[k] == long[k]
      invariant Val(z.w[..i]) + carry * Pow(i) == Val(X[..i]) + Val(Y[..i])
    {
      carry := AddWord(x, y, z, i, carry, X, Y);
      i := i + 1;
    }
    assert z.w[..lz][i..] == long[i..];
    SameTail(long, z.w[..lz], i);
    ZeroTail(short, i);
    assert z.w[..lz][..i] == z.w[..i];
    assert carry > 0 ==> X[..i] == X && Y[..i] == Y;
  }

  method AddWord(x: Big, y: Big, z: Big, i: nat, carry: int, ghost X: seq<Word>, ghost Y: seq<Word>) returns (c: int)
    requires i < |X| == |Y| && i < x.w.Length && i < y.w.Length && i < z.w.Length
    requires x.w[i] == X[i] && y.w[i] == Y[i] && 0 <= carry <= 1
    requires Val(z.w[..i]) + carry * Pow(i) == Val(X[..i]) + Val(Y[..i])
    modifies z.w
    ensures 0 <= c <= 1
    ensures forall k | 0 <= k < z.w.Length && k != i :: z.w[k] == old(z.w[k])
    ensures Val(z.w[..i + 1]) + c * Pow(i + 1) == Val(X[..i + 1]) + Val(Y[..i + 1])
  {
    var psum := (x.w[i] + y.w[i] + carry) % B;
    CarryRule(X[i], Y[i], carry);
    c := NextCarry(psum, x.w[i], carry);
    ghost var low := z.w[..i];
    z.w[i] := psum;
    assert z.w[..i + 1] == low + [psum];
    Snoc(low, psum);
    Prefix(X, i);
    Prefix(Y, i);
    AddColumn(Val(low), Val(X[..i]), Val(Y[..i]), X[i], Y[i], carry, Pow(i), psum, c);
  }

  lemma SubColumn(v: int, x: int, y: int, xi: int, yi: int, borrow: int, p: int, zi: int, c: int)
    requires v - borrow * p == x - y
    requires xi - yi - borrow == zi - c * B
    ensures (v + zi * p) - c * (B * p) == (x + xi * p) - (y + yi * p)
  {
    assert (xi - yi - borrow) * p == (zi - c * B) * p;
  }

  method SubWord(x: Big, y: Big, z: Big, i: nat, borrow: int, ghost X: seq<Word>, ghost Y: seq<Word>) returns (c: int)
    requires i < |X| == |Y| && i < x.w.Length && i < y.w.Length && i < z.w.Length
    requires x.w[i] == X[i] && y.w[i] == Y[i] && 0 <= borrow <= 1
    requires Val(z.w[..i]) - borrow * Pow(i) == Val(X[..i]) - Val(Y[..i])
    modifies z.w
    ensures 0 <= c <= 1
    ensures forall k | 0 <= k < z.w.Length && k != i :: z.w[k] == old(z.w[k])
    ensures Val(z.w[..i + 1]) - c * Pow(i + 1) == Val(X[..i + 1]) - Val(Y[..i + 1])
  {
    var pdiff := (x.w[i] - y.w[i] - borrow) % B;
    BorrowRule(X[i], Y[i], borrow);
    c := NextBorrow(pdiff, x.w[i], borrow);
    ghost var low := z.w[..i];
    z.w[i] := pdiff;
    assert z.w[..i + 1] == low + [pdiff];
    Snoc(low, pdiff);
    Prefix(X, i);
    Prefix(Y, i);
    SubColumn(Val(low), Val(X[..i]), Val(Y[..i]), X[i], Y[i], borrow, Pow(i), pdiff, c);
  }

  /** The column loop of mr_psub; `ok` is false when a borrow is still owed past the last word of `x`. */
  method SubColumns(x: Big, y: Big, z: Big, ly: nat, lx: nat, ghost X: seq<Word>, ghost Y: seq<Word>) returns (ok: bool)
    requires ly <= lx == |X| == |Y| && z.Clean(lx)
    requires lx <= x.w.Length && lx <= y.w.Length && x.w[..lx] == X && y.w[..lx] == Y
    requires x.Clean(lx) && y.Clean(lx) && Apart(x, y) && Apart(x, z) && Apart(y, z)
    requires Val(X) < Val(Y) ==> lx < x.w.Length && lx < y.w.Length && lx < z.w.Length
    requires forall k | ly <= k < lx :: z.w[k] == X[k] && Y[k] == 0
    modifies z.w
    ensures ok == (Val(X) >= Val(Y))
    ensures ok ==> z.Clean(lx) && Val(z.w[..lx]) == Val(X) - Val(Y)
  {
    hide Val, Pow;
    var i, borrow := 0, 0;
    Empty();
    assert z.w[..0] == X[..0] == Y[..0] == [];
    while i < ly || borrow > 0
      invariant 0 <= i <= lx + 1 && 0 <= borrow <= 1
      invariant i <= lx ==> z.Clean(lx) && Val(z.w[..i]) - borrow * Pow(i) == Val(X[..i]) - Val(Y[..i])
      invariant forall k | i <= k < x.w.Length :: x.w[k] == if k < lx then X[k] else 0
      invariant forall k | i <= k < y.w.Length :: y.w[k] == if k < lx then Y[k] else 0
      invariant forall k | ly <= k < lx && i <= k :: z.w[k] == X[k]
      invariant i > lx ==> borrow == 1 && Val(X) < Val(Y)
      decreases lx + 1 - i
    {
      if i > lx { return false; }
      if i < lx {
        borrow := SubWord(x, y, z, i, borrow, X, Y);
      } else {
        assert X[..lx] == X && Y[..lx] == Y;
        var pdiff := (x.w[i] - y.w[i] - borrow) % B;
        borrow := NextBorrow(pdiff, x.w[i], borrow);
        z.w[i] := pdiff;
      }
      i := i + 1;
    }
    assert z.w[..lx][i..] == X[i..];
    SameTail(X, z.w[..lx], i);
    ZeroTail(Y, i);
    assert z.w[..lx][..i] == z.w[..i];
    return true;
  }

  /** mr_psub: z = |x| - |y| for operands held positive, an error when |x| < |y|. */
  method Psub(mip: Mip, x: Big, y: Big, z: Big)
    requires Operands(mip, x, y, z)
    requires !x.neg && !y.neg
    requires Max(x.len, y.len) <= x.w.Length && Max(x.len, y.len) <= y.w.Length && Max(x.len, y.len) <= z.w.Length
    requires x.Abs() < y.Abs() && x.len == y.len ==> x.len < x.w.Length && x.len < y.w.Length && x.len < z.w.Length
    modifies mip`ernum, z, z.w
    ensures mip.ernum == if old(x.Abs() < y.Abs()) then NegResult else NoError
    ensures mip.ernum == NoError ==> z.Valid() && !z.neg && z.Abs() == old(x.Abs() - y.Abs())
    ensures z.len <= old(Max(x.len, z.len))
  {
    hide Val, Pow;
    var lx, ly := x.len, y.len;
    if ly > lx {
      Longer(y.w[..ly], x.w[..lx]);
      mip.ernum := NegResult;
      return;
    }
    ghost var X, Y := x.w[..lx], y.w[..lx];
    assert Val(Y) == y.Abs() by { ZeroTail(Y, y.len); assert Y[..y.len] == y.w[..y.len]; }
    if Val(X) < Val(Y) && ly < lx { Longer(X, y.w[..ly]); }
    if y != z { Copy(x, z); } else { ly := lx; }
    var ok := SubColumns(x, y, z, ly, lx, X, Y);
    z.len, z.neg := lx, false;
    if !ok {
      mip.ernum := NegResult;
      return;
    }
    z.Lzero();
  }

  datatype Op = Plus | Minus

  function Signed(neg: bool, v: int): int { if neg then -v else v }

  /** The switch of mr_select over the operands' signs, `ny` being the sign of the term added to `x`. */
  method Combine(mip: Mip, x: Big, y: Big, z: Big, sx: bool, ny: bool) returns (sz: bool)
    requires Operands(mip, x, y, z) && Room(mip, x, y, z)
    requires !x.neg && !y.neg && (sx ==> x.len > 0)
    modifies mip`ernum, z, z.w
    ensures mip.ernum == if old(mip.check && Max(x.len, y.len) >= mip.nib && sx == ny
                                && x.Abs() + y.Abs() >= Pow(Max(x.len, y.len))) then Overflow else NoError
    ensures mip.ernum == NoError ==> z.Valid() && !z.neg && (sz ==> z.len > 0)
    ensures mip.ernum == NoError ==> Signed(sz, z.Abs()) == old(Signed(sx, x.Abs()) + Signed(ny, y.Abs()))
  {
    hide Val, Pow;
    NonZero(x);
    NonZero(y);
    var xgty := Compare(x, y);
    sz := false;
    if sx && ny {
      if xgty >= 0 { Padd(mip, x, y, z); } else { Padd(mip, y, x, z); }
      sz := true;
    } else if sx {
      if xgty <= 0 { Psub(mip, y, x, z); } else { Psub(mip, x, y, z); sz := true; }
    } else if ny {
      if xgty >= 0 { Psub(mip, x, y, z); } else { Psub(mip, y, x, z); sz := true; }
    } else {
      if xgty >= 0 { Padd(mip, x, y, z); } else { Padd(mip, y, x, z); }
    }
    if mip.ernum == NoError { NonZero(z); }
  }

  /**
   * mr_select: the signs of the operands decide between adding and subtracting absolute values.
   * They are held positive meanwhile and get their signs back, unless they are the result.
   */
  method Select(mip: Mip, x: Big, d: Op, y: Big, z: Big)
    requires Operands(mip, x, y, z) && Room(mip, x, y, z)
    modifies mip`ernum, x`neg, y`neg, z, z.w
    ensures mip.ernum == NoError ==> z.Valid()
    ensures mip.ernum == NoError ==>
              z.Value() == old(x.Value()) + (if d == Plus then old(y.Value()) else -old(y.Value()))
    ensures x != z ==> x.neg == old(x.neg)
    ensures y != z ==> y.neg == old(y.neg)
    ensures mip.ernum == if old(mip.check && Max(x.len, y.len) >= mip.nib && (x.neg == (y.neg == (d == Plus)))
                                && x.Abs() + y.Abs() >= Pow(Max(x.len, y.len))) then Overflow else NoError
  {
    hide Val, Pow;
    var sx, sy := x.neg, y.neg;
    ghost var ax, ay := x.Abs(), y.Abs();
    x.neg, y.neg := false, false;
    assert x.Abs() == ax && y.Abs() == ay;
    var ny := if d == Plus then sy else !sy;
    var sz := Combine(mip, x, y, z, sx, ny);
    RestoreSigns(x, y, z, sx, sy, sz);
  }

  /** The result gets its sign, and the operands that are not the result get theirs back. */
  method RestoreSigns(x: Big, y: Big, z: Big, sx: bool, sy: bool, sz: bool)
    requires (x != z ==> !x.neg) && (y != z ==> !y.neg) && (x == y ==> sx == sy)
    modifies x`neg, y`neg, z`neg
    ensures z.neg == (if sz then !old(z.neg) else old(z.neg)) && (x != z ==> x.neg == sx) && (y != z ==> y.neg == sy)
  {
    if sz { z.neg := !z.neg; }
    if x != z && sx { x.neg := !x.neg; }
    if y != z && y != x && sy { y.neg := !y.neg; }
  }

  /** add: z = x + y. */
  method Add(mip: Mip, x: Big, y: Big, z: Big)
    requires Operands(mip, x, y, z) && Room(mip, x, y, z)
    modifies mip`ernum, x`neg, y`neg, z, z.w
    ensures mip.ernum == NoError ==> z.Valid() && z.Value() == old(x.Value() + y.Value())
    ensures (x != z ==> x.neg == old(x.neg)) && (y != z ==> y.neg == old(y.neg))
    ensures mip.ernum == Overflow ==>
              old(mip.check && Max(x.len, y.len) >= mip.nib && x.neg == y.neg
                  && x.Abs() + y.Abs() >= Pow(Max(x.len, y.len)))
    ensures mip.ernum in {NoError, Overflow}
  {
    Select(mip, x, Plus, y, z);
  }

  /** subtract: z = x - y. */
  method Subtract(mip: Mip, x: Big, y: Big, z: Big)
    requires Operands(mip, x, y, z) && Room(mip, x, y, z)
    modifies mip`ernum, x`neg, y`neg, z, z.w
    ensures mip.ernum == NoError ==> z.Valid() && z.Value() == old(x.Value() - y.Value())
    ensures (x != z ==> x.neg == old(x.neg)) && (y != z ==> y.neg == old(y.neg))
    ensures mip.ernum == Overflow ==>
              old(mip.check && Max(x.len, y.len) >= mip.nib && x.neg != y.neg
                  && x.Abs() + y.Abs() >= Pow(Max(x.len, y.len)))
    ensures mip.ernum in {NoError, Overflow}
  {
    Select(mip, x, Minus, y, z);
  }
}
