/** mrmonty.c: conversion to n-residues, multiplication and conversion back, on big numbers of a prepared context. */
module ResidueLaws {
  import opened Words
  import opened Bigs
  import opened MontgomeryReduction
  import opened Montgomery
  import opened Residues
  import opened Field
  import opened Modular

  /** Room for a number that nres is given and for the residue it makes of it. */
  ghost predicate Convertible(mip: Mip, mo: Monty, x: Big, y: Big)
    reads x, x.w, y, y.w, mo.modulus, mip.w0
  {
    && x.Valid() && y.Valid() && Slot(mip, mo, x) && Slot(mip, mo, y) && Apart(x, y)
    && x.len <= y.w.Length && x.len < mip.w0.w.Length
  }

  /** nres in a prepared context: y holds the residue of x. */
  method Convert(mip: Mip, mo: Monty, x: Big, y: Big)
    requires Prepared(mip, mo) && mip.check && Convertible(mip, mo, x, y)
    modifies mip, y, y.w, mo.modulus, mo.modulus.w, mip.w0, mip.w0.w
    ensures mip.ernum == if old(x.len - mo.modulus.len + 1 > mip.nib) then Overflow else NoError
    ensures mip.ernum == NoError ==> Prepared(mip, mo) && mip.check && Holds(mip, mo, y)
    ensures mip.ernum == NoError ==> RingOf(mo) == old(RingOf(mo)) && mo.modulus.len == old(mo.modulus.len)
    ensures mip.ernum == NoError ==> y.Abs() == Residue(RingOf(mo), old(x.Value()))
  {
    hide Val, Pow, Power, Mod;
    ghost var c := RingOf(mo);
    Nres(mip, mo.modulus, mo.ndash, x, y);
    if mip.ernum == NoError { LenBound(y, mo.modulus.len); }
  }

  /** redc of a residue: the number it stands for, in place or not. */
  method ConvertBack(mip: Mip, mo: Monty, y: Big, z: Big)
    requires Prepared(mip, mo) && mip.check && Holds(mip, mo, y) && Slot(mip, mo, z) && z.Valid() && Apart(y, z)
    modifies mip`ernum, z, z.w, mip.w0, mip.w0.w
    ensures Prepared(mip, mo) && mip.check && RingOf(mo) == old(RingOf(mo)) && Holds(mip, mo, z)
    ensures z.Abs() == Plain(RingOf(mo), old(y.Abs()))
  {
    hide Val, Pow, Power, Mod;
    RingIsValid(mip, mo);
    ghost var c, r := RingOf(mo), y.Abs();
    MulMono(1, Pow(mo.modulus.len), mo.modulus.Abs());
    Redc(mip, mo.modulus, mo.ndash, y, z);
    LenBound(z, mo.modulus.len);
    RedcIsPlain(c, r, z.Abs());
  }

  /** redc(nres(x)) is x modulo n, on the numbers themselves. */
  method ThereAndBack(mip: Mip, mo: Monty, x: Big, y: Big)
    requires Prepared(mip, mo) && mip.check && Convertible(mip, mo, x, y)
    modifies mip, y, y.w, mo.modulus, mo.modulus.w, mip.w0, mip.w0.w
    ensures mip.ernum == if old(x.len - mo.modulus.len + 1 > mip.nib) then Overflow else NoError
    ensures mip.ernum == NoError ==> y.Valid() && y.Value() == old(x.Value()) % old(mo.modulus.Abs())
  {
    hide Val, Pow, Power, Mod;
    RingIsValid(mip, mo);
    ghost var c, v := RingOf(mo), x.Value();
    Convert(mip, mo, x, y);
    if mip.ernum != NoError { return; }
    ConvertBack(mip, mo, y, y);
    PlainOfResidue(c, v);
  }

  lemma PlainOfResidue(c: Ring, x: int)
    requires c.Valid()
    ensures Plain(c, Residue(c, x)) == x % c.n
  {
    hide Mod;
    ModTimes(x * c.R, c.u, c.n);
    UnitFactor(c, x);
    assert x * c.R * c.u == x * (c.u * c.R);
    ModIs(x, c.n);
  }

  /** Products of residues stand for products: both factors converted, multiplied and converted back. */
  method MultiplyThroughResidues(mip: Mip, mo: Monty, x: Big, y: Big, rx: Big, ry: Big, w: Big)
    requires Prepared(mip, mo) && mip.check && Convertible(mip, mo, x, rx) && Convertible(mip, mo, y, ry)
    requires Slot(mip, mo, w) && w.Valid() && Apart(rx, ry) && Apart(rx, w) && Apart(ry, w) && rx != ry && rx != y && rx.w != y.w
    requires x.len - mo.modulus.len + 1 <= mip.nib && y.len - mo.modulus.len + 1 <= mip.nib
    modifies mip, rx, rx.w, ry, ry.w, w, w.w, mo.modulus, mo.modulus.w, mip.w0, mip.w0.w
    ensures mip.ernum == NoError && w.Valid() && w.Value() == old(x.Value() * y.Value()) % old(mo.modulus.Abs())
  {
    hide Val, Pow, Power, Mod;
    RingIsValid(mip, mo);
    ghost var c, a, b := RingOf(mo), x.Value(), y.Value();
    Convert(mip, mo, x, rx);
    ghost var ra := rx.Abs();
    Convert(mip, mo, y, ry);
    assert rx.Abs() == ra;
    ModMult(mip, mo, rx, ry, w);
    TimesStands(c, a, b);
    ConvertBack(mip, mo, w, w);
    PlainOfResidue(c, a * b);
  }
}
