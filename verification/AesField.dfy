/** aes.c: its multiplications are those of the field with 256 elements, and 3 generates the group its tables rest on. */
module AesField {
  import opened AesColumns
  import Fips197

  // ----- multiplication is linear in its first factor -----

  lemma SumAssoc(a: bv16, b: bv16, c: bv16)
    ensures Fips197.Sum(Fips197.Sum(a, b), c) == Fips197.Sum(a, Fips197.Sum(b, c))
  {
  }

  lemma SumComm(a: bv16, b: bv16)
    ensures Fips197.Sum(a, b) == Fips197.Sum(b, a)
  {
  }

  lemma SumZero(a: bv16)
    ensures Fips197.Sum(a, a) == 0 && Fips197.Sum(a, 0) == a && Fips197.Sum(0, a) == a
  {
  }

  lemma SumSwap(a: bv16, b: bv16, c: bv16, d: bv16)
    ensures Fips197.Sum(Fips197.Sum(a, b), Fips197.Sum(c, d)) == Fips197.Sum(Fips197.Sum(a, c), Fips197.Sum(b, d))
  {
    hide *;
    SumAssoc(a, b, Fips197.Sum(c, d));
    SumAssoc(b, c, d);
    SumComm(b, c);
    SumAssoc(c, b, d);
    SumAssoc(a, c, Fips197.Sum(b, d));
  }

  predicate On(x: bv8, m: bv8) { x & m != 0 }

  predicate OneBit(m: bv8) {
    m == 0x01 || m == 0x02 || m == 0x04 || m == 0x08 || m == 0x10 || m == 0x20 || m == 0x40 || m == 0x80
  }

  lemma OnXor(x: bv8, y: bv8, m: bv8)
    requires OneBit(m)
    ensures On(Xor(x, y), m) <==> On(x, m) != On(y, m)
  {
  }

  lemma TermIs(x: bv8, m: bv8, p: bv16)
    ensures Fips197.Term(x, m, p) == if On(x, m) then p else 0
  {
  }

  lemma TermSum(x: bv8, y: bv8, m: bv8, p: bv16)
    requires OneBit(m)
    ensures Fips197.Term(Xor(x, y), m, p) == Fips197.Sum(Fips197.Term(x, m, p), Fips197.Term(y, m, p))
  {
    hide Xor, On, OneBit, Fips197.Sum, Fips197.Term;
    TermIs(x, m, p);
    TermIs(y, m, p);
    TermIs(Xor(x, y), m, p);
    OnXor(x, y, m);
    SumZero(p);
    SumZero(0);
  }

  lemma LongSum(x: bv8, y: bv8, z: bv8)
    ensures Fips197.LongProduct(Xor(x, y), z) == Fips197.Sum(Fips197.LongProduct(x, z), Fips197.LongProduct(y, z))
  {
    hide Xor, Fips197.Sum, Fips197.Term;
    var p := z as bv16;
    TermSum(x, y, 0x01, p);
    TermSum(x, y, 0x02, p << 1);
    TermSum(x, y, 0x04, p << 2);
    TermSum(x, y, 0x08, p << 3);
    TermSum(x, y, 0x10, p << 4);
    TermSum(x, y, 0x20, p << 5);
    TermSum(x, y, 0x40, p << 6);
    TermSum(x, y, 0x80, p << 7);
    var a0, a1, a2, a3 := Fips197.Term(x, 0x01, p), Fips197.Term(x, 0x02, p << 1), Fips197.Term(x, 0x04, p << 2), Fips197.Term(x, 0x08, p << 3);
    var a4, a5, a6, a7 := Fips197.Term(x, 0x10, p << 4), Fips197.Term(x, 0x20, p << 5), Fips197.Term(x, 0x40, p << 6), Fips197.Term(x, 0x80, p << 7);
    var b0, b1, b2, b3 := Fips197.Term(y, 0x01, p), Fips197.Term(y, 0x02, p << 1), Fips197.Term(y, 0x04, p << 2), Fips197.Term(y, 0x08, p << 3);
    var b4, b5, b6, b7 := Fips197.Term(y, 0x10, p << 4), Fips197.Term(y, 0x20, p << 5), Fips197.Term(y, 0x40, p << 6), Fips197.Term(y, 0x80, p << 7);
    FourSums(a0, b0, a1, b1, a2, b2, a3, b3);
    FourSums(a4, b4, a5, b5, a6, b6, a7, b7);
    SumSwap(Four(a0, a1, a2, a3), Four(b0, b1, b2, b3), Four(a4, a5, a6, a7), Four(b4, b5, b6, b7));
  }

  ghost function Four(a: bv16, b: bv16, c: bv16, d: bv16): bv16 {
    Fips197.Sum(Fips197.Sum(a, b), Fips197.Sum(c, d))
  }

  lemma FourSums(a0: bv16, b0: bv16, a1: bv16, b1: bv16, a2: bv16, b2: bv16, a3: bv16, b3: bv16)
    ensures Four(Fips197.Sum(a0, b0), Fips197.Sum(a1, b1), Fips197.Sum(a2, b2), Fips197.Sum(a3, b3))
            == Fips197.Sum(Four(a0, a1, a2, a3), Four(b0, b1, b2, b3))
  {
    hide Fips197.Sum;
    SumSwap(a0, b0, a1, b1);
    SumSwap(a2, b2, a3, b3);
    SumSwap(Fips197.Sum(a0, a1), Fips197.Sum(b0, b1), Fips197.Sum(a2, a3), Fips197.Sum(b2, b3));
  }

  predicate Has(p: bv16, top: bv16) { p & top != 0 }

  predicate OnePower(m: bv16) {
    m == 0x100 || m == 0x200 || m == 0x400 || m == 0x800 || m == 0x1000 || m == 0x2000 || m == 0x4000
  }

  lemma HasSum(p: bv16, q: bv16, top: bv16)
    requires OnePower(top)
    ensures Has(Fips197.Sum(p, q), top) <==> Has(p, top) != Has(q, top)
  {
  }

  lemma WithoutIs(p: bv16, top: bv16, m: bv16)
    ensures Fips197.Without(p, top, m) == Fips197.Sum(p, if Has(p, top) then m else 0)
  {
    SumZero(p);
  }

  lemma WithoutSum(p: bv16, q: bv16, top: bv16, m: bv16)
    requires OnePower(top)
    ensures Fips197.Without(Fips197.Sum(p, q), top, m) == Fips197.Sum(Fips197.Without(p, top, m), Fips197.Without(q, top, m))
  {
    hide Has, OnePower, Fips197.Sum, Fips197.Without;
    WithoutIs(p, top, m);
    WithoutIs(q, top, m);
    WithoutIs(Fips197.Sum(p, q), top, m);
    HasSum(p, q, top);
    SumZero(m);
    SumZero(0);
    SumSwap(p, if Has(p, top) then m else 0, q, if Has(q, top) then m else 0);
  }

  lemma LowSum(p: bv16, q: bv16)
    ensures Fips197.LowByte(Fips197.Sum(p, q)) == Xor(Fips197.LowByte(p), Fips197.LowByte(q))
  {
  }

  lemma ResidueSum(p: bv16, q: bv16)
    ensures Fips197.Residue(Fips197.Sum(p, q)) == Xor(Fips197.Residue(p), Fips197.Residue(q))
  {
    hide Xor, Fips197.Sum, Fips197.Without, Fips197.LowByte;
    WithoutSum(p, q, 0x4000, 0x11B << 6);
    var p6, q6 := Fips197.Without(p, 0x4000, 0x11B << 6), Fips197.Without(q, 0x4000, 0x11B << 6);
    WithoutSum(p6, q6, 0x2000, 0x11B << 5);
    var p5, q5 := Fips197.Without(p6, 0x2000, 0x11B << 5), Fips197.Without(q6, 0x2000, 0x11B << 5);
    WithoutSum(p5, q5, 0x1000, 0x11B << 4);
    var p4, q4 := Fips197.Without(p5, 0x1000, 0x11B << 4), Fips197.Without(q5, 0x1000, 0x11B << 4);
    WithoutSum(p4, q4, 0x800, 0x11B << 3);
    var p3, q3 := Fips197.Without(p4, 0x0800, 0x11B << 3), Fips197.Without(q4, 0x0800, 0x11B << 3);
    WithoutSum(p3, q3, 0x400, 0x11B << 2);
    var p2, q2 := Fips197.Without(p3, 0x0400, 0x11B << 2), Fips197.Without(q3, 0x0400, 0x11B << 2);
    WithoutSum(p2, q2, 0x200, 0x11B << 1);
    var p1, q1 := Fips197.Without(p2, 0x0200, 0x11B << 1), Fips197.Without(q2, 0x0200, 0x11B << 1);
    WithoutSum(p1, q1, 0x100, 0x11B);
    var p0, q0 := Fips197.Without(p1, 0x0100, 0x11B), Fips197.Without(q1, 0x0100, 0x11B);
    LowSum(p0, q0);
  }

  lemma ProductSum(x: bv8, y: bv8, z: bv8)
    ensures Fips197.Product(Xor(x, y), z) == Xor(Fips197.Product(x, z), Fips197.Product(y, z))
  {
    hide Xor, Fips197.Sum, Fips197.LongProduct, Fips197.Residue;
    LongSum(x, y, z);
    ResidueSum(Fips197.LongProduct(x, z), Fips197.LongProduct(y, z));
  }

  // ----- the multipliers of the code -----

  lemma PlusIsXor(x: bv8, y: bv8)
    ensures Fips197.Plus(x, y) == Xor(x, y)
  {
  }

  lemma TimesOne(x: bv8)
    ensures Fips197.Product(1, x) == x
  {
  }

  lemma TimesTwo(x: bv8)
    ensures Fips197.Product(2, x) == Mul2(x)
  {
  }

  lemma TimesFour(x: bv8)
    ensures Fips197.Product(4, x) == Xtime(Xtime(x))
  {
  }

  lemma TimesEight(x: bv8)
    ensures Fips197.Product(8, x) == Xtime(Xtime(Xtime(x)))
  {
  }

  lemma SumsOfPowers()
    ensures Xor(2, 1) == 3 && Xor(8, 1) == 9 && Xor(8, 2) == 10 && Xor(10, 1) == 11
    ensures Xor(8, 4) == 12 && Xor(12, 1) == 13 && Xor(12, 2) == 14
  {
  }

  lemma TimesThree(x: bv8)
    ensures Fips197.Product(3, x) == Mul3(x)
  {
    hide Xor, Xtime, Fips197.Product;
    SumsOfPowers();
    TimesOne(x);
    TimesTwo(x);
    ProductSum(2, 1, x);
  }

  lemma TimesNine(x: bv8)
    ensures Fips197.Product(9, x) == Mul9(x)
  {
    hide Xor, Xtime, Fips197.Product;
    SumsOfPowers();
    TimesOne(x);
    TimesEight(x);
    ProductSum(8, 1, x);
  }

  lemma TimesEleven(x: bv8)
    ensures Fips197.Product(11, x) == MulB(x)
  {
    hide Xor, Xtime, Fips197.Product;
    SumsOfPowers();
    TimesOne(x);
    TimesTwo(x);
    TimesEight(x);
    ProductSum(8, 2, x);
    ProductSum(10, 1, x);
  }

  lemma TimesThirteen(x: bv8)
    ensures Fips197.Product(13, x) == MulD(x)
  {
    hide Xor, Xtime, Fips197.Product;
    SumsOfPowers();
    TimesOne(x);
    TimesFour(x);
    TimesEight(x);
    ProductSum(8, 4, x);
    ProductSum(12, 1, x);
  }

  lemma TimesFourteen(x: bv8)
    ensures Fips197.Product(14, x) == MulE(x)
  {
    hide Xor, Xtime, Fips197.Product;
    SumsOfPowers();
    TimesTwo(x);
    TimesFour(x);
    TimesEight(x);
    ProductSum(8, 4, x);
    ProductSum(12, 2, x);
  }

  // ----- the generator -----

  /** The step of the table: x plus x times the polynomial x. */
  function Three(x: bv8): bv8 { Xor(x, Xtime(x)) }

  lemma ThreeXor(x: bv8, y: bv8)
    ensures Three(Xor(x, y)) == Xor(Three(x), Three(y))
  {
    hide Xor, Xtime;
    XtimeXor(x, y);
    Interchange(x, y, Xtime(x), Xtime(y));
  }

  /** Multiplying by three first or last makes no difference. */
  ghost predicate Passes(x: bv8, y: bv8) {
    Fips197.Product(Three(x), y) == Three(Fips197.Product(x, y))
  }

  lemma PassesSum(x: bv8, z: bv8, y: bv8)
    requires Passes(x, y) && Passes(z, y)
    ensures Passes(Xor(x, z), y)
  {
    hide Xor, Three, Fips197.Product;
    ThreeXor(x, z);
    ProductSum(Three(x), Three(z), y);
    ProductSum(x, z, y);
    ThreeXor(Fips197.Product(x, y), Fips197.Product(z, y));
  }

  lemma TimesZero(x: bv8)
    ensures Fips197.Product(0, x) == 0 && Three(0) == 0
  {
  }

  lemma TimesSixteen(x: bv8)
    ensures Fips197.Product(0x10, x) == Xtime(Xtime(Xtime(Xtime(x))))
  {
  }

  lemma TimesThirtyTwo(x: bv8)
    ensures Fips197.Product(0x20, x) == Xtime(Xtime(Xtime(Xtime(Xtime(x)))))
  {
  }

  lemma TimesSixtyFour(x: bv8)
    ensures Fips197.Product(0x40, x) == Xtime(Xtime(Xtime(Xtime(Xtime(Xtime(x))))))
  {
  }

  lemma TimesOneTwentyEight(x: bv8)
    ensures Fips197.Product(0x80, x) == Xtime(Xtime(Xtime(Xtime(Xtime(Xtime(Xtime(x)))))))
  {
  }

  lemma EighthPower(x: bv8)
    ensures Xtime(Xtime(Xtime(Xtime(Xtime(Xtime(Xtime(Xtime(x))))))))
            == Xor(Xor(Xtime(Xtime(Xtime(Xtime(x)))), Xtime(Xtime(Xtime(x)))), Xor(Xtime(x), x))
  {
  }

  /** The powers of x, times y. */
  lemma TimesPowers(y: bv8)
    ensures Fips197.Product(0x01, y) == y && Fips197.Product(0x02, y) == Xtime(y)
    ensures Fips197.Product(0x04, y) == Xtime(Xtime(y)) && Fips197.Product(0x08, y) == Xtime(Xtime(Xtime(y)))
    ensures Fips197.Product(0x10, y) == Xtime(Xtime(Xtime(Xtime(y)))) && Fips197.Product(0x20, y) == Xtime(Xtime(Xtime(Xtime(Xtime(y)))))
    ensures Fips197.Product(0x40, y) == Xtime(Xtime(Xtime(Xtime(Xtime(Xtime(y))))))
    ensures Fips197.Product(0x80, y) == Xtime(Xtime(Xtime(Xtime(Xtime(Xtime(Xtime(y)))))))
  {
    hide Xtime, Fips197.Product;
    TimesOne(y);
    TimesTwo(y);
    TimesFour(y);
    TimesEight(y);
    TimesSixteen(y);
    TimesThirtyTwo(y);
    TimesSixtyFour(y);
    TimesOneTwentyEight(y);
  }

  lemma ThreeTimesPowers()
    ensures Three(0x01) == Xor(0x01, 0x02) && Three(0x02) == Xor(0x02, 0x04) && Three(0x04) == Xor(0x04, 0x08)
    ensures Three(0x08) == Xor(0x08, 0x10) && Three(0x10) == Xor(0x10, 0x20) && Three(0x20) == Xor(0x20, 0x40)
    ensures Three(0x40) == Xor(0x40, 0x80) && Three(0x80) == Xor(0x80, Xor(Xor(0x10, 0x08), Xor(0x02, 0x01)))
  {
  }

  lemma PassesNext(a: bv8, b: bv8, y: bv8)
    requires Three(a) == Xor(a, b) && Fips197.Product(b, y) == Xtime(Fips197.Product(a, y))
    ensures Passes(a, y)
  {
    hide Xor, Xtime, Fips197.Product;
    ProductSum(a, b, y);
  }

  lemma PassesTop(y: bv8)
    ensures Passes(0x80, y)
  {
    hide Xor, Xtime, Three, Fips197.Product;
    TimesPowers(y);
    ThreeTimesPowers();
    ProductSum(0x80, Xor(Xor(0x10, 0x08), Xor(0x02, 0x01)), y);
    ProductSum(Xor(0x10, 0x08), Xor(0x02, 0x01), y);
    ProductSum(0x10, 0x08, y);
    ProductSum(0x02, 0x01, y);
    EighthPower(y);
    ThreeIs(Fips197.Product(0x80, y));
  }

  lemma ThreeIs(x: bv8)
    ensures Three(x) == Xor(x, Xtime(x))
  {
  }

  lemma PassesPowers(y: bv8)
    ensures Passes(0, y) && Passes(0x01, y) && Passes(0x02, y) && Passes(0x04, y) && Passes(0x08, y)
    ensures Passes(0x10, y) && Passes(0x20, y) && Passes(0x40, y) && Passes(0x80, y)
  {
    hide Xor, Xtime, Three, Passes, Fips197.Product;
    PassesZero(y);
    TimesPowers(y);
    ThreeTimesPowers();
    PassesNext(0x01, 0x02, y);
    PassesNext(0x02, 0x04, y);
    PassesNext(0x04, 0x08, y);
    PassesNext(0x08, 0x10, y);
    PassesNext(0x10, 0x20, y);
    PassesNext(0x20, 0x40, y);
    PassesNext(0x40, 0x80, y);
    PassesTop(y);
  }

  lemma PassesZero(y: bv8)
    ensures Passes(0, y)
  {
    hide Three, Fips197.Product;
    TimesZero(y);
  }

  lemma PassesBit(x: bv8, m: bv8, y: bv8)
    requires OneBit(m)
    ensures Passes(if On(x, m) then m else 0, y)
  {
    hide Passes, On;
    PassesPowers(y);
  }

  lemma SumOfBits(x: bv8)
    ensures x == Xor(Xor(Xor(BitOf(x, 0x01), BitOf(x, 0x02)), Xor(BitOf(x, 0x04), BitOf(x, 0x08))),
                     Xor(Xor(BitOf(x, 0x10), BitOf(x, 0x20)), Xor(BitOf(x, 0x40), BitOf(x, 0x80))))
  {
  }

  function BitOf(x: bv8, m: bv8): bv8 { if On(x, m) then m else 0 }

  lemma ThreePasses(x: bv8, y: bv8)
    ensures Fips197.Product(Three(x), y) == Three(Fips197.Product(x, y))
  {
    hide Xor, On, Passes;
    SumOfBits(x);
    var b0, b1, b2, b3 := BitOf(x, 0x01), BitOf(x, 0x02), BitOf(x, 0x04), BitOf(x, 0x08);
    var b4, b5, b6, b7 := BitOf(x, 0x10), BitOf(x, 0x20), BitOf(x, 0x40), BitOf(x, 0x80);
    PassesBit(x, 0x01, y);
    PassesBit(x, 0x02, y);
    PassesBit(x, 0x04, y);
    PassesBit(x, 0x08, y);
    PassesBit(x, 0x10, y);
    PassesBit(x, 0x20, y);
    PassesBit(x, 0x40, y);
    PassesBit(x, 0x80, y);
    PassesSum(b0, b1, y);
    PassesSum(b2, b3, y);
    PassesSum(b4, b5, y);
    PassesSum(b6, b7, y);
    PassesSum(Xor(b0, b1), Xor(b2, b3), y);
    PassesSum(Xor(b4, b5), Xor(b6, b7), y);
    PassesSum(Xor(Xor(b0, b1), Xor(b2, b3)), Xor(Xor(b4, b5), Xor(b6, b7)), y);
    PassesIs(x, y);
  }

  lemma PassesIs(x: bv8, y: bv8)
    ensures Passes(x, y) <==> Fips197.Product(Three(x), y) == Three(Fips197.Product(x, y))
  {
  }

  /** What the table loop has in x after n passes. */
  function Power(n: nat): bv8 {
    if n == 0 then 1 else Three(Power(n - 1))
  }

  /** The powers multiply by adding exponents. */
  lemma {:induction false} PowerSum(m: nat, n: nat)
    ensures Fips197.Product(Power(m), Power(n)) == Power(m + n)
  {
    hide Three, Fips197.Product;
    if m == 0 {
      TimesOne(Power(n));
    } else {
      PowerSum(m - 1, n);
      ThreePasses(Power(m - 1), Power(n));
    }
  }

  lemma Sum(m: nat, x: bv8, n: nat, y: bv8)
    requires Power(m) == x && Power(n) == y
    ensures Power(m + n) == Fips197.Product(x, y)
  {
    hide Power, Fips197.Product;
    PowerSum(m, n);
  }

  lemma SmallProducts()
    ensures Three(1) == 0x03 && Fips197.Product(0x03, 0x03) == 0x05 && Fips197.Product(0x05, 0x03) == 0x0F
    ensures Fips197.Product(0x05, 0x05) == 0x11 && Fips197.Product(0x11, 0x03) == 0x33 && Fips197.Product(0x33, 0x33) == 0x72
    ensures Fips197.Product(0x72, 0x33) == 0x35
  {
  }

  lemma LargerProducts()
    ensures Fips197.Product(0x11, 0x11) == 0x1A && Fips197.Product(0x1A, 0x1A) == 0x5F && Fips197.Product(0x5F, 0x03) == 0xE1
    ensures Fips197.Product(0xE1, 0xE1) == 0x5C && Fips197.Product(0x5C, 0xE1) == 0x0C && Fips197.Product(0x0C, 0x5C) == 0xBD
    ensures Fips197.Product(0xBD, 0xBD) == 0xBC && Fips197.Product(0xBC, 0xBD) == 0x01
  {
  }

  /** The powers whose exponents divide 255. */
  lemma Powers()
    ensures Power(0) == 1 && Power(1) == 0x03 && Power(3) == 0x0F && Power(5) == 0x33 && Power(15) == 0x35
    ensures Power(17) == 0xE1 && Power(51) == 0x0C && Power(85) == 0xBD && Power(255) == 1
  {
    assert Power(1) == Three(Power(0));
    hide Power, Three, Fips197.Product;
    PowerStarts();
    SmallProducts();
    LargerProducts();
    Sum(1, 0x03, 1, 0x03);
    Sum(2, 0x05, 1, 0x03);
    Sum(2, 0x05, 2, 0x05);
    Sum(4, 0x11, 1, 0x03);
    Sum(5, 0x33, 5, 0x33);
    Sum(10, 0x72, 5, 0x33);
    Sum(4, 0x11, 4, 0x11);
    Sum(8, 0x1A, 8, 0x1A);
    Sum(16, 0x5F, 1, 0x03);
    Sum(17, 0xE1, 17, 0xE1);
    Sum(34, 0x5C, 17, 0xE1);
    Sum(51, 0x0C, 34, 0x5C);
    Sum(85, 0xBD, 85, 0xBD);
    Sum(170, 0xBC, 85, 0xBD);
  }

  lemma PowerStarts()
    ensures Power(0) == 1
  {
  }

  /** A period may be left out. */
  lemma Period(a: nat, n: nat)
    requires Power(a) == 1
    ensures Power(a + n) == Power(n)
  {
    hide Power, Fips197.Product;
    PowerSum(a, n);
    TimesOne(Power(n));
  }

  /** Two periods have a period that divides both, by Euclid's subtractions. */
  lemma {:induction false} CommonPeriod(a: nat, b: nat) returns (g: nat, i: nat, j: nat)
    requires a > 0 && b > 0 && Power(a) == 1 && Power(b) == 1
    ensures g > 0 && a == g * i && b == g * j && Power(g) == 1
    decreases a + b
  {
    hide Power;
    if a == b {
      g, i, j := a, 1, 1;
    } else if a < b {
      Period(a, b - a);
      g, i, j := CommonPeriod(a, b - a);
      assert b == g * i + g * j == g * (i + j);
      j := i + j;
    } else {
      Period(b, a - b);
      g, i, j := CommonPeriod(a - b, b);
      assert a == g * i + g * j == g * (i + j);
      i := i + j;
    }
  }

  lemma SmallDivisors(g: nat, i: nat)
    requires g * i == 255 && g <= 15
    ensures g == 1 || g == 3 || g == 5 || g == 15
  {
    if g == 0 || g == 2 || g == 4 || g == 6 || g == 7 {
    } else if g == 8 || g == 9 || g == 10 || g == 11 {
    } else if g == 12 || g == 13 || g == 14 {
    }
  }

  /** The order of 3 is 255. */
  lemma NoShortPeriod(d: nat)
    requires 0 < d < 255
    ensures Power(d) != 1
  {
    hide Power;
    Powers();
    if Power(d) == 1 {
      var g, i, j := CommonPeriod(255, d);
      assert j >= 1 && g <= g * j;
      if g <= 15 {
        SmallDivisors(g, i);
      } else {
        assert i <= 15;
        SmallDivisors(i, g);
      }
      assert false;
    }
  }

  /** The first 255 powers are different. */
  lemma PowersDiffer(m: nat, n: nat)
    requires m < n < m + 255 && m <= 255
    ensures Power(m) != Power(n)
  {
    hide Power, Fips197.Product;
    Powers();
    if Power(m) == Power(n) {
      PowerSum(m, 255 - m);
      PowerSum(n, 255 - m);
      Period(255, n - m);
      NoShortPeriod(n - m);
    }
  }

  // ----- every byte but zero is a power -----

  function Index(x: bv8): (i: nat)
    ensures i < 256
  {
    x as int
  }

  lemma IndexInjective(x: bv8, y: bv8)
    ensures Index(x) == Index(y) ==> x == y
    ensures Index(x) == 0 <==> x == 0
  {
    if Index(x) == Index(y) {
      assert (x as int) as bv8 == x && (y as int) as bv8 == y;
    }
    assert 0 as int as bv8 == 0;
  }

  lemma {:induction false} PowerNotZero(n: nat)
    ensures Power(n) != 0
  {
    hide Three;
    if n > 0 {
      PowerNotZero(n - 1);
      ThreeNotZero(Power(n - 1));
    }
  }

  lemma ThreeNotZero(x: bv8)
    requires x != 0
    ensures Three(x) != 0
  {
  }

  lemma {:induction false} SizeBound(s: set<int>, n: nat)
    requires forall v | v in s :: 1 <= v <= n
    ensures |s| <= n
  {
    if n == 0 {
      assert forall v :: v !in s;
      assert s == {};
    } else {
      SizeBound(s - {n}, n - 1);
    }
  }

  /** As many different numbers from 1 to n as there are include them all. */
  lemma Pigeonhole(s: set<int>, n: nat, v: int)
    requires (forall u | u in s :: 1 <= u <= n) && |s| == n && 1 <= v <= n
    ensures v in s
  {
    if v !in s {
      SizeBound(if n in s then s - {n} + {v} else s, n - 1);
    }
  }

  ghost predicate Reached(v: int, n: nat) {
    exists k :: 1 <= k <= n && Index(Power(k)) == v
  }

  lemma ReachedNext(n: nat)
    requires n >= 1
    ensures Reached(Index(Power(n)), n) && forall v :: Reached(v, n - 1) ==> Reached(v, n)
  {
    hide Power, Index;
  }

  /** The first n powers. */
  lemma {:induction false} PowersTo(n: nat) returns (s: set<int>)
    requires n <= 255
    ensures |s| == n && forall v | v in s :: 1 <= v <= 255 && Reached(v, n)
  {
    hide Power, Index;
    if n == 0 {
      s := {};
    } else {
      var t := PowersTo(n - 1);
      PowerNotZero(n);
      IndexInjective(Power(n), 0);
      forall k | 1 <= k < n
        ensures Index(Power(k)) != Index(Power(n))
      {
        PowersDiffer(k, n);
        IndexInjective(Power(k), Power(n));
      }
      forall v | v in t
        ensures v != Index(Power(n))
      {
        var k :| 1 <= k <= n - 1 && Index(Power(k)) == v;
      }
      ReachedNext(n);
      s := t + {Index(Power(n))};
    }
  }

  /** Every byte that is not zero is one of the first 255 powers. */
  lemma EveryByte(x: bv8) returns (n: nat)
    requires x != 0
    ensures 1 <= n <= 255 && Power(n) == x
  {
    hide Power, Index;
    var s := PowersTo(255);
    IndexInjective(x, 0);
    Pigeonhole(s, 255, Index(x));
    n :| 1 <= n <= 255 && Index(Power(n)) == Index(x);
    IndexInjective(Power(n), x);
  }
}
