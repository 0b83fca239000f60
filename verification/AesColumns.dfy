/** aes.c: the arithmetic of MixColumns, on bytes and on words of four bytes. */
module AesColumns {

  // ----- bytes; most proofs hide xor and use only its laws -----

  function Xor(x: bv8, y: bv8): bv8 { x ^ y }

  function Sum3(x: bv8, y: bv8, z: bv8): bv8 { Xor(Xor(x, y), z) }

  function Sum4(x: bv8, y: bv8, z: bv8, w: bv8): bv8 { Xor(Xor(Xor(x, y), z), w) }

  lemma XorAssoc(x: bv8, y: bv8, z: bv8)
    ensures Xor(Xor(x, y), z) == Xor(x, Xor(y, z))
  {
  }

  lemma XorComm(x: bv8, y: bv8)
    ensures Xor(x, y) == Xor(y, x)
  {
  }

  lemma XorZero(x: bv8)
    ensures Xor(x, x) == 0 && Xor(x, 0) == x && Xor(0, x) == x
  {
  }

  lemma Interchange(x: bv8, y: bv8, z: bv8, w: bv8)
    ensures Xor(Xor(x, y), Xor(z, w)) == Xor(Xor(x, z), Xor(y, w))
  {
    hide *;
    XorAssoc(x, y, Xor(z, w));
    XorAssoc(y, z, w);
    XorComm(y, z);
    XorAssoc(z, y, w);
    XorAssoc(x, z, Xor(y, w));
  }

  lemma Rotate(x: bv8, y: bv8, z: bv8, w: bv8)
    ensures Sum4(x, y, z, w) == Sum4(w, x, y, z)
  {
    hide Xor;
    XorComm(Xor(Xor(x, y), z), w);
    XorAssoc(w, Xor(x, y), z);
    XorAssoc(w, x, y);
  }

  lemma SumOfXors(a: bv8, b: bv8, c: bv8, d: bv8, a': bv8, b': bv8, c': bv8, d': bv8)
    ensures Sum3(Xor(a, a'), Xor(b, b'), Xor(c, c')) == Xor(Sum3(a, b, c), Sum3(a', b', c'))
    ensures Sum4(Xor(a, a'), Xor(b, b'), Xor(c, c'), Xor(d, d')) == Xor(Sum4(a, b, c, d), Sum4(a', b', c', d'))
  {
    hide Xor;
    Interchange(a, a', b, b');
    Interchange(Xor(a, b), Xor(a', b'), c, c');
    Interchange(Xor(Xor(a, b), c), Xor(Xor(a', b'), c'), d, d');
  }

  lemma Transpose(a0: bv8, a1: bv8, a2: bv8, a3: bv8, b0: bv8, b1: bv8, b2: bv8, b3: bv8,
                  c0: bv8, c1: bv8, c2: bv8, c3: bv8, d0: bv8, d1: bv8, d2: bv8, d3: bv8)
    ensures Sum4(Sum4(a0, a1, a2, a3), Sum4(b0, b1, b2, b3), Sum4(c0, c1, c2, c3), Sum4(d0, d1, d2, d3))
            == Sum4(Sum4(a0, b0, c0, d0), Sum4(a1, b1, c1, d1), Sum4(a2, b2, c2, d2), Sum4(a3, b3, c3, d3))
  {
    hide Xor;
    var e0, e1, e2, e3 := Xor(a0, b0), Xor(a1, b1), Xor(a2, b2), Xor(a3, b3);
    SumOfXors(a0, a1, a2, a3, b0, b1, b2, b3);
    SumOfXors(e0, e1, e2, e3, c0, c1, c2, c3);
    SumOfXors(Xor(e0, c0), Xor(e1, c1), Xor(e2, c2), Xor(e3, c3), d0, d1, d2, d3);
  }

  // ----- GF(2^8) -----

  function Shl(x: bv8): bv8 { x << 1 }

  predicate Top(x: bv8) { x & 0x80 != 0 }

  /** XTIME: multiplication by x. */
  function Xtime(x: bv8): bv8 {
    Xor(Shl(x), if Top(x) then 0x1B else 0)
  }

  lemma ShlXor(x: bv8, y: bv8)
    ensures Shl(Xor(x, y)) == Xor(Shl(x), Shl(y)) && (Top(Xor(x, y)) <==> Top(x) != Top(y))
  {
  }

  lemma XtimeXor(x: bv8, y: bv8)
    ensures Xtime(Xor(x, y)) == Xor(Xtime(x), Xtime(y))
  {
    hide Xor, Shl, Top;
    ShlXor(x, y);
    Interchange(Shl(x), if Top(x) then 0x1B else 0, Shl(y), if Top(y) then 0x1B else 0);
    XorZero(0x1B);
    XorZero(0);
  }

  // multiplication by the constants of MixColumns and InvMixColumns
  function Mul2(x: bv8): bv8 { Xtime(x) }
  function Mul3(x: bv8): bv8 { Xor(Xtime(x), x) }
  function Mul9(x: bv8): bv8 { Xor(Xtime(Xtime(Xtime(x))), x) }
  function MulB(x: bv8): bv8 { Sum3(Xtime(Xtime(Xtime(x))), Xtime(x), x) }
  function MulD(x: bv8): bv8 { Sum3(Xtime(Xtime(Xtime(x))), Xtime(Xtime(x)), x) }
  function MulE(x: bv8): bv8 { Sum3(Xtime(Xtime(Xtime(x))), Xtime(Xtime(x)), Xtime(x)) }

  /** Multiplication by a constant is linear over xor. */
  lemma MulXor(x: bv8, y: bv8)
    ensures MulE(Xor(x, y)) == Xor(MulE(x), MulE(y)) && MulB(Xor(x, y)) == Xor(MulB(x), MulB(y))
    ensures MulD(Xor(x, y)) == Xor(MulD(x), MulD(y)) && Mul9(Xor(x, y)) == Xor(Mul9(x), Mul9(y))
  {
    hide Xor, Sum3, Sum4, Xtime;
    var x1, y1 := Xtime(x), Xtime(y);
    var x2, y2 := Xtime(x1), Xtime(y1);
    var x3, y3 := Xtime(x2), Xtime(y2);
    XtimeXor(x, y);
    XtimeXor(x1, y1);
    XtimeXor(x2, y2);
    SumOfXors(x3, x2, x1, x, y3, y2, y1, y);
    SumOfXors(x3, x1, x, x, y3, y1, y, y);
    SumOfXors(x3, x2, x, x, y3, y2, y, y);
    Interchange(x3, y3, x, y);
  }

  lemma MulSum(x: bv8, y: bv8, z: bv8, w: bv8)
    ensures MulE(Sum4(x, y, z, w)) == Sum4(MulE(x), MulE(y), MulE(z), MulE(w))
    ensures MulB(Sum4(x, y, z, w)) == Sum4(MulB(x), MulB(y), MulB(z), MulB(w))
    ensures MulD(Sum4(x, y, z, w)) == Sum4(MulD(x), MulD(y), MulD(z), MulD(w))
    ensures Mul9(Sum4(x, y, z, w)) == Sum4(Mul9(x), Mul9(y), Mul9(z), Mul9(w))
  {
    hide Xor, MulE, MulB, MulD, Mul9;
    MulXor(x, y);
    MulXor(Xor(x, y), z);
    MulXor(Xor(Xor(x, y), z), w);
  }

  // ----- linear forms in a byte and its multiples by powers of x -----

  /** A form chooses its terms by masks that are 0 or 0xFF. */
  datatype Form = Form(c0: bv8, c1: bv8, c2: bv8, c3: bv8, c4: bv8)

  function Plus(f: Form, g: Form): Form {
    Form(Xor(f.c0, g.c0), Xor(f.c1, g.c1), Xor(f.c2, g.c2), Xor(f.c3, g.c3), Xor(f.c4, g.c4))
  }

  function Pick(c: bv8, x: bv8): bv8 { x & c }

  function Chain5(p0: bv8, p1: bv8, p2: bv8, p3: bv8, p4: bv8): bv8 {
    Xor(p0, Xor(p1, Xor(p2, Xor(p3, p4))))
  }

  /** The sum of the chosen ones among b, xb, x^2 b, x^3 b and x^4 b. */
  function Eval(f: Form, b: bv8): bv8 {
    var b1 := Xtime(b);
    var b2 := Xtime(b1);
    var b3 := Xtime(b2);
    Chain5(Pick(f.c0, b), Pick(f.c1, b1), Pick(f.c2, b2), Pick(f.c3, b3), Pick(f.c4, Xtime(b3)))
  }

  lemma PickPlus(c: bv8, d: bv8, x: bv8)
    ensures Xor(Pick(c, x), Pick(d, x)) == Pick(Xor(c, d), x)
  {
  }

  lemma PickAll(x: bv8)
    ensures Pick(0xFF, x) == x && Pick(0, x) == 0
  {
  }

  lemma ChainPlus(p0: bv8, p1: bv8, p2: bv8, p3: bv8, p4: bv8, q0: bv8, q1: bv8, q2: bv8, q3: bv8, q4: bv8)
    ensures Xor(Chain5(p0, p1, p2, p3, p4), Chain5(q0, q1, q2, q3, q4))
            == Chain5(Xor(p0, q0), Xor(p1, q1), Xor(p2, q2), Xor(p3, q3), Xor(p4, q4))
  {
    hide Xor;
    Interchange(p3, p4, q3, q4);
    Interchange(p2, Xor(p3, p4), q2, Xor(q3, q4));
    Interchange(p1, Xor(p2, Xor(p3, p4)), q1, Xor(q2, Xor(q3, q4)));
    Interchange(p0, Xor(p1, Xor(p2, Xor(p3, p4))), q0, Xor(q1, Xor(q2, Xor(q3, q4))));
  }

  lemma EvalPlus(f: Form, g: Form, b: bv8)
    ensures Xor(Eval(f, b), Eval(g, b)) == Eval(Plus(f, g), b)
  {
    hide Xor, Xtime, Pick, Chain5;
    var b1 := Xtime(b);
    var b2 := Xtime(b1);
    var b3 := Xtime(b2);
    var b4 := Xtime(b3);
    PickPlus(f.c0, g.c0, b);
    PickPlus(f.c1, g.c1, b1);
    PickPlus(f.c2, g.c2, b2);
    PickPlus(f.c3, g.c3, b3);
    PickPlus(f.c4, g.c4, b4);
    ChainPlus(Pick(f.c0, b), Pick(f.c1, b1), Pick(f.c2, b2), Pick(f.c3, b3), Pick(f.c4, b4),
              Pick(g.c0, b), Pick(g.c1, b1), Pick(g.c2, b2), Pick(g.c3, b3), Pick(g.c4, b4));
  }

  const ZERO := Form(0, 0, 0, 0, 0)
  const U0 := Form(0xFF, 0, 0, 0, 0)
  const U1 := Form(0, 0xFF, 0, 0, 0)
  const U2 := Form(0, 0, 0xFF, 0, 0)
  const U3 := Form(0, 0, 0, 0xFF, 0)
  const U4 := Form(0, 0, 0, 0, 0xFF)

  lemma EvalUnits(b: bv8)
    ensures Eval(ZERO, b) == 0 && Eval(U0, b) == b && Eval(U1, b) == Xtime(b) && Eval(U2, b) == Xtime(Xtime(b))
    ensures Eval(U3, b) == Xtime(Xtime(Xtime(b))) && Eval(U4, b) == Xtime(Xtime(Xtime(Xtime(b))))
  {
    hide Xor, Xtime, Pick;
    PickAll(b);
    PickAll(Xtime(b));
    PickAll(Xtime(Xtime(b)));
    PickAll(Xtime(Xtime(Xtime(b))));
    PickAll(Xtime(Xtime(Xtime(Xtime(b)))));
    XorZero(0);
    XorZero(b);
    XorZero(Xtime(b));
    XorZero(Xtime(Xtime(b)));
    XorZero(Xtime(Xtime(Xtime(b))));
    XorZero(Xtime(Xtime(Xtime(Xtime(b)))));
  }

  lemma EvalSum3(f: Form, g: Form, h: Form, b: bv8)
    ensures Sum3(Eval(f, b), Eval(g, b), Eval(h, b)) == Eval(Plus(Plus(f, g), h), b)
  {
    hide Xor, Eval, Plus;
    EvalPlus(f, g, b);
    EvalPlus(Plus(f, g), h, b);
  }

  lemma EvalSum4(f: Form, g: Form, h: Form, k: Form, b: bv8)
    ensures Sum4(Eval(f, b), Eval(g, b), Eval(h, b), Eval(k, b)) == Eval(Plus(Plus(Plus(f, g), h), k), b)
  {
    hide Xor, Eval, Plus;
    EvalPlus(f, g, b);
    EvalPlus(Plus(f, g), h, b);
    EvalPlus(Plus(Plus(f, g), h), k, b);
  }

  const FE := Form(0, 0xFF, 0xFF, 0xFF, 0)
  const FB := Form(0xFF, 0xFF, 0, 0xFF, 0)
  const FD := Form(0xFF, 0, 0xFF, 0xFF, 0)
  const F9 := Form(0xFF, 0, 0, 0xFF, 0)

  lemma MaskSums()
    ensures Xor(0, 0) == 0 && Xor(0xFF, 0) == 0xFF && Xor(0, 0xFF) == 0xFF && Xor(0xFF, 0xFF) == 0
  {
  }

  /** The constants and their doubles as forms. */
  lemma ConstantForms(b: bv8)
    ensures MulE(b) == Eval(FE, b) && MulB(b) == Eval(FB, b) && MulD(b) == Eval(FD, b) && Mul9(b) == Eval(F9, b)
    ensures MulE(Xtime(b)) == Eval(Form(0, 0, 0xFF, 0xFF, 0xFF), b)
    ensures MulB(Xtime(b)) == Eval(Form(0, 0xFF, 0xFF, 0, 0xFF), b)
    ensures MulD(Xtime(b)) == Eval(Form(0, 0xFF, 0, 0xFF, 0xFF), b)
    ensures Mul9(Xtime(b)) == Eval(Form(0, 0xFF, 0, 0, 0xFF), b)
  {
    hide Xor, Sum3, Eval, Xtime;
    MaskSums();
    EvalUnits(b);
    EvalSum3(U3, U2, U1, b);
    EvalSum3(U3, U1, U0, b);
    EvalSum3(U3, U2, U0, b);
    EvalPlus(U3, U0, b);
    EvalSum3(U4, U3, U2, b);
    EvalSum3(U4, U2, U1, b);
    EvalSum3(U4, U3, U1, b);
    EvalPlus(U4, U1, b);
  }

  /** The product of the two matrices is the identity, coefficient by coefficient. */
  lemma Coefficients(b: bv8)
    ensures Sum4(MulE(Mul2(b)), MulB(b), MulD(b), Mul9(Mul3(b))) == b
    ensures Sum4(MulE(Mul3(b)), MulB(Mul2(b)), MulD(b), Mul9(b)) == 0
    ensures Sum4(MulE(b), MulB(Mul3(b)), MulD(Mul2(b)), Mul9(b)) == 0
    ensures Sum4(MulE(b), MulB(b), MulD(Mul3(b)), Mul9(Mul2(b))) == 0
  {
    hide Xor, Sum3, Sum4, Eval, Xtime, MulE, MulB, MulD, Mul9;
    MaskSums();
    ConstantForms(b);
    MulXor(Xtime(b), b);
    var E2, B2, D2, N2 := Form(0, 0, 0xFF, 0xFF, 0xFF), Form(0, 0xFF, 0xFF, 0, 0xFF),
                          Form(0, 0xFF, 0, 0xFF, 0xFF), Form(0, 0xFF, 0, 0, 0xFF);
    EvalPlus(E2, FE, b);
    EvalPlus(B2, FB, b);
    EvalPlus(D2, FD, b);
    EvalPlus(N2, F9, b);
    EvalSum4(E2, FB, FD, Plus(N2, F9), b);
    EvalSum4(Plus(E2, FE), B2, FD, F9, b);
    EvalSum4(FE, Plus(B2, FB), D2, F9, b);
    EvalSum4(FE, FB, Plus(D2, FD), N2, b);
    EvalUnits(b);
  }

  // ----- MixColumns -----

  /** One byte of a mixed column; the other bytes are the same with the column rotated. */
  function Row(a: bv8, b: bv8, c: bv8, d: bv8): bv8 {
    Sum4(Mul2(a), Mul3(b), c, d)
  }

  function InvRow(a: bv8, b: bv8, c: bv8, d: bv8): bv8 {
    Sum4(MulE(a), MulB(b), MulD(c), Mul9(d))
  }

  lemma SumWithZeros(a: bv8)
    ensures Sum4(a, 0, 0, 0) == a
  {
    hide Xor;
    XorZero(a);
  }

  lemma InvRowOfRows(a: bv8, b: bv8, c: bv8, d: bv8)
    ensures InvRow(Row(a, b, c, d), Row(b, c, d, a), Row(c, d, a, b), Row(d, a, b, c)) == a
  {
    hide Xor, Sum4, MulE, MulB, MulD, Mul9, Mul2, Mul3;
    Rotate(Mul2(b), Mul3(c), d, a);
    Rotate(Mul2(c), Mul3(d), a, b);
    Rotate(b, Mul2(c), Mul3(d), a);
    Rotate(Mul3(a), b, c, Mul2(d));
    MulSum(Mul2(a), Mul3(b), c, d);
    MulSum(a, Mul2(b), Mul3(c), d);
    MulSum(a, b, Mul2(c), Mul3(d));
    MulSum(Mul3(a), b, c, Mul2(d));
    Transpose(MulE(Mul2(a)), MulE(Mul3(b)), MulE(c), MulE(d), MulB(a), MulB(Mul2(b)), MulB(Mul3(c)), MulB(d),
              MulD(a), MulD(b), MulD(Mul2(c)), MulD(Mul3(d)), Mul9(Mul3(a)), Mul9(b), Mul9(c), Mul9(Mul2(d)));
    Coefficients(a);
    Coefficients(b);
    Coefficients(c);
    Coefficients(d);
    SumWithZeros(a);
  }

  lemma InvRowXor(a: bv8, b: bv8, c: bv8, d: bv8, a': bv8, b': bv8, c': bv8, d': bv8)
    ensures InvRow(Xor(a, a'), Xor(b, b'), Xor(c, c'), Xor(d, d')) == Xor(InvRow(a, b, c, d), InvRow(a', b', c', d'))
  {
    hide Xor, Sum4, MulE, MulB, MulD, Mul9;
    MulXor(a, a');
    MulXor(b, b');
    MulXor(c, c');
    MulXor(d, d');
    SumOfXors(MulE(a), MulB(b), MulD(c), Mul9(d), MulE(a'), MulB(b'), MulD(c'), Mul9(d'));
  }

  // ----- words of four bytes, least significant first -----

  /** GET_UINT32_LE. */
  function Pack(b0: bv8, b1: bv8, b2: bv8, b3: bv8): bv32 {
    (b0 as bv32) | (b1 as bv32 << 8) | (b2 as bv32 << 16) | (b3 as bv32 << 24)
  }

  // PUT_UINT32_LE
  function Byte0(w: bv32): bv8 { (w & 0xFF) as bv8 }
  function Byte1(w: bv32): bv8 { ((w >> 8) & 0xFF) as bv8 }
  function Byte2(w: bv32): bv8 { ((w >> 16) & 0xFF) as bv8 }
  function Byte3(w: bv32): bv8 { ((w >> 24) & 0xFF) as bv8 }

  function Xor32(u: bv32, v: bv32): bv32 { u ^ v }

  /** ROTL8. */
  function Rotl8(w: bv32): bv32 { (w << 8) | (w >> 24) }

  lemma PackBytes(w: bv32)
    ensures Pack(Byte0(w), Byte1(w), Byte2(w), Byte3(w)) == w
  {
  }

  lemma BytesOfPack(a: bv8, b: bv8, c: bv8, d: bv8)
    ensures Byte0(Pack(a, b, c, d)) == a && Byte1(Pack(a, b, c, d)) == b
    ensures Byte2(Pack(a, b, c, d)) == c && Byte3(Pack(a, b, c, d)) == d
  {
  }

  lemma RotateWord(a: bv8, b: bv8, c: bv8, d: bv8)
    ensures Rotl8(Pack(a, b, c, d)) == Pack(d, a, b, c)
  {
  }

  lemma LowBytesOfXor(u: bv32, v: bv32)
    ensures Byte0(Xor32(u, v)) == Xor(Byte0(u), Byte0(v))
  {
  }

  lemma SecondBytesOfXor(u: bv32, v: bv32)
    ensures Byte1(Xor32(u, v)) == Xor(Byte1(u), Byte1(v))
  {
  }

  lemma ThirdBytesOfXor(u: bv32, v: bv32)
    ensures Byte2(Xor32(u, v)) == Xor(Byte2(u), Byte2(v))
  {
  }

  lemma TopBytesOfXor(u: bv32, v: bv32)
    ensures Byte3(Xor32(u, v)) == Xor(Byte3(u), Byte3(v))
  {
  }

  lemma PackOfXor(a: bv8, b: bv8, c: bv8, d: bv8, a': bv8, b': bv8, c': bv8, d': bv8)
    ensures Pack(Xor(a, a'), Xor(b, b'), Xor(c, c'), Xor(d, d')) == Xor32(Pack(a, b, c, d), Pack(a', b', c', d'))
  {
  }

  lemma XorWords(u: bv32, v: bv32, w: bv32)
    ensures Xor32(Xor32(u, v), w) == Xor32(u, Xor32(v, w))
  {
  }

  function MixBytes(a: bv8, b: bv8, c: bv8, d: bv8): bv32 {
    Pack(Row(a, b, c, d), Row(b, c, d, a), Row(c, d, a, b), Row(d, a, b, c))
  }

  function UnmixBytes(a: bv8, b: bv8, c: bv8, d: bv8): bv32 {
    Pack(InvRow(a, b, c, d), InvRow(b, c, d, a), InvRow(c, d, a, b), InvRow(d, a, b, c))
  }

  /** MixColumns on one column. */
  function Mix(w: bv32): bv32 {
    MixBytes(Byte0(w), Byte1(w), Byte2(w), Byte3(w))
  }

  /** InvMixColumns on one column. */
  function Unmix(w: bv32): bv32 {
    UnmixBytes(Byte0(w), Byte1(w), Byte2(w), Byte3(w))
  }

  /** InvMixColumns undoes MixColumns. */
  lemma UnmixMix(w: bv32)
    ensures Unmix(Mix(w)) == w
  {
    hide Pack, Byte0, Byte1, Byte2, Byte3, Row, InvRow;
    var a, b, c, d := Byte0(w), Byte1(w), Byte2(w), Byte3(w);
    BytesOfPack(Row(a, b, c, d), Row(b, c, d, a), Row(c, d, a, b), Row(d, a, b, c));
    InvRowOfRows(a, b, c, d);
    InvRowOfRows(b, c, d, a);
    InvRowOfRows(c, d, a, b);
    InvRowOfRows(d, a, b, c);
    PackBytes(w);
  }

  /** InvMixColumns is linear over xor. */
  lemma UnmixXor(u: bv32, v: bv32)
    ensures Unmix(Xor32(u, v)) == Xor32(Unmix(u), Unmix(v))
  {
    hide Xor, Xor32, Pack, Byte0, Byte1, Byte2, Byte3, InvRow;
    LowBytesOfXor(u, v);
    SecondBytesOfXor(u, v);
    ThirdBytesOfXor(u, v);
    TopBytesOfXor(u, v);
    var a, b, c, d := Byte0(u), Byte1(u), Byte2(u), Byte3(u);
    var a', b', c', d' := Byte0(v), Byte1(v), Byte2(v), Byte3(v);
    InvRowXor(a, b, c, d, a', b', c', d');
    InvRowXor(b, c, d, a, b', c', d', a');
    InvRowXor(c, d, a, b, c', d', a', b');
    InvRowXor(d, a, b, c, d', a', b', c');
    PackOfXor(InvRow(a, b, c, d), InvRow(b, c, d, a), InvRow(c, d, a, b), InvRow(d, a, b, c),
              InvRow(a', b', c', d'), InvRow(b', c', d', a'), InvRow(c', d', a', b'), InvRow(d', a', b', c'));
  }
}
