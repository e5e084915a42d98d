/** The action of the standard maximal order on the 2^248-torsion of the first curve, by 2x2 matrices. */
module Deuring {
  import opened Linear4
  import opened Modular
  import opened Matrices2
  import opened Quaternions

  // ----- the stored matrices: the actions of i, j, k, (i + j)/2 and (1 + k)/2 -----

  /** 2^248. */
  const N: int := 0x1_00000000_00000000_00000000_00000000_00000000_00000000_00000000_000000

  /** i */
  const MI := Mat2(
    0xcab471aa8c7f8c_7f9d34b241af33d1_74759780861ddd06_c5d3bda21b5456db,
    0x574ae3eeb45cd0_76bf6861034403e1_a955918263d89bd3_7bfb7d32048b7d7a,
    0x1535daa88b47f9_f7e00bffe50bcb5b_189cafdf498f41db_856fd6493698444f,
    0x354b8e55738073_8062cb4dbe50cc2e_8b8a687f79e222f9_3a2c425de4aba925)

  /** j */
  const MJ := Mat2(
    0x7da2d2cde65004_914606f6a7aea3f0_00d14eea4a59da0f_36bad5fd54900abf,
    0x68240040d72b45_bd7b5e31f73e2361_0819c9ec8b68a95f_611dbde3b7878680,
    0xca7be80d8304fb_e829af54c2ed00db_563f9d1cf854977f_1f0c9e126d204277,
    0x825d2d3219affb_6eb9f90958515c0f_ff2eb115b5a625f0_c9452a02ab6ff541)

  /** k */
  const MK := Mat2(
    0x4455fc6a0cd5a6_904ec26e7a543289_f39a683ee470f713_b19c16401af2231b,
    0xcd96ce11d1ffce_83917c511cb68c0a_925f591684e85675_55d2de69b685ad7a,
    0x486a1da287a6d9_664bade78c7e9b4b_64a727d46f18b3ec_959b1b9279bd3724,
    0xbbaa0395f32a59_6fb13d9185abcd76_0c6597c11b8f08ec_4e63e9bfe50ddce5)

  /** (i + j)/2 */
  const G3 := Mat2(
    0x242ba23c3967c8_88719dd474aeebe0_baa37335683bdb8a_fe4749cfb7f230cd,
    0xdfb77217c5c40b_1a1d63497d4113a1_58b7adb777a0a299_6e8c9d8ade0981fd,
    0x6fd8e15b07267a_f004ddaa53fc661b_376e267e20f1ecad_523e3a2dd1dc4363,
    0xdbd45dc3c69837_778e622b8b51141f_455c8cca97c42475_01b8b630480dcf33)

  /** (1 + k)/2 */
  const G4 := Mat2(
    0x222afe35066ad3_482761373d2a1944_f9cd341f72387b89_d8ce0b200d79118e,
    0x66cb6708e8ffe7_41c8be288e5b4605_492fac8b42742b3a_aae96f34db42d6bd,
    0x24350ed143d36c_b325d6f3c63f4da5_b25393ea378c59f6_4acd8dc93cde9b92,
    0xddd501caf9952c_b7d89ec8c2d5e6bb_0632cbe08dc78476_2731f4dff286ee73)

  // ----- the representation -----

  /** Linear combination of four matrices. */
  function Sum4(k: Vec, m0: Mat2, m1: Mat2, m2: Mat2, m3: Mat2): Mat2 {
    Mat2(Dot(k, Vec(m0.a, m1.a, m2.a, m3.a)), Dot(k, Vec(m0.b, m1.b, m2.b, m3.b)),
         Dot(k, Vec(m0.c, m1.c, m2.c, m3.c)), Dot(k, Vec(m0.d, m1.d, m2.d, m3.d)))
  }

  /** The actions of the second, third and fourth basis element of the order. */
  datatype Generators = Generators(g2: Mat2, g3: Mat2, g4: Mat2)

  const CURVE0 := Generators(MI, G3, G4)

  /** The matrix of the order element with coordinates x, before any reduction. */
  function Rho(g: Generators, x: Vec): Mat2 {
    Sum4(x, I2, g.g2, g.g3, g.g4)
  }

  lemma DotCong(k: Vec, u: Vec, v: Vec, n: int)
    requires Cong(u.a, v.a, n) && Cong(u.b, v.b, n) && Cong(u.c, v.c, n) && Cong(u.d, v.d, n)
    ensures Cong(Dot(k, u), Dot(k, v), n)
  {
    CongRefl(k.a, n);
    CongRefl(k.b, n);
    CongRefl(k.c, n);
    CongRefl(k.d, n);
    CongDot(k.a, k.a, u.a, v.a, k.b, k.b, u.b, v.b, n);
    CongDot(k.c, k.c, u.c, v.c, k.d, k.d, u.d, v.d, n);
    CongAdd(k.a * u.a + k.b * u.b, k.a * v.a + k.b * v.b, k.c * u.c + k.d * u.d, k.c * v.c + k.d * v.d, n);
  }

  lemma Sum4Cong(k: Vec, m0: Mat2, m1: Mat2, m2: Mat2, m3: Mat2, n0: Mat2, n1: Mat2, n2: Mat2, n3: Mat2, n: int)
    requires Cong2(m0, n0, n) && Cong2(m1, n1, n) && Cong2(m2, n2, n) && Cong2(m3, n3, n)
    ensures Cong2(Sum4(k, m0, m1, m2, m3), Sum4(k, n0, n1, n2, n3), n)
  {
    DotCong(k, Vec(m0.a, m1.a, m2.a, m3.a), Vec(n0.a, n1.a, n2.a, n3.a), n);
    DotCong(k, Vec(m0.b, m1.b, m2.b, m3.b), Vec(n0.b, n1.b, n2.b, n3.b), n);
    DotCong(k, Vec(m0.c, m1.c, m2.c, m3.c), Vec(n0.c, n1.c, n2.c, n3.c), n);
    DotCong(k, Vec(m0.d, m1.d, m2.d, m3.d), Vec(n0.d, n1.d, n2.d, n3.d), n);
  }

  lemma DotTimes(k: Vec, x: Vec, y: Vec, s: int, t: int)
    ensures Dot(k, x) * s + Dot(k, y) * t
         == Dot(k, Vec(x.a * s + y.a * t, x.b * s + y.b * t, x.c * s + y.c * t, x.d * s + y.d * t))
  {
    TermTimes(k.a, x.a, y.a, s, t);
    TermTimes(k.b, x.b, y.b, s, t);
    TermTimes(k.c, x.c, y.c, s, t);
    TermTimes(k.d, x.d, y.d, s, t);
    FourFactor(k.a * x.a, k.b * x.b, k.c * x.c, k.d * x.d, s);
    FourFactor(k.a * y.a, k.b * y.b, k.c * y.c, k.d * y.d, t);
  }

  lemma TermTimes(k: int, x: int, y: int, s: int, t: int)
    ensures k * (x * s + y * t) == (k * x) * s + (k * y) * t
  {
    assert k * (x * s) == (k * x) * s && k * (y * t) == (k * y) * t;
  }

  lemma FourFactor(a: int, b: int, c: int, d: int, s: int)
    ensures (a + b + c + d) * s == a * s + b * s + c * s + d * s
  {
  }

  /** Multiplying a combination from the right. */
  lemma SumTimes(k: Vec, m0: Mat2, m1: Mat2, m2: Mat2, m3: Mat2, n: Mat2)
    ensures Times(Sum4(k, m0, m1, m2, m3), n) == Sum4(k, Times(m0, n), Times(m1, n), Times(m2, n), Times(m3, n))
  {
    var a, b := Vec(m0.a, m1.a, m2.a, m3.a), Vec(m0.b, m1.b, m2.b, m3.b);
    var c, d := Vec(m0.c, m1.c, m2.c, m3.c), Vec(m0.d, m1.d, m2.d, m3.d);
    DotTimes(k, a, b, n.a, n.c);
    DotTimes(k, a, b, n.b, n.d);
    DotTimes(k, c, d, n.a, n.c);
    DotTimes(k, c, d, n.b, n.d);
  }

  lemma DotTimesLeft(k: Vec, x: Vec, y: Vec, s: int, t: int)
    ensures s * Dot(k, x) + t * Dot(k, y)
         == Dot(k, Vec(s * x.a + t * y.a, s * x.b + t * y.b, s * x.c + t * y.c, s * x.d + t * y.d))
  {
    DotTimes(k, x, y, s, t);
  }

  /** Multiplying a combination from the left. */
  lemma TimesSum(k: Vec, m: Mat2, n0: Mat2, n1: Mat2, n2: Mat2, n3: Mat2)
    ensures Times(m, Sum4(k, n0, n1, n2, n3)) == Sum4(k, Times(m, n0), Times(m, n1), Times(m, n2), Times(m, n3))
  {
    var a, b := Vec(n0.a, n1.a, n2.a, n3.a), Vec(n0.b, n1.b, n2.b, n3.b);
    var c, d := Vec(n0.c, n1.c, n2.c, n3.c), Vec(n0.d, n1.d, n2.d, n3.d);
    DotTimesLeft(k, a, c, m.a, m.b);
    DotTimesLeft(k, b, d, m.a, m.b);
    DotTimesLeft(k, a, c, m.c, m.d);
    DotTimesLeft(k, b, d, m.c, m.d);
  }

  /** The coordinate vector sum(k_i v_i). */
  function Combine4(k: Vec, v0: Vec, v1: Vec, v2: Vec, v3: Vec): Vec {
    Add(Add(Scale(k.a, v0), Scale(k.b, v1)), Add(Scale(k.c, v2), Scale(k.d, v3)))
  }

  lemma DotCombine(k: Vec, v0: Vec, v1: Vec, v2: Vec, v3: Vec, w: Vec)
    ensures Dot(Combine4(k, v0, v1, v2, v3), w) == Dot(k, Vec(Dot(v0, w), Dot(v1, w), Dot(v2, w), Dot(v3, w)))
  {
    DotTwo(k.a, k.b, v0, v1, w);
    DotTwo(k.c, k.d, v2, v3, w);
    DotLinear(Add(Scale(k.a, v0), Scale(k.b, v1)), Add(Scale(k.c, v2), Scale(k.d, v3)), w, 0);
  }

  lemma DotTwo(k: int, l: int, u: Vec, v: Vec, w: Vec)
    ensures Dot(Add(Scale(k, u), Scale(l, v)), w) == k * Dot(u, w) + l * Dot(v, w)
  {
    TermTwo(k, l, u.a, v.a, w.a);
    TermTwo(k, l, u.b, v.b, w.b);
    TermTwo(k, l, u.c, v.c, w.c);
    TermTwo(k, l, u.d, v.d, w.d);
    FourFactor(u.a * w.a, u.b * w.b, u.c * w.c, u.d * w.d, k);
    FourFactor(v.a * w.a, v.b * w.b, v.c * w.c, v.d * w.d, l);
  }

  lemma TermTwo(k: int, l: int, x: int, y: int, w: int)
    ensures (k * x + l * y) * w == (x * w) * k + (y * w) * l
  {
    assert (k * x) * w == (x * w) * k && (l * y) * w == (y * w) * l;
  }

  /** Rho is linear. */
  lemma RhoCombine(g: Generators, k: Vec, v0: Vec, v1: Vec, v2: Vec, v3: Vec)
    ensures Sum4(k, Rho(g, v0), Rho(g, v1), Rho(g, v2), Rho(g, v3)) == Rho(g, Combine4(k, v0, v1, v2, v3))
  {
    DotCombine(k, v0, v1, v2, v3, Vec(1, g.g2.a, g.g3.a, g.g4.a));
    DotCombine(k, v0, v1, v2, v3, Vec(0, g.g2.b, g.g3.b, g.g4.b));
    DotCombine(k, v0, v1, v2, v3, Vec(0, g.g2.c, g.g3.c, g.g4.c));
    DotCombine(k, v0, v1, v2, v3, Vec(1, g.g2.d, g.g3.d, g.g4.d));
  }

  // ----- the representation is a ring homomorphism -----

  /** The multiplication table and the traces of the order hold for the generators' matrices. */
  ghost predicate Acts(quart: int, g: Generators) {
    && Cong2(Times(g.g2, g.g2), Rho(g, Vec(-1, 0, 0, 0)), N)
    && Cong2(Times(g.g2, g.g3), Rho(g, Vec(-1, 0, 0, 1)), N)
    && Cong2(Times(g.g2, g.g4), Rho(g, Vec(0, 1, -1, 0)), N)
    && Cong2(Times(g.g3, g.g2), Rho(g, Vec(0, 0, 0, -1)), N)
    && Cong2(Times(g.g3, g.g3), Rho(g, Vec(-quart, 0, 0, 0)), N)
    && Cong2(Times(g.g3, g.g4), Rho(g, Vec(0, quart, 0, 0)), N)
    && Cong2(Times(g.g4, g.g2), Rho(g, Vec(0, 0, 1, 0)), N)
    && Cong2(Times(g.g4, g.g3), Rho(g, Vec(0, -quart, 1, 0)), N)
    && Cong2(Times(g.g4, g.g4), Rho(g, Vec(-quart, 0, 0, 1)), N)
    && Cong2(Adj2(g.g2), Rho(g, Vec(0, -1, 0, 0)), N)
    && Cong2(Adj2(g.g3), Rho(g, Vec(0, 0, -1, 0)), N)
    && Cong2(Adj2(g.g4), Rho(g, Vec(1, 0, 0, -1)), N)
  }

  // ----- the nine products of the stored matrices -----

  lemma CloseEntries(m: Mat2, n: Mat2)
    requires (m.a - n.a) % N == 0 && (m.b - n.b) % N == 0 && (m.c - n.c) % N == 0 && (m.d - n.d) % N == 0
    ensures Cong2(m, n, N)
  {
    DifferenceZero(m.a, n.a, N);
    DifferenceZero(m.b, n.b, N);
    DifferenceZero(m.c, n.c, N);
    DifferenceZero(m.d, n.d, N);
  }

  lemma ProductMIMI()
    ensures Cong2(Times(MI, MI), Rho(CURVE0, Vec(-1, 0, 0, 0)), N)
  {
    SquareOfI(MI.a, MI.b, MI.c, MI.d);
    MinusOne();
  }

  lemma MinusOne()
    ensures Rho(CURVE0, Vec(-1, 0, 0, 0)) == Mat2(-1, 0, 0, -1)
  {
  }

  lemma SquareOfI(a: int, b: int, c: int, d: int)
    requires Mat2(a, b, c, d) == MI
    ensures Cong2(Times(Mat2(a, b, c, d), Mat2(a, b, c, d)), Mat2(-1, 0, 0, -1), N)
  {
    var m := Mat2(a * a + b * c, a * b + b * d, c * a + d * c, c * b + d * d);
    assert (m.a + 1) % N == 0;
    assert m.b % N == 0;
    assert m.c % N == 0;
    assert (m.d + 1) % N == 0;
    CloseEntries(m, Mat2(-1, 0, 0, -1));
  }

  lemma ProductMIG3()
    ensures Cong2(Times(MI, G3), Rho(CURVE0, Vec(-1, 0, 0, 1)), N)
  {
    CloseEntries(Times(MI, G3), Rho(CURVE0, Vec(-1, 0, 0, 1)));
  }

  lemma ProductMIG4()
    ensures Cong2(Times(MI, G4), Rho(CURVE0, Vec(0, 1, -1, 0)), N)
  {
    CloseEntries(Times(MI, G4), Rho(CURVE0, Vec(0, 1, -1, 0)));
  }

  lemma ProductG3MI()
    ensures Cong2(Times(G3, MI), Rho(CURVE0, Vec(0, 0, 0, -1)), N)
  {
    CloseEntries(Times(G3, MI), Rho(CURVE0, Vec(0, 0, 0, -1)));
  }

  lemma ProductG3G3()
    ensures Cong2(Times(G3, G3), Rho(CURVE0, Vec(-QUARTER, 0, 0, 0)), N)
  {
    CloseEntries(Times(G3, G3), Rho(CURVE0, Vec(-QUARTER, 0, 0, 0)));
  }

  lemma ProductG3G4()
    ensures Cong2(Times(G3, G4), Rho(CURVE0, Vec(0, QUARTER, 0, 0)), N)
  {
    CloseEntries(Times(G3, G4), Rho(CURVE0, Vec(0, QUARTER, 0, 0)));
  }

  lemma ProductG4MI()
    ensures Cong2(Times(G4, MI), Rho(CURVE0, Vec(0, 0, 1, 0)), N)
  {
    G4TimesMI(G4.a, G4.b, G4.c, G4.d, MI.a, MI.b, MI.c, MI.d);
    ThirdUnit(CURVE0);
  }

  lemma ThirdUnit(g: Generators)
    ensures Rho(g, Vec(0, 0, 1, 0)) == g.g3
  {
  }

  lemma G4TimesMI(a: int, b: int, c: int, d: int, e: int, f: int, g: int, h: int)
    requires Mat2(a, b, c, d) == G4 && Mat2(e, f, g, h) == MI
    ensures Cong2(Times(Mat2(a, b, c, d), Mat2(e, f, g, h)), G3, N)
  {
    var m := Mat2(a * e + b * g, a * f + b * h, c * e + d * g, c * f + d * h);
    assert (m.a - G3.a) % N == 0;
    assert (m.b - G3.b) % N == 0;
    assert (m.c - G3.c) % N == 0;
    assert (m.d - G3.d) % N == 0;
    CloseEntries(m, G3);
  }

  lemma ProductG4G3()
    ensures Cong2(Times(G4, G3), Rho(CURVE0, Vec(0, -QUARTER, 1, 0)), N)
  {
    CloseEntries(Times(G4, G3), Rho(CURVE0, Vec(0, -QUARTER, 1, 0)));
  }

  lemma ProductG4G4()
    ensures Cong2(Times(G4, G4), Rho(CURVE0, Vec(-QUARTER, 0, 0, 1)), N)
  {
    CloseEntries(Times(G4, G4), Rho(CURVE0, Vec(-QUARTER, 0, 0, 1)));
  }


  lemma AdjugateMI()
    ensures Cong2(Adj2(MI), Rho(CURVE0, Vec(0, -1, 0, 0)), N)
  {
    CloseEntries(Adj2(MI), Rho(CURVE0, Vec(0, -1, 0, 0)));
  }

  lemma AdjugateG3()
    ensures Cong2(Adj2(G3), Rho(CURVE0, Vec(0, 0, -1, 0)), N)
  {
    CloseEntries(Adj2(G3), Rho(CURVE0, Vec(0, 0, -1, 0)));
  }

  lemma AdjugateG4()
    ensures Cong2(Adj2(G4), Rho(CURVE0, Vec(1, 0, 0, -1)), N)
  {
    CloseEntries(Adj2(G4), Rho(CURVE0, Vec(1, 0, 0, -1)));
  }

  /** j is twice (i + j)/2 minus i, also for the stored matrices. */
  lemma StoredJ()
    ensures Cong2(MJ, Plus(ScaleBy(2, G3), ScaleBy(-1, MI)), N)
  {
    CloseEntries(MJ, Plus(ScaleBy(2, G3), ScaleBy(-1, MI)));
  }

  /** k is twice (1 + k)/2 minus one. */
  lemma StoredK()
    ensures Cong2(MK, Plus(ScaleBy(2, G4), ScaleBy(-1, I2)), N)
  {
    CloseEntries(MK, Plus(ScaleBy(2, G4), ScaleBy(-1, I2)));
  }

  lemma Curve0Acts()
    ensures Acts(QUARTER, CURVE0)
  {
    ProductMIMI();
    ProductMIG3();
    ProductMIG4();
    ProductG3MI();
    ProductG3G3();
    ProductG3G4();
    ProductG4MI();
    ProductG4G3();
    ProductG4G4();
    AdjugateMI();
    AdjugateG3();
    AdjugateG4();
  }

  lemma RhoUnits(g: Generators)
    ensures Rho(g, Vec(1, 0, 0, 0)) == I2 && Rho(g, Vec(0, 1, 0, 0)) == g.g2
    ensures Rho(g, Vec(0, 0, 1, 0)) == g.g3 && Rho(g, Vec(0, 0, 0, 1)) == g.g4
  {
  }

  lemma TimesIdentity(m: Mat2)
    ensures Times(m, I2) == m && Times(I2, m) == m
  {
  }

  /** A generator times the matrix of y, from its products with the generators. */
  lemma GeneratorTimes(g: Generators, m: Mat2, y: Vec, v0: Vec, v1: Vec, v2: Vec, v3: Vec)
    requires m == Rho(g, v0) && Cong2(Times(m, g.g2), Rho(g, v1), N)
    requires Cong2(Times(m, g.g3), Rho(g, v2), N) && Cong2(Times(m, g.g4), Rho(g, v3), N)
    ensures Cong2(Times(m, Rho(g, y)), Rho(g, Combine4(y, v0, v1, v2, v3)), N)
  {
    TimesSum(y, m, I2, g.g2, g.g3, g.g4);
    TimesIdentity(m);
    Cong2Refl(m, N);
    Sum4Cong(y, Times(m, I2), Times(m, g.g2), Times(m, g.g3), Times(m, g.g4), Rho(g, v0), Rho(g, v1), Rho(g, v2), Rho(g, v3), N);
    RhoCombine(g, y, v0, v1, v2, v3);
  }

  lemma LeftRows(quart: int, y: Vec)
    ensures Combine4(y, Vec(0, 1, 0, 0), Vec(-1, 0, 0, 0), Vec(-1, 0, 0, 1), Vec(0, 1, -1, 0)) == Left1(y)
    ensures Combine4(y, Vec(0, 0, 1, 0), Vec(0, 0, 0, -1), Vec(-quart, 0, 0, 0), Vec(0, quart, 0, 0)) == Left2(quart, y)
    ensures Combine4(y, Vec(0, 0, 0, 1), Vec(0, 0, 1, 0), Vec(0, -quart, 1, 0), Vec(-quart, 0, 0, 1)) == Left3(quart, y)
  {
  }

  lemma LeftTimes(quart: int, g: Generators, y: Vec)
    requires Acts(quart, g)
    ensures Cong2(Times(g.g2, Rho(g, y)), Rho(g, Left1(y)), N)
    ensures Cong2(Times(g.g3, Rho(g, y)), Rho(g, Left2(quart, y)), N)
    ensures Cong2(Times(g.g4, Rho(g, y)), Rho(g, Left3(quart, y)), N)
  {
    RhoUnits(g);
    LeftRows(quart, y);
    GeneratorTimes(g, g.g2, y, Vec(0, 1, 0, 0), Vec(-1, 0, 0, 0), Vec(-1, 0, 0, 1), Vec(0, 1, -1, 0));
    GeneratorTimes(g, g.g3, y, Vec(0, 0, 1, 0), Vec(0, 0, 0, -1), Vec(-quart, 0, 0, 0), Vec(0, quart, 0, 0));
    GeneratorTimes(g, g.g4, y, Vec(0, 0, 0, 1), Vec(0, 0, 1, 0), Vec(0, -quart, 1, 0), Vec(-quart, 0, 0, 1));
  }

  /** The matrix of a product is the product of the matrices. */
  lemma RhoMul(quart: int, g: Generators, x: Vec, y: Vec)
    requires Acts(quart, g)
    ensures Cong2(Times(Rho(g, x), Rho(g, y)), Rho(g, OrderMul(quart, x, y)), N)
  {
    var r := Rho(g, y);
    SumTimes(x, I2, g.g2, g.g3, g.g4, r);
    TimesIdentity(r);
    Cong2Refl(r, N);
    LeftTimes(quart, g, y);
    Sum4Cong(x, Times(I2, r), Times(g.g2, r), Times(g.g3, r), Times(g.g4, r),
             r, Rho(g, Left1(y)), Rho(g, Left2(quart, y)), Rho(g, Left3(quart, y)), N);
    RhoCombine(g, x, y, Left1(y), Left2(quart, y), Left3(quart, y));
  }

  lemma AdjOfSum(x: Vec, m0: Mat2, m1: Mat2, m2: Mat2, m3: Mat2)
    ensures Adj2(Sum4(x, m0, m1, m2, m3)) == Sum4(x, Adj2(m0), Adj2(m1), Adj2(m2), Adj2(m3))
  {
    NegDot(x, Vec(m0.b, m1.b, m2.b, m3.b));
    NegDot(x, Vec(m0.c, m1.c, m2.c, m3.c));
  }

  lemma ConjRows(x: Vec)
    ensures Combine4(x, Vec(1, 0, 0, 0), Vec(0, -1, 0, 0), Vec(0, 0, -1, 0), Vec(1, 0, 0, -1)) == OrderConj(x)
  {
  }

  /** The matrix of the conjugate is the adjugate. */
  lemma RhoConj(quart: int, g: Generators, x: Vec)
    requires Acts(quart, g)
    ensures Cong2(Adj2(Rho(g, x)), Rho(g, OrderConj(x)), N)
  {
    var v0, v1, v2, v3 := Vec(1, 0, 0, 0), Vec(0, -1, 0, 0), Vec(0, 0, -1, 0), Vec(1, 0, 0, -1);
    AdjOfSum(x, I2, g.g2, g.g3, g.g4);
    RhoUnits(g);
    assert Adj2(I2) == I2;
    Cong2Refl(I2, N);
    Sum4Cong(x, I2, Adj2(g.g2), Adj2(g.g3), Adj2(g.g4), Rho(g, v0), Rho(g, v1), Rho(g, v2), Rho(g, v3), N);
    RhoCombine(g, x, v0, v1, v2, v3);
    ConjRows(x);
  }

  lemma ConjugateRows(quart: int, x: Vec)
    ensures Left1(OrderConj(x)) == Vec(x.b + x.c, x.a, x.d, -x.c)
    ensures Left2(quart, OrderConj(x)) == Vec(quart * x.c, -(quart * x.d), x.a + x.d, x.b)
    ensures Left3(quart, OrderConj(x)) == Vec(quart * x.d, quart * x.c, -x.b - x.c, x.a)
  {
  }

  lemma TimesConjugate(quart: int, x: Vec)
    ensures OrderMul(quart, x, OrderConj(x)) == Vec(OrderNorm(quart, x), 0, 0, 0)
  {
    OrderMulEntries(quart, x, OrderConj(x));
    ConjugateRows(quart, x);
    NormEntry(x.a, x.b, x.c, x.d, quart);
    ConjugateVanishes(x.a, x.b, x.c, x.d, quart);
  }

  lemma NormEntry(a: int, b: int, c: int, d: int, q: int)
    ensures Four(a, b, c, d, a + d, b + c, q * c, q * d) == a * a + a * d + b * b + b * c + q * (c * c + d * d)
  {
    assert a * (a + d) == a * a + a * d && b * (b + c) == b * b + b * c;
    assert c * (q * c) == q * (c * c) && d * (q * d) == q * (d * d);
    assert q * (c * c + d * d) == q * (c * c) + q * (d * d);
  }

  lemma ConjugateVanishes(a: int, b: int, c: int, d: int, q: int)
    ensures Four(a, b, c, d, -b, a, -(q * d), q * c) == 0
    ensures Four(a, b, c, d, -c, d, a + d, -b - c) == 0
    ensures Four(a, b, c, d, -d, -c, b, a) == 0
  {
    assert a * -b == -(b * a) && c * -(q * d) == -(d * (q * c));
    assert a * -c == -(c * a) && c * (a + d) == c * a + c * d && d * (-b - c) == -(b * d) - c * d;
    assert a * -d == -(d * a) && b * -c == -(c * b);
  }

  /** The determinant of the matrix is the reduced norm. */
  lemma RhoDet(quart: int, g: Generators, x: Vec)
    requires Acts(quart, g)
    ensures Cong(Det2(Rho(g, x)), OrderNorm(quart, x), N)
  {
    var m, n := Rho(g, x), OrderConj(x);
    RhoConj(quart, g, x);
    Cong2Refl(m, N);
    Cong2Times(m, m, Adj2(m), Rho(g, n), N);
    RhoMul(quart, g, x, n);
    TimesConjugate(quart, x);
    AdjTimes(m);
    Cong2Trans(Times(m, Adj2(m)), Times(m, Rho(g, n)), Rho(g, Vec(OrderNorm(quart, x), 0, 0, 0)), N);
    ScalarEntry(g, Det2(m), OrderNorm(quart, x));
  }

  lemma ScalarEntry(g: Generators, d: int, n: int)
    ensures ScaleBy(d, I2).a == d && Rho(g, Vec(n, 0, 0, 0)).a == n
  {
  }
}
