/** The bounding box of the lattice sampler and what a returned sample is. */
module BallSampling {
  import opened Arith
  import opened Options
  import opened Linear4
  import opened Lattices
  import opened Quaternions

  /** The quadratic form x^T G x. */
  function Form(g: Mat, x: Vec): int {
    Dot(x, Eval(g, x))
  }

  predicate Symmetric(g: Mat) {
    Transpose(g) == g
  }

  ghost predicate PositiveDefinite(g: Mat) {
    Symmetric(g) && forall x: Vec :: x != ZERO ==> Form(g, x) > 0
  }

  lemma DotZero(v: Vec)
    ensures Dot(ZERO, v) == 0
  {
  }

  lemma FormNonNegative(g: Mat, x: Vec)
    requires PositiveDefinite(g)
    ensures Form(g, x) >= 0
  {
    if x == ZERO {
      DotZero(Eval(g, x));
    }
  }

  /** Expanding the form at p*x - q*w. */
  lemma FormDifference(g: Mat, x: Vec, w: Vec, p: int, q: int)
    requires Symmetric(g)
    ensures Form(g, Add(Scale(p, x), Scale(-q, w)))
         == p * p * Form(g, x) - 2 * p * q * Dot(x, Eval(g, w)) + q * q * Form(g, w)
  {
    var u, v := Scale(p, x), Scale(-q, w);
    EvalLinear(g, u, v, 0);
    EvalLinear(g, x, x, p);
    EvalLinear(g, w, w, -q);
    var gx, gw := Eval(g, x), Eval(g, w);
    DotLinear(u, v, Add(Scale(p, gx), Scale(-q, gw)), 0);
    Bilinear(p, x, p, gx, -q, gw);
    Bilinear(-q, w, p, gx, -q, gw);
    DotTranspose(g, w, x);
    DotLinear(gw, x, x, 0);
    BinomialSquare(p, q, Dot(x, gx), Dot(x, gw), Dot(w, gw));
  }

  lemma Bilinear(j: int, u: Vec, k: int, v: Vec, l: int, w: Vec)
    ensures Dot(Scale(j, u), Add(Scale(k, v), Scale(l, w))) == j * (k * Dot(u, v) + l * Dot(u, w))
  {
    DotLinear(Scale(j, u), Scale(k, v), Scale(l, w), 0);
    DotLinear(u, Scale(k, v), u, j);
    DotLinear(u, Scale(l, w), u, j);
    DotLinear(u, v, u, k);
    DotLinear(u, w, u, l);
    ScaleSum(j, k * Dot(u, v), l * Dot(u, w));
  }

  lemma BinomialSquare(p: int, q: int, a: int, b: int, c: int)
    ensures p * (p * a + -q * b) + -q * (p * b + -q * c) == p * p * a - 2 * p * q * b + q * q * c
  {
  }

  // ----- positive definite forms have a positive determinant -----

  lemma MinorTwo(g: Mat)
    requires PositiveDefinite(g)
    ensures g.r0.a > 0 && g.r0.a * g.r1.b - g.r0.b * g.r0.b > 0
  {
    assert Form(g, Unit(0)) == g.r0.a;
    var w := Vec(-g.r0.b, g.r0.a, 0, 0);
    var m := g.r0.a * g.r1.b - g.r0.b * g.r0.b;
    assert Transpose(g).r1.a == g.r0.b;
    TwoByTwo(g.r0.a, g.r0.b, g.r1.b);
    assert Form(g, w) == g.r0.a * m;
    PositiveFactor(g.r0.a, m);
  }

  lemma TwoByTwo(a: int, b: int, d: int)
    ensures a * -b + b * a == 0 && b * -b + d * a == a * d - b * b
  {
  }

  lemma PositiveFactor(k: int, m: int)
    requires k > 0 && k * m > 0
    ensures m > 0
  {
  }

  /** The leading 3x3 minor is the last diagonal entry of the adjugate. */
  lemma MinorThree(g: Mat)
    requires PositiveDefinite(g)
    ensures Adjugate(g).r3.d > 0
  {
    MinorTwo(g);
    var a, b, c, d, e, f := g.r0.a, g.r0.b, g.r0.c, g.r1.b, g.r1.c, g.r2.c;
    var t := Transpose(g);
    assert t.r1.a == b && t.r2.a == c && t.r2.b == e;
    var w := Vec(b * e - c * d, c * b - a * e, a * d - b * b, 0);
    var m := c * w.a + e * w.b + f * w.c;
    ThreeByThree(a, b, c, d, e, f);
    assert g.r1.a == b && g.r2.a == c && g.r2.b == e;
    assert Adjugate(g).r3.d == Minor3(a, b, c, b, d, e, c, e, f);
    assert Dot(g.r0, w) == 0 && Dot(g.r1, w) == 0 && Dot(g.r2, w) == m;
    assert Form(g, w) == w.c * m;
    PositiveFactor(w.c, m);
  }

  lemma ThreeByThree(a: int, b: int, c: int, d: int, e: int, f: int)
    ensures a * (b * e - c * d) + b * (c * b - a * e) + c * (a * d - b * b) == 0
    ensures b * (b * e - c * d) + d * (c * b - a * e) + e * (a * d - b * b) == 0
    ensures Minor3(a, b, c, b, d, e, c, e, f) == c * (b * e - c * d) + e * (c * b - a * e) + f * (a * d - b * b)
  {
    RotateRaw(a, b, c, b, d, e, c, e, f);
  }

  lemma PositiveDeterminant(g: Mat)
    requires PositiveDefinite(g)
    ensures Det(g) > 0
  {
    MinorThree(g);
    var w := Eval(Adjugate(g), Unit(3));
    AdjugateInverts(g, Unit(3));
    LastCoordinate(Adjugate(g));
    var k := Adjugate(g).r3.d;
    LastDot(w, Det(g));
    assert Form(g, w) == Det(g) * k;
    PositiveFactor(k, Det(g));
  }

  lemma LastCoordinate(m: Mat)
    ensures Eval(m, Unit(3)).d == m.r3.d
  {
  }

  lemma LastDot(w: Vec, k: int)
    ensures Dot(w, Scale(k, Unit(3))) == k * w.d
  {
  }

  // ----- integer Cauchy-Schwarz through the adjugate -----

  /** The adjugate takes u to a vector whose pairing with x is det(G) times that of u. */
  lemma AdjugatePairing(g: Mat, u: Vec, x: Vec)
    ensures Dot(x, Eval(g, Eval(Adjugate(g), u))) == Det(g) * Dot(u, x)
  {
    AdjugateInverts(g, u);
    DotLinear(x, u, u, Det(g));
  }

  /** det(G) * (u.x)^2 <= (u^T adj(G) u) * (x^T G x). */
  lemma CauchySchwarz(g: Mat, u: Vec, x: Vec)
    requires PositiveDefinite(g)
    ensures Det(g) * (Dot(u, x) * Dot(u, x)) <= Form(Adjugate(g), u) * Form(g, x)
    ensures Form(Adjugate(g), u) >= 0
  {
    PositiveDeterminant(g);
    var w := Eval(Adjugate(g), u);
    AdjugatePairing(g, u, w);
    AdjugatePairing(g, u, x);
    if Dot(u, w) == 0 {
      ZeroForm(g, u);
      DotZero(x);
    }
    PairedForms(g, x, w, Det(g), Dot(u, w), Dot(u, x));
  }

  /** The form at d*x - s*w is not negative. */
  lemma PairedForms(g: Mat, x: Vec, w: Vec, det: int, d: int, s: int)
    requires PositiveDefinite(g) && det > 0 && Form(g, w) == det * d && Dot(x, Eval(g, w)) == det * s
    requires d == 0 ==> s == 0
    ensures det * (s * s) <= d * Form(g, x) && d >= 0
  {
    FormNonNegative(g, w);
    FormDifference(g, x, w, d, s);
    FormNonNegative(g, Add(Scale(d, x), Scale(-s, w)));
    PairedEnd(det, d, s, Form(g, x), Form(g, w), Dot(x, Eval(g, w)), Form(g, Add(Scale(d, x), Scale(-s, w))));
  }

  lemma PairedEnd(det: int, d: int, s: int, q: int, fw: int, xw: int, difference: int)
    requires det > 0 && fw == det * d && fw >= 0 && xw == det * s && (d == 0 ==> s == 0)
    requires difference == d * d * q - 2 * d * s * xw + s * s * fw && difference >= 0
    ensures det * (s * s) <= d * q && d >= 0
  {
    NonNegativeFactor(det, d);
    if d > 0 {
      Discriminant(d, s, q, det);
    }
  }

  lemma NonNegativeFactor(k: int, d: int)
    requires k > 0 && k * d >= 0
    ensures d >= 0
  {
  }

  lemma ZeroForm(g: Mat, u: Vec)
    requires PositiveDefinite(g) && Det(g) > 0 && Dot(u, Eval(Adjugate(g), u)) == 0
    ensures u == ZERO
  {
    var w := Eval(Adjugate(g), u);
    AdjugatePairing(g, u, w);
    OnlyZero(g, w);
    ZeroImage(g, u);
  }

  lemma OnlyZero(g: Mat, w: Vec)
    requires PositiveDefinite(g) && Form(g, w) <= 0
    ensures w == ZERO
  {
  }

  lemma ZeroImage(g: Mat, u: Vec)
    requires Det(g) != 0 && Eval(Adjugate(g), u) == ZERO
    ensures u == ZERO
  {
    AdjugateInverts(g, u);
    EvalZero(g);
    ScaledZero(Det(g), u);
  }

  lemma ScaledZero(k: int, u: Vec)
    requires k != 0 && Scale(k, u) == ZERO
    ensures u == ZERO
  {
    CancelFactor(k, u.a, 0);
    CancelFactor(k, u.b, 0);
    CancelFactor(k, u.c, 0);
    CancelFactor(k, u.d, 0);
  }

  lemma Discriminant(d: int, s: int, q: int, det: int)
    requires d > 0
    requires d * d * q - 2 * d * s * (det * s) + s * s * (det * d) >= 0
    ensures det * (s * s) <= d * q
  {
    assert d * d * q - 2 * d * s * (det * s) + s * s * (det * d) == d * (d * q - det * (s * s)) by {
      assert d * d * q == d * (d * q);
      assert d * s * (det * s) == d * (det * (s * s));
      assert s * s * (det * d) == d * (det * (s * s));
    }
    NonNegativeFactor(d, d * q - det * (s * s));
  }

  // ----- the trace form of a lattice basis -----

  /** The bilinear form of the reduced norm: i^2 = -1, j^2 = -P. */
  function Pairing(u: Vec, v: Vec): int {
    u.a * v.a + u.b * v.b + P * (u.c * v.c + u.d * v.d)
  }

  function Weigh(v: Vec): Vec {
    Vec(v.a, v.b, P * v.c, P * v.d)
  }

  lemma PairingDot(u: Vec, v: Vec)
    ensures Pairing(u, v) == Dot(u, Weigh(v)) == Pairing(v, u)
  {
    WeightRaw(u.c, v.c, u.d, v.d, P);
  }

  lemma WeightRaw(x: int, y: int, z: int, w: int, p: int)
    ensures p * (x * y + z * w) == x * (p * y) + z * (p * w)
  {
  }

  /** Twice the pairing of the basis columns. */
  function Gram(m: Mat): Mat {
    Mat(GramRow(m, Column(m, 0)), GramRow(m, Column(m, 1)), GramRow(m, Column(m, 2)), GramRow(m, Column(m, 3)))
  }

  function GramRow(m: Mat, u: Vec): Vec {
    Vec(2 * Pairing(u, Column(m, 0)), 2 * Pairing(u, Column(m, 1)), 2 * Pairing(u, Column(m, 2)), 2 * Pairing(u, Column(m, 3)))
  }

  lemma GramSymmetric(m: Mat)
    ensures Symmetric(Gram(m))
  {
    forall i: nat, j: nat | i < 4 && j < 4 ensures Pairing(Column(m, i), Column(m, j)) == Pairing(Column(m, j), Column(m, i)) {
      PairingDot(Column(m, i), Column(m, j));
    }
  }

  lemma GramRowDot(m: Mat, u: Vec, x: Vec)
    ensures Dot(GramRow(m, u), x) == 2 * Dot(u, Weigh(Eval(m, x)))
  {
    ColumnCombination(m, x);
    var w := Weigh(u);
    DotFour(w, Column(m, 0), Column(m, 1), Column(m, 2), Column(m, 3), x);
    PairingDot(Column(m, 0), u);
    PairingDot(Column(m, 1), u);
    PairingDot(Column(m, 2), u);
    PairingDot(Column(m, 3), u);
    PairingDot(Eval(m, x), u);
    PairingDot(u, Eval(m, x));
    TwiceSum(Pairing(u, Column(m, 0)), x.a, Pairing(u, Column(m, 1)), x.b, Pairing(u, Column(m, 2)), x.c, Pairing(u, Column(m, 3)), x.d);
  }

  lemma TwiceSum(a: int, x: int, b: int, y: int, c: int, z: int, d: int, w: int)
    ensures 2 * a * x + 2 * b * y + 2 * c * z + 2 * d * w == 2 * (x * a + y * b + z * c + w * d)
  {
  }

  /** The Gram form at x is twice the norm of the combination x of the basis. */
  lemma GramForm(m: Mat, x: Vec)
    ensures Form(Gram(m), x) == 2 * Pairing(Eval(m, x), Eval(m, x))
  {
    var v := Eval(m, x);
    var t := EvalLeft(m, Weigh(v));
    GramRowDot(m, Column(m, 0), x);
    GramRowDot(m, Column(m, 1), x);
    GramRowDot(m, Column(m, 2), x);
    GramRowDot(m, Column(m, 3), x);
    assert Eval(Gram(m), x) == Scale(2, t);
    DotLinear(x, t, t, 2);
    DotTranspose(Transpose(m), x, Weigh(v));
    assert Transpose(Transpose(m)) == m;
    PairingDot(v, v);
  }

  lemma PairingPositive(v: Vec)
    ensures v != ZERO ==> Pairing(v, v) > 0
  {
    assert v.a * v.a >= 0 && v.b * v.b >= 0 && v.c * v.c >= 0 && v.d * v.d >= 0;
    if v != ZERO {
      assert v.a * v.a > 0 || v.b * v.b > 0 || v.c * v.c + v.d * v.d > 0;
    }
  }

  lemma GramPositive(m: Mat)
    requires Det(m) != 0
    ensures PositiveDefinite(Gram(m))
  {
    GramSymmetric(m);
    forall x: Vec | x != ZERO ensures Form(Gram(m), x) > 0 {
      GramForm(m, x);
      if Eval(m, x) == ZERO {
        AdjugateInverts(m, x);
        assert Eval(Adjugate(m), ZERO) == ZERO;
        ScaleCancels(Det(m), x, ZERO);
      }
      PairingPositive(Eval(m, x));
    }
  }

  // ----- the bounding box -----

  /** Position of the highest set bit, one-based. */
  function BitSize(n: nat): (b: nat)
    ensures n < Pow2(b)
  {
    if n == 0 then 0 else 1 + BitSize(n / 2)
  }

  lemma {:induction false} Pow2Double(b: nat, m: nat)
    requires b <= m + m
    ensures Pow2(b) <= Pow2(m) * Pow2(m)
    decreases m
  {
    if m > 0 {
      var k := Pow2(m - 1);
      assert Pow2(m) * Pow2(m) == 4 * (k * k);
      if b >= 2 {
        Pow2Double(b - 2, m - 1);
      } else {
        assert k * k >= 1;
      }
    }
  }

  /** Bitwise square root, from the top bit down. A bit that is set here was clear, so setting it adds its weight. */
  method SqrtFloor(n: int) returns (r: Option<int>)
    ensures r.None? <==> n < 0
    ensures r.Some? ==> r.value >= 0 && r.value * r.value <= n < (r.value + 1) * (r.value + 1)
  {
    if n < 0 {
      return None;
    }
    if n == 0 {
      return Some(0);
    }
    var bit: nat := (BitSize(n) + 1) / 2;
    Pow2Double(BitSize(n), bit);
    var root := 0;
    while bit > 0
      invariant root >= 0 && Brackets(root, Pow2(bit), n)
    {
      bit := bit - 1;
      var candidate := root + Pow2(bit);
      assert root + Pow2(bit + 1) == candidate + Pow2(bit);
      if candidate * candidate <= n {
        root := candidate;
      }
    }
    r := Some(root);
  }

  /** The square root of n lies in [root, root + width). */
  predicate Brackets(root: int, width: int, n: int) {
    root * root <= n < (root + width) * (root + width)
  }

  /** What lattice reduction promises: a unimodular U with reduced = U^T * dual * U. */
  ghost predicate ReductionContract(reduce: Mat -> (Mat, Mat)) {
    forall d: Mat :: ReductionOf(reduce, d)
  }

  ghost predicate ReductionOf(reduce: Mat -> (Mat, Mat), d: Mat) {
    var (u, reduced) := reduce(d);
    (Det(u) == 1 || Det(u) == -1) && reduced == MatMul(MatMul(Transpose(u), d), u)
  }

  lemma ReducedDiagonal(u: Mat, d: Mat, i: nat)
    requires i < 4
    ensures At(Row(MatMul(MatMul(Transpose(u), d), u), i), i) == Form(d, Column(u, i))
  {
    var c := Column(u, i);
    assert Row(MatMul(MatMul(Transpose(u), d), u), i) == EvalLeft(u, EvalLeft(d, c));
    DotTranspose(d, c, c);
    DotLinear(c, EvalLeft(d, c), c, 0);
    assert At(EvalLeft(u, EvalLeft(d, c)), i) == Dot(c, EvalLeft(d, c));
  }

  /** Every x with x^T G x <= rad has |(U^T x)_i| <= bounds[i]. */
  ghost predicate Covers(g: Mat, rad: int, u: Mat, bounds: Vec) {
    forall x: Vec :: Form(g, x) <= rad ==> InBox(EvalLeft(u, x), bounds)
  }

  predicate InBox(y: Vec, bounds: Vec) {
    && -bounds.a <= y.a <= bounds.a && -bounds.b <= y.b <= bounds.b
    && -bounds.c <= y.c <= bounds.c && -bounds.d <= y.d <= bounds.d
  }

  /** b is the floor of the square root of the floor of diag*rad/det. */
  predicate RootBoundOf(b: int, diag: int, rad: int, det: int)
    requires det != 0
  {
    b >= 0 && b * b <= (diag * rad) / det < (b + 1) * (b + 1)
  }

  /** bounds[i] = floor(sqrt(floor(reduced[i][i] * rad / det G))). */
  method BoundingBox(g: Mat, rad: nat, u: Mat, reduced: Mat) returns (bounds: Vec)
    requires PositiveDefinite(g)
    requires reduced == MatMul(MatMul(Transpose(u), Adjugate(g)), u)
    ensures Covers(g, rad, u, bounds) && Det(g) > 0
    ensures forall i: nat | i < 4 :: RootBoundOf(At(bounds, i), At(Row(reduced, i), i), rad, Det(g))
  {
    PositiveDeterminant(g);
    var b: seq<int> := [0, 0, 0, 0];
    var i := 0;
    while i < 4
      invariant 0 <= i <= 4 && |b| == 4
      invariant forall k: nat | k < i :: RootBoundOf(b[k], At(Row(reduced, k), k), rad, Det(g))
      invariant forall k: nat | k < i :: BoundsCoordinate(g, rad, u, k, b[k])
    {
      ReducedDiagonal(u, Adjugate(g), i);
      var bound := CoordinateBound(g, rad, u, i, At(Row(reduced, i), i));
      b := b[i := bound];
      i := i + 1;
    }
    bounds := Vec(b[0], b[1], b[2], b[3]);
    forall x: Vec | Form(g, x) <= rad ensures InBox(EvalLeft(u, x), bounds) {
      assert BoundsCoordinate(g, rad, u, 0, b[0]) && BoundsCoordinate(g, rad, u, 1, b[1]);
      assert BoundsCoordinate(g, rad, u, 2, b[2]) && BoundsCoordinate(g, rad, u, 3, b[3]);
      assert Bounded(u, 0, x, b[0]) && Bounded(u, 1, x, b[1]) && Bounded(u, 2, x, b[2]) && Bounded(u, 3, x, b[3]);
    }
  }

  ghost predicate BoundsCoordinate(g: Mat, rad: int, u: Mat, i: nat, b: int)
    requires i < 4
  {
    forall x: Vec :: Form(g, x) <= rad ==> Bounded(u, i, x, b)
  }

  method CoordinateBound(g: Mat, rad: nat, u: Mat, i: nat, diag: int) returns (b: int)
    requires PositiveDefinite(g) && i < 4 && diag == Form(Adjugate(g), Column(u, i))
    ensures Det(g) > 0 && RootBoundOf(b, diag, rad, Det(g)) && BoundsCoordinate(g, rad, u, i, b)
  {
    var det := Det(g);
    PositiveDeterminant(g);
    CauchySchwarz(g, Column(u, i), ZERO);
    ghost var quot;
    b, quot := RootOfQuotient(diag, rad, det);
    AllBounded(g, u, i, rad, quot, b);
  }

  method RootOfQuotient(diag: int, rad: nat, det: int) returns (b: int, ghost quot: int)
    requires diag >= 0 && det > 0
    ensures RootBoundOf(b, diag, rad, det) && diag * rad < det * (quot + 1) && quot < (b + 1) * (b + 1)
  {
    b, quot := 0, 0;
    assert 0 / det == 0;
    if diag != 0 {
      var q := (diag * rad) / det;
      quot := q;
      FloorQuotient(diag, rad, det);
      var root := SqrtFloor(q);
      b := root.value;
    }
  }

  lemma AllBounded(g: Mat, u: Mat, i: nat, rad: nat, quot: int, b: int)
    requires PositiveDefinite(g) && i < 4 && b >= 0
    requires var diag := Form(Adjugate(g), Column(u, i)); diag * rad < Det(g) * (quot + 1)
    requires quot < (b + 1) * (b + 1)
    ensures BoundsCoordinate(g, rad, u, i, b)
  {
    forall x: Vec | Form(g, x) <= rad ensures Bounded(u, i, x, b) {
      DiagonalBound(g, u, i, x, rad, quot, b);
    }
  }

  lemma FloorQuotient(diag: int, rad: int, det: int)
    requires diag >= 0 && rad >= 0 && det > 0
    ensures (diag * rad) / det >= 0 && diag * rad < det * ((diag * rad) / det + 1)
  {
    assert diag * rad >= 0;
    DivisionLaw(diag * rad, det);
  }

  predicate Bounded(u: Mat, i: nat, x: Vec, b: int)
    requires i < 4
  {
    -b <= At(EvalLeft(u, x), i) <= b
  }

  lemma DiagonalBound(g: Mat, u: Mat, i: nat, x: Vec, rad: nat, quot: int, b: int)
    requires PositiveDefinite(g) && i < 4 && Form(g, x) <= rad && b >= 0
    requires var diag := Form(Adjugate(g), Column(u, i)); diag * rad < Det(g) * (quot + 1)
    requires quot < (b + 1) * (b + 1)
    ensures Bounded(u, i, x, b)
  {
    var c, det := Column(u, i), Det(g);
    var diag, s := Form(Adjugate(g), c), Dot(c, x);
    CauchySchwarz(g, c, x);
    PositiveDeterminant(g);
    assert At(EvalLeft(u, x), i) == s;
    RootBound(det, s, diag, Form(g, x), rad, quot, b);
  }

  lemma RootBound(det: int, s: int, diag: int, q: int, rad: int, quot: int, b: int)
    requires det > 0 && diag >= 0 && b >= 0 && q <= rad
    requires det * (s * s) <= diag * q && diag * rad < det * (quot + 1) && quot < (b + 1) * (b + 1)
    ensures -b <= s <= b
  {
    Grow(diag, q, rad);
    var m := quot + 1;
    if s * s >= m {
      Grow(det, m, s * s);
    }
    if s > b {
      SquareOrder(b + 1, s);
    } else if s < -b {
      NegSquare(s);
      SquareOrder(b + 1, -s);
    }
  }

  lemma NegSquare(s: int)
    ensures -s * -s == s * s
  {
  }

  lemma SquareOrder(x: int, y: int)
    requires 0 <= x <= y
    ensures x * x <= y * y
  {
    Grow(x, x, y);
    Grow(y, x, y);
  }

  // ----- the sampler -----

  /** adj(U) * sign(det U), the inverse of a unimodular matrix. */
  function UnimodularInverse(u: Mat): Mat {
    if Det(u) < 0 then ScaleMat(-1, Adjugate(u)) else Adjugate(u)
  }

  /** Box coordinates y = U^T x and lattice coordinates x = (U^-1)^T y determine each other. */
  lemma BoxCoordinates(u: Mat, x: Vec)
    requires Det(u) == 1 || Det(u) == -1
    ensures EvalLeft(UnimodularInverse(u), EvalLeft(u, x)) == x
  {
    TransposeInverse(u, x);
    if Det(u) < 0 {
      NegatedTranspose(Adjugate(u), EvalLeft(u, x));
      ScaleTwice(-1, -1, x);
    }
  }

  lemma NegatedTranspose(m: Mat, v: Vec)
    ensures EvalLeft(ScaleMat(-1, m), v) == Scale(-1, EvalLeft(m, v))
  {
    TransposeScale(-1, m);
    EvalScaleMat(-1, Transpose(m), v);
  }

  /** An all-zero box leaves no non-zero combination inside the ball. */
  lemma EmptyBox(g: Mat, rad: int, u: Mat, bounds: Vec, x: Vec)
    requires Det(u) == 1 || Det(u) == -1
    requires Covers(g, rad, u, bounds) && bounds == ZERO && Form(g, x) <= rad
    ensures x == ZERO
  {
    BoxCoordinates(u, x);
    assert InBox(EvalLeft(u, x), bounds);
    assert EvalLeft(u, x) == ZERO;
    assert EvalLeft(UnimodularInverse(u), ZERO) == ZERO;
  }

  /** A random source: an answer in [0, upper] for every attempt and coordinate. */
  ghost predicate Uniform(draw: (nat, nat, nat) -> nat) {
    forall attempt: nat, i: nat, upper: nat :: draw(attempt, i, upper) <= upper
  }

  /** Norm at most radius, for the element with basis coordinates x. */
  predicate InBall(l: Lattice, radius: int, x: Vec) {
    Pairing(Eval(l.basis, x), Eval(l.basis, x)) <= radius * l.denom * l.denom
  }

  /** That is the reduced norm of the element. */
  lemma BallIsNorm(l: Lattice, radius: int, x: Vec)
    ensures InBall(l, radius, x) <==> NormNumerator(QUARTER, Eval(l.basis, x)) <= radius * (l.denom * l.denom)
  {
    QuarterOfP();
    PairingIsNorm(Eval(l.basis, x), QUARTER);
    TimesAssoc(radius, l.denom, l.denom);
  }

  lemma PairingIsNorm(v: Vec, quart: int)
    requires P == 4 * quart - 1
    ensures Pairing(v, v) == NormNumerator(quart, v)
  {
  }

  datatype Sample = EmptyBall | Exhausted | Sampled(element: Element, coords: Vec)

  /** The box point of one attempt: uniform in [-b, b] by a draw from [0, 2b], and no draw for a zero bound. */
  ghost predicate DrawnAt(draw: (nat, nat, nat) -> nat, bounds: Vec, attempt: nat, y: Vec) {
    forall i: nat | i < 4 ::
      At(bounds, i) >= 0 && At(y, i) == if At(bounds, i) == 0 then 0 else draw(attempt, i, 2 * At(bounds, i)) - At(bounds, i)
  }

  /** Every point of the box is drawn by some source. */
  lemma BoxPointDrawn(bounds: Vec, y: Vec, attempt: nat) returns (draw: (nat, nat, nat) -> nat)
    requires InBox(y, bounds)
    ensures Uniform(draw) && DrawnAt(draw, bounds, attempt, y)
  {
    draw := (k: nat, i: nat, upper: nat) => Capped(if i < 4 then At(y, i) + At(bounds, i) else 0, upper);
    forall k: nat, i: nat, upper: nat ensures draw(k, i, upper) <= upper {
      assert draw(k, i, upper) == Capped(if i < 4 then At(y, i) + At(bounds, i) else 0, upper);
    }
    forall i: nat | i < 4
      ensures At(bounds, i) >= 0 && At(y, i) == if At(bounds, i) == 0 then 0 else draw(attempt, i, 2 * At(bounds, i)) - At(bounds, i)
    {
      BoxCoordinate(y, bounds, i);
      assert draw(attempt, i, 2 * At(bounds, i)) == Capped(At(y, i) + At(bounds, i), 2 * At(bounds, i));
    }
  }

  lemma BoxCoordinate(y: Vec, bounds: Vec, i: nat)
    requires InBox(y, bounds) && i < 4
    ensures -At(bounds, i) <= At(y, i) <= At(bounds, i)
  {
  }

  function Capped(x: int, upper: nat): (r: nat)
    ensures r <= upper
  {
    if 0 <= x <= upper then x else 0
  }

  /** The lattice coordinates x behind the box point of one attempt give a non-zero element of the ball. */
  ghost predicate Hits(l: Lattice, radius: int, u: Mat, bounds: Vec, draw: (nat, nat, nat) -> nat, attempt: nat, x: Vec) {
    DrawnAt(draw, bounds, attempt, EvalLeft(u, x)) && x != ZERO && InBall(l, radius, x)
  }

  ghost predicate Misses(l: Lattice, radius: int, u: Mat, bounds: Vec, draw: (nat, nat, nat) -> nat, attempt: nat) {
    forall x: Vec :: !Hits(l, radius, u, bounds, draw, attempt, x)
  }

  /** What the sampler's box is made from. */
  ghost predicate BoxOf(l: Lattice, radius: nat, reduce: Mat -> (Mat, Mat), u: Mat, bounds: Vec) {
    var (v, reduced) := reduce(Adjugate(Gram(l.basis)));
    && u == v && Det(Gram(l.basis)) > 0
    && forall i: nat | i < 4 ::
         RootBoundOf(At(bounds, i), At(Row(reduced, i), i), radius * l.denom * l.denom * 2, Det(Gram(l.basis)))
  }

  /** Rejection sampling from the box; the source reports both failures as None. */
  method SampleFromBall(l: Lattice, radius: nat, reduce: Mat -> (Mat, Mat), draw: (nat, nat, nat) -> nat, attempts: nat)
    returns (r: Sample, ghost bounds: Vec, ghost u: Mat)
    requires FullRank(l) && ReductionContract(reduce) && Uniform(draw)
    ensures BoxOf(l, radius, reduce, u, bounds) && (r.EmptyBall? <==> bounds == ZERO)
    ensures r.Exhausted? ==> forall k: nat | k < attempts :: Misses(l, radius, u, bounds, draw, k)
    ensures r.Sampled? ==> FirstHit(l, radius, u, bounds, draw, attempts, r.coords)
    ensures r.Sampled? ==> r.coords != ZERO && InBall(l, radius, r.coords)
    ensures r.Sampled? ==> r.element == Element(Eval(l.basis, r.coords), l.denom) && Coordinates(l, r.element, r.coords)
    ensures r.EmptyBall? ==> forall x: Vec :: x != ZERO ==> !InBall(l, radius, x)
  {
    var g := Gram(l.basis);
    GramPositive(l.basis);
    var rad := radius * l.denom * l.denom * 2;
    RadiusNonNegative(radius, l.denom);
    var (lll, reduced) := reduce(Adjugate(g));
    assert ReductionOf(reduce, Adjugate(g));
    var box := BoundingBox(g, rad, lll, reduced);
    bounds, u := box, lll;
    if box == ZERO {
      NothingInside(l, radius, u, bounds);
      return EmptyBall, bounds, u;
    }
    r := Reject(l, radius, g, rad, lll, box, draw, attempts);
    if r.Sampled? {
      FirstHitInBall(l, radius, u, bounds, draw, attempts, r.coords);
    }
  }

  /** The attempts, until one of them hits. */
  method Reject(l: Lattice, radius: nat, g: Mat, rad: nat, u: Mat, box: Vec, draw: (nat, nat, nat) -> nat, attempts: nat)
    returns (r: Sample)
    requires FullRank(l) && (Det(u) == 1 || Det(u) == -1) && Uniform(draw) && forall i: nat | i < 4 :: At(box, i) >= 0
    requires g == Gram(l.basis) && rad == radius * l.denom * l.denom * 2
    ensures !r.EmptyBall?
    ensures r.Exhausted? ==> forall k: nat | k < attempts :: Misses(l, radius, u, box, draw, k)
    ensures r.Sampled? ==> FirstHit(l, radius, u, box, draw, attempts, r.coords)
    ensures r.Sampled? ==> r.element == Element(Eval(l.basis, r.coords), l.denom)
  {
    var inverse := UnimodularInverse(u);
    var attempt := 0;
    while attempt < attempts
      invariant 0 <= attempt <= attempts
      invariant forall k: nat | k < attempt :: Misses(l, radius, u, box, draw, k)
    {
      var y := DrawFromBox(box, draw, attempt);
      var x := EvalLeft(inverse, y);
      var nrd := Form(g, x);
      Attempted(l, radius, u, box, draw, attempt, y, x);
      if nrd > 0 && nrd <= rad {
        return Sampled(Element(Eval(l.basis, x), l.denom), x);
      }
      attempt := attempt + 1;
    }
    r := Exhausted;
  }

  /** x comes from the first attempt that hits. */
  ghost predicate FirstHit(l: Lattice, radius: int, u: Mat, bounds: Vec, draw: (nat, nat, nat) -> nat, attempts: nat, x: Vec) {
    exists k: nat :: k < attempts && Hits(l, radius, u, bounds, draw, k, x) && forall j: nat | j < k :: Misses(l, radius, u, bounds, draw, j)
  }

  lemma FirstHitInBall(l: Lattice, radius: int, u: Mat, bounds: Vec, draw: (nat, nat, nat) -> nat, attempts: nat, x: Vec)
    requires FirstHit(l, radius, u, bounds, draw, attempts, x)
    ensures x != ZERO && InBall(l, radius, x) && Coordinates(l, Element(Eval(l.basis, x), l.denom), x)
  {
  }

  /** The attempt hits exactly when the form at the drawn coordinates is positive and within the radius. */
  lemma Attempted(l: Lattice, radius: nat, u: Mat, bounds: Vec, draw: (nat, nat, nat) -> nat, attempt: nat, y: Vec, x: Vec)
    requires FullRank(l) && (Det(u) == 1 || Det(u) == -1)
    requires DrawnAt(draw, bounds, attempt, y) && x == EvalLeft(UnimodularInverse(u), y)
    ensures var nrd := Form(Gram(l.basis), x);
            if 0 < nrd <= radius * l.denom * l.denom * 2 then Hits(l, radius, u, bounds, draw, attempt, x)
            else Misses(l, radius, u, bounds, draw, attempt)
  {
    BoxPoint(u, y);
    var nrd := Form(Gram(l.basis), x);
    if 0 < nrd <= radius * l.denom * l.denom * 2 {
      SampleFound(l, radius, x);
    } else {
      forall z: Vec ensures !Hits(l, radius, u, bounds, draw, attempt, z) {
        if Hits(l, radius, u, bounds, draw, attempt, z) {
          OnePoint(draw, bounds, attempt, y, EvalLeft(u, z));
          BoxCoordinates(u, z);
          BallForm(l, radius, z);
          PositiveForm(l, z);
        }
      }
    }
  }

  lemma OnePoint(draw: (nat, nat, nat) -> nat, bounds: Vec, attempt: nat, y: Vec, z: Vec)
    requires DrawnAt(draw, bounds, attempt, y) && DrawnAt(draw, bounds, attempt, z)
    ensures y == z
  {
    forall i | 0 <= i < 4 ensures At(y, i) == At(z, i) {
    }
    Extensional(y, z);
  }

  lemma PositiveForm(l: Lattice, x: Vec)
    requires FullRank(l) && x != ZERO
    ensures Form(Gram(l.basis), x) > 0
  {
    GramPositive(l.basis);
  }

  /** The lattice coordinates of a box point lead back to it. */
  lemma BoxPoint(u: Mat, y: Vec)
    requires Det(u) == 1 || Det(u) == -1
    ensures EvalLeft(u, EvalLeft(UnimodularInverse(u), y)) == y
  {
    TransposeInverse(u, y);
    if Det(u) < 0 {
      NegatedTranspose(Adjugate(u), y);
      EvalLinear(Transpose(u), EvalLeft(Adjugate(u), y), y, -1);
      ScaleTwice(-1, -1, y);
    }
  }

  method DrawFromBox(bounds: Vec, draw: (nat, nat, nat) -> nat, attempt: nat) returns (v: Vec)
    requires Uniform(draw) && forall i: nat | i < 4 :: At(bounds, i) >= 0
    ensures InBox(v, bounds) && DrawnAt(draw, bounds, attempt, v)
  {
    var y: seq<int> := [0, 0, 0, 0];
    var i := 0;
    while i < 4
      invariant 0 <= i <= 4 && |y| == 4
      invariant forall k: nat | k < 4 :: -At(bounds, k) <= y[k] <= At(bounds, k)
      invariant forall k: nat | k < i && At(bounds, k) != 0 :: y[k] == draw(attempt, k, 2 * At(bounds, k)) - At(bounds, k)
    {
      if At(bounds, i) != 0 {
        var raw := draw(attempt, i, 2 * At(bounds, i));
        y := y[i := raw - At(bounds, i)];
      }
      i := i + 1;
    }
    v := Vec(y[0], y[1], y[2], y[3]);
    assert At(bounds, 0) == bounds.a && At(bounds, 1) == bounds.b && At(bounds, 2) == bounds.c && At(bounds, 3) == bounds.d;
  }

  lemma NothingInside(l: Lattice, radius: nat, u: Mat, bounds: Vec)
    requires (Det(u) == 1 || Det(u) == -1) && bounds == ZERO
    requires Covers(Gram(l.basis), radius * l.denom * l.denom * 2, u, bounds)
    ensures forall x: Vec :: x != ZERO ==> !InBall(l, radius, x)
  {
    forall x: Vec | x != ZERO ensures !InBall(l, radius, x) {
      BallForm(l, radius, x);
      if InBall(l, radius, x) {
        EmptyBox(Gram(l.basis), radius * l.denom * l.denom * 2, u, bounds, x);
      }
    }
  }

  lemma SampleFound(l: Lattice, radius: nat, x: Vec)
    requires 0 < Form(Gram(l.basis), x) <= radius * l.denom * l.denom * 2
    ensures x != ZERO && InBall(l, radius, x) && Coordinates(l, Element(Eval(l.basis, x), l.denom), x)
  {
    BallForm(l, radius, x);
    DotZero(Eval(Gram(l.basis), x));
  }

  lemma RadiusNonNegative(radius: nat, d: int)
    ensures radius * d * d >= 0
  {
    assert d * d >= 0;
    assert radius * d * d == radius * (d * d);
  }

  lemma BallForm(l: Lattice, radius: nat, x: Vec)
    ensures InBall(l, radius, x) <==> Form(Gram(l.basis), x) <= radius * l.denom * l.denom * 2
  {
    GramForm(l.basis, x);
  }

  /** Every ball vector can be drawn: its box coordinates are in the box and map back to it. */
  lemma BallIsReachable(l: Lattice, radius: nat, u: Mat, bounds: Vec, x: Vec)
    requires FullRank(l) && (Det(u) == 1 || Det(u) == -1)
    requires Covers(Gram(l.basis), radius * l.denom * l.denom * 2, u, bounds) && InBall(l, radius, x)
    ensures exists y: Vec :: InBox(y, bounds) && EvalLeft(UnimodularInverse(u), y) == x
  {
    BallForm(l, radius, x);
    BoxCoordinates(u, x);
    assert InBox(EvalLeft(u, x), bounds);
  }
}
