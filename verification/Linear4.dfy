/** 4-vectors and 4x4 matrices over the unbounded integers: determinant, adjugate and the
    block-wise cofactor computation that the quaternion lattices rest on. */
module Linear4 {

  datatype Vec = Vec(a: int, b: int, c: int, d: int)

  /** A matrix is stored by rows. */
  datatype Mat = Mat(r0: Vec, r1: Vec, r2: Vec, r3: Vec)

  const ZERO := Vec(0, 0, 0, 0)

  function Add(u: Vec, v: Vec): Vec {
    Vec(u.a + v.a, u.b + v.b, u.c + v.c, u.d + v.d)
  }

  function Scale(k: int, u: Vec): Vec {
    Vec(k * u.a, k * u.b, k * u.c, k * u.d)
  }

  function Dot(u: Vec, v: Vec): int {
    u.a * v.a + u.b * v.b + u.c * v.c + u.d * v.d
  }

  function At(u: Vec, i: nat): int
    requires i < 4
  {
    if i == 0 then u.a else if i == 1 then u.b else if i == 2 then u.c else u.d
  }

  function Unit(i: nat): Vec
    requires i < 4
  {
    if i == 0 then Vec(1, 0, 0, 0) else if i == 1 then Vec(0, 1, 0, 0)
    else if i == 2 then Vec(0, 0, 1, 0) else Vec(0, 0, 0, 1)
  }

  function Row(m: Mat, i: nat): Vec
    requires i < 4
  {
    if i == 0 then m.r0 else if i == 1 then m.r1 else if i == 2 then m.r2 else m.r3
  }

  function Transpose(m: Mat): Mat {
    Mat(Vec(m.r0.a, m.r1.a, m.r2.a, m.r3.a), Vec(m.r0.b, m.r1.b, m.r2.b, m.r3.b),
        Vec(m.r0.c, m.r1.c, m.r2.c, m.r3.c), Vec(m.r0.d, m.r1.d, m.r2.d, m.r3.d))
  }

  function Column(m: Mat, j: nat): Vec
    requires j < 4
  {
    Row(Transpose(m), j)
  }

  function ScaleMat(k: int, m: Mat): Mat {
    Mat(Scale(k, m.r0), Scale(k, m.r1), Scale(k, m.r2), Scale(k, m.r3))
  }

  function Eval(m: Mat, v: Vec): Vec {
    Vec(Dot(m.r0, v), Dot(m.r1, v), Dot(m.r2, v), Dot(m.r3, v))
  }

  function EvalLeft(m: Mat, v: Vec): Vec {
    Eval(Transpose(m), v)
  }

  /** Product by rows: row i of a * b is the combination of the rows of b given by row i of a. */
  function MatMul(a: Mat, b: Mat): Mat {
    Mat(EvalLeft(b, a.r0), EvalLeft(b, a.r1), EvalLeft(b, a.r2), EvalLeft(b, a.r3))
  }

  // ----- determinant and adjugate by 3x3 minors -----

  function Minor3(u0: int, u1: int, u2: int, v0: int, v1: int, v2: int, w0: int, w1: int, w2: int): int {
    u0 * (v1 * w2 - v2 * w1) - u1 * (v0 * w2 - v2 * w0) + u2 * (v0 * w1 - v1 * w0)
  }

  /** The four signed 3x3 minors of three rows, leaving out one column at a time. */
  function Cross(u: Vec, v: Vec, w: Vec): Vec {
    Vec(Minor3(u.b, u.c, u.d, v.b, v.c, v.d, w.b, w.c, w.d),
        -Minor3(u.a, u.c, u.d, v.a, v.c, v.d, w.a, w.c, w.d),
        Minor3(u.a, u.b, u.d, v.a, v.b, v.d, w.a, w.b, w.d),
        -Minor3(u.a, u.b, u.c, v.a, v.b, v.c, w.a, w.b, w.c))
  }

  function Neg(u: Vec): Vec {
    Vec(-u.a, -u.b, -u.c, -u.d)
  }

  /** Laplace expansion along the first row. */
  function Det(m: Mat): int {
    Dot(m.r0, Cross(m.r1, m.r2, m.r3))
  }

  /** Transposed matrix of the sixteen signed 3x3 minors. */
  function Adjugate(m: Mat): Mat {
    Transpose(Mat(Cross(m.r1, m.r2, m.r3), Neg(Cross(m.r0, m.r2, m.r3)),
                  Cross(m.r0, m.r1, m.r3), Neg(Cross(m.r0, m.r1, m.r2))))
  }

  // ----- the shared 2x2-minor form -----

  /** The six 2x2 minors of a pair of rows, one per pair of columns. */
  datatype Minors = Minors(ab: int, ac: int, ad: int, bc: int, bd: int, cd: int)

  function Wedge(u: Vec, v: Vec): Minors {
    Minors(u.a * v.b - u.b * v.a, u.a * v.c - u.c * v.a, u.a * v.d - u.d * v.a,
           u.b * v.c - u.c * v.b, u.b * v.d - u.d * v.b, u.c * v.d - u.d * v.c)
  }

  /** Sum over complementary column pairs, with signs. */
  function Pair(s: Minors, t: Minors): int {
    s.ab * t.cd - s.ac * t.bd + s.ad * t.bc + s.bc * t.ad - s.bd * t.ac + s.cd * t.ab
  }

  /** The cofactors of a row whose partner row is u and whose complementary minors are t. */
  function Contract(u: Vec, t: Minors): Vec {
    Vec(u.b * t.cd - u.c * t.bd + u.d * t.bc,
        u.c * t.ad - u.a * t.cd - u.d * t.ac,
        u.a * t.bd - u.b * t.ad + u.d * t.ab,
        u.b * t.ac - u.a * t.bc - u.c * t.ab)
  }

  function CofactorAndDet(m: Mat): (Mat, int) {
    var s := Wedge(m.r0, m.r1);
    var t := Wedge(m.r2, m.r3);
    (Mat(Contract(m.r1, t), Neg(Contract(m.r0, t)), Contract(m.r3, s), Neg(Contract(m.r2, s))),
     Pair(s, t))
  }

  // ----- linearity -----

  lemma DotLinear(u: Vec, v: Vec, w: Vec, k: int)
    ensures Dot(u, Add(v, w)) == Dot(u, v) + Dot(u, w)
    ensures Dot(Add(u, v), w) == Dot(u, w) + Dot(v, w)
    ensures Dot(u, Scale(k, v)) == k * Dot(u, v) == Dot(Scale(k, u), v)
    ensures Dot(u, v) == Dot(v, u)
  {
    DotScaleRaw(u.a, u.b, u.c, u.d, v.a, v.b, v.c, v.d, k);
  }

  lemma DotScaleRaw(a: int, b: int, c: int, d: int, e: int, f: int, g: int, h: int, k: int)
    ensures a * (k * e) + b * (k * f) + c * (k * g) + d * (k * h) == k * (a * e + b * f + c * g + d * h)
    ensures (k * a) * e + (k * b) * f + (k * c) * g + (k * d) * h == k * (a * e + b * f + c * g + d * h)
  {
  }

  lemma EvalLinear(m: Mat, v: Vec, w: Vec, k: int)
    ensures Eval(m, Add(v, w)) == Add(Eval(m, v), Eval(m, w))
    ensures Eval(m, Scale(k, v)) == Scale(k, Eval(m, v))
  {
    DotLinear(m.r0, v, w, k);
    DotLinear(m.r1, v, w, k);
    DotLinear(m.r2, v, w, k);
    DotLinear(m.r3, v, w, k);
  }

  lemma DotFour(u: Vec, p: Vec, q: Vec, r: Vec, s: Vec, v: Vec)
    ensures Dot(Add(Add(Scale(v.a, p), Scale(v.b, q)), Add(Scale(v.c, r), Scale(v.d, s))), u)
         == v.a * Dot(p, u) + v.b * Dot(q, u) + v.c * Dot(r, u) + v.d * Dot(s, u)
  {
    DotLinear(p, u, u, v.a);
    DotLinear(q, u, u, v.b);
    DotLinear(r, u, u, v.c);
    DotLinear(s, u, u, v.d);
    DotLinear(Scale(v.a, p), Scale(v.b, q), u, 0);
    DotLinear(Scale(v.c, r), Scale(v.d, s), u, 0);
    DotLinear(Add(Scale(v.a, p), Scale(v.b, q)), Add(Scale(v.c, r), Scale(v.d, s)), u, 0);
  }

  /** A vector times a matrix combines the rows. */
  lemma RowCombination(m: Mat, v: Vec)
    ensures EvalLeft(m, v)
         == Add(Add(Scale(v.a, m.r0), Scale(v.b, m.r1)), Add(Scale(v.c, m.r2), Scale(v.d, m.r3)))
  {
    FourSwapped(m.r0.a, m.r1.a, m.r2.a, m.r3.a, v);
    FourSwapped(m.r0.b, m.r1.b, m.r2.b, m.r3.b, v);
    FourSwapped(m.r0.c, m.r1.c, m.r2.c, m.r3.c, v);
    FourSwapped(m.r0.d, m.r1.d, m.r2.d, m.r3.d, v);
  }

  lemma FourSwapped(p: int, q: int, r: int, s: int, v: Vec)
    ensures Dot(Vec(p, q, r, s), v) == (v.a * p + v.b * q) + (v.c * r + v.d * s)
  {
  }

  /** Moving a matrix across the dot product transposes it. */
  lemma DotTranspose(m: Mat, u: Vec, v: Vec)
    ensures Dot(u, Eval(m, v)) == Dot(EvalLeft(m, u), v)
  {
    RowCombination(m, u);
    DotFour(v, m.r0, m.r1, m.r2, m.r3, u);
  }

  // ----- the adjugate identity -----

  lemma ContractPair(w: Vec, u: Vec, t: Minors)
    ensures Dot(w, Contract(u, t)) == Pair(Wedge(w, u), t)
  {
    ContractPairRaw(w.a, w.b, w.c, w.d, u.a, u.b, u.c, u.d, t.ab, t.ac, t.ad, t.bc, t.bd, t.cd);
  }

  lemma ContractPairRaw(a: int, b: int, c: int, d: int, e: int, f: int, g: int, h: int,
                        ab: int, ac: int, ad: int, bc: int, bd: int, cd: int)
    ensures a * (f * cd - g * bd + h * bc) + b * (g * ad - e * cd - h * ac)
            + c * (e * bd - f * ad + h * ab) + d * (f * ac - e * bc - g * ab)
         == (a * f - b * e) * cd - (a * g - c * e) * bd + (a * h - d * e) * bc
            + (b * g - c * f) * ad - (b * h - d * f) * ac + (c * h - d * g) * ab
  {
    var x, y := a * (f * cd - g * bd + h * bc), b * (g * ad - e * cd - h * ac);
    var z, w := c * (e * bd - f * ad + h * ab), d * (f * ac - e * bc - g * ab);
    assert x == a * f * cd - a * g * bd + a * h * bc by { Distribute(a, f, cd, g, bd, h, bc); }
    assert y == b * g * ad - b * e * cd - b * h * ac by { Distribute'(b, g, ad, e, cd, h, ac); }
    assert z == c * e * bd - c * f * ad + c * h * ab by { Distribute(c, e, bd, f, ad, h, ab); }
    assert w == d * f * ac - d * e * bc - d * g * ab by { Distribute'(d, f, ac, e, bc, g, ab); }
    assert (a * f - b * e) * cd == a * f * cd - b * e * cd;
    assert (a * g - c * e) * bd == a * g * bd - c * e * bd;
    assert (a * h - d * e) * bc == a * h * bc - d * e * bc;
    assert (b * g - c * f) * ad == b * g * ad - c * f * ad;
    assert (b * h - d * f) * ac == b * h * ac - d * f * ac;
    assert (c * h - d * g) * ab == c * h * ab - d * g * ab;
  }

  lemma Distribute(x: int, f: int, p: int, g: int, q: int, h: int, r: int)
    ensures x * (f * p - g * q + h * r) == x * f * p - x * g * q + x * h * r
  {
  }

  lemma Distribute'(x: int, f: int, p: int, g: int, q: int, h: int, r: int)
    ensures x * (f * p - g * q - h * r) == x * f * p - x * g * q - x * h * r
  {
  }

  /** Two row pairs that share a row have no complementary area. */
  lemma PairShared(w: Vec, u: Vec, x: Vec)
    ensures Pair(Wedge(w, u), Wedge(w, x)) == 0
  {
    ContractPair(u, w, Wedge(w, x));
    ContractOwn(w.a, w.b, w.c, w.d, x.a, x.b, x.c, x.d);
    assert Contract(w, Wedge(w, x)) == ZERO;
    PairSigns(u, w, Wedge(w, x));
  }

  lemma ContractOwn(a: int, b: int, c: int, d: int, e: int, f: int, g: int, h: int)
    ensures b * (c * h - d * g) - c * (b * h - d * f) + d * (b * g - c * f) == 0
    ensures c * (a * h - d * e) - a * (c * h - d * g) - d * (a * g - c * e) == 0
    ensures a * (b * h - d * f) - b * (a * h - d * e) + d * (a * f - b * e) == 0
    ensures b * (a * g - c * e) - a * (b * g - c * f) - c * (a * f - b * e) == 0
  {
  }

  lemma PairSigns(u: Vec, v: Vec, t: Minors)
    ensures Pair(Wedge(v, u), t) == -Pair(Wedge(u, v), t)
    ensures Pair(t, Wedge(v, u)) == -Pair(t, Wedge(u, v))
    ensures Pair(Wedge(u, v), t) == Pair(t, Wedge(u, v))
    ensures Pair(Wedge(u, u), t) == 0
  {
    var s, r := Wedge(u, v), Wedge(v, u);
    assert r == Minors(-s.ab, -s.ac, -s.ad, -s.bc, -s.bd, -s.cd);
    assert Wedge(u, u) == Minors(0, 0, 0, 0, 0, 0);
  }

  lemma NegDot(u: Vec, v: Vec)
    ensures Dot(u, Neg(v)) == -Dot(u, v) == Dot(Neg(u), v)
  {
  }

  /** The sixteen products of a row with a cofactor row. */
  lemma CofactorRows(m: Mat)
    ensures var (k, det) := CofactorAndDet(m);
            && Eval(m, k.r0) == Scale(det, Unit(0))
            && Eval(m, k.r1) == Scale(det, Unit(1))
            && Eval(m, k.r2) == Scale(det, Unit(2))
            && Eval(m, k.r3) == Scale(det, Unit(3))
  {
    var s, t := Wedge(m.r0, m.r1), Wedge(m.r2, m.r3);
    CofactorRowPair(m.r0, m.r1, m.r2, m.r3);
    CofactorRowPair(m.r2, m.r3, m.r0, m.r1);
    PairSigns(m.r0, m.r1, t);
  }

  lemma CofactorRowPair(u: Vec, v: Vec, x: Vec, y: Vec)
    ensures var t := Wedge(x, y); var det := Pair(Wedge(u, v), t);
            && Dot(u, Contract(v, t)) == det && Dot(v, Contract(v, t)) == 0
            && Dot(x, Contract(v, t)) == 0 && Dot(y, Contract(v, t)) == 0
            && Dot(u, Neg(Contract(u, t))) == 0 && Dot(v, Neg(Contract(u, t))) == det
            && Dot(x, Neg(Contract(u, t))) == 0 && Dot(y, Neg(Contract(u, t))) == 0
  {
    var t := Wedge(x, y);
    forall p, q | p in {u, v, x, y} && q in {u, v}
      ensures Dot(p, Contract(q, t)) == Pair(Wedge(p, q), t) == -Dot(p, Neg(Contract(q, t)))
    {
      ContractPair(p, q, t);
      NegDot(p, Contract(q, t));
    }
    PairSigns(u, v, t);
    PairSigns(v, u, t);
    forall q | q in {u, v} ensures Pair(Wedge(x, q), t) == 0 == Pair(Wedge(y, q), t) {
      PairShared(x, q, y);
      PairShared(y, q, x);
      PairSigns(x, y, Wedge(y, q));
    }
  }

  /** The sixteen products of a column with a cofactor column. */
  lemma CofactorColumns(m: Mat)
    ensures var (k, det) := CofactorAndDet(m);
            && EvalLeft(m, Column(k, 0)) == Scale(det, Unit(0))
            && EvalLeft(m, Column(k, 1)) == Scale(det, Unit(1))
            && EvalLeft(m, Column(k, 2)) == Scale(det, Unit(2))
            && EvalLeft(m, Column(k, 3)) == Scale(det, Unit(3))
  {
    ColumnA(m);
    ColumnB(m);
    ColumnC(m);
    ColumnD(m);
  }

  lemma ColumnA(m: Mat)
    ensures var (k, det) := CofactorAndDet(m);
            forall j | 0 <= j < 4 :: Dot(Column(m, 0), Column(k, j)) == if j == 0 then det else 0
  {
    FixedA(m.r0, m.r1);
    FixedA(m.r2, m.r3);
    SumsA(Wedge(m.r0, m.r1), Wedge(m.r2, m.r3));
    var s, t := Wedge(m.r0, m.r1), Wedge(m.r2, m.r3);
    ColumnSums(m, m.r0.a, m.r1.a, m.r2.a, m.r3.a, Minors'(0, s.ab, s.ac, s.ad), Minors'(0, t.ab, t.ac, t.ad), Pair(s, t), 0, 0, 0);
  }

  lemma ColumnB(m: Mat)
    ensures var (k, det) := CofactorAndDet(m);
            forall j | 0 <= j < 4 :: Dot(Column(m, 1), Column(k, j)) == if j == 1 then det else 0
  {
    FixedB(m.r0, m.r1);
    FixedB(m.r2, m.r3);
    SumsB(Wedge(m.r0, m.r1), Wedge(m.r2, m.r3));
    var s, t := Wedge(m.r0, m.r1), Wedge(m.r2, m.r3);
    ColumnSums(m, m.r0.b, m.r1.b, m.r2.b, m.r3.b, Minors'(-s.ab, 0, s.bc, s.bd), Minors'(-t.ab, 0, t.bc, t.bd), 0, Pair(s, t), 0, 0);
  }

  lemma ColumnC(m: Mat)
    ensures var (k, det) := CofactorAndDet(m);
            forall j | 0 <= j < 4 :: Dot(Column(m, 2), Column(k, j)) == if j == 2 then det else 0
  {
    FixedC(m.r0, m.r1);
    FixedC(m.r2, m.r3);
    SumsC(Wedge(m.r0, m.r1), Wedge(m.r2, m.r3));
    var s, t := Wedge(m.r0, m.r1), Wedge(m.r2, m.r3);
    ColumnSums(m, m.r0.c, m.r1.c, m.r2.c, m.r3.c, Minors'(-s.ac, -s.bc, 0, s.cd), Minors'(-t.ac, -t.bc, 0, t.cd), 0, 0, Pair(s, t), 0);
  }

  lemma ColumnD(m: Mat)
    ensures var (k, det) := CofactorAndDet(m);
            forall j | 0 <= j < 4 :: Dot(Column(m, 3), Column(k, j)) == if j == 3 then det else 0
  {
    FixedD(m.r0, m.r1);
    FixedD(m.r2, m.r3);
    SumsD(Wedge(m.r0, m.r1), Wedge(m.r2, m.r3));
    var s, t := Wedge(m.r0, m.r1), Wedge(m.r2, m.r3);
    ColumnSums(m, m.r0.d, m.r1.d, m.r2.d, m.r3.d, Minors'(-s.ad, -s.bd, -s.cd, 0), Minors'(-t.ad, -t.bd, -t.cd, 0), 0, 0, 0, Pair(s, t));
  }

  /** The minors of a pair of rows that use one fixed column, in column order. */
  datatype Minors' = Minors'(a: int, b: int, c: int, d: int)

  // The minors that use one fixed column, and their sums against the complementary pair.

  lemma FixedA(u: Vec, v: Vec)
    ensures var s := Wedge(u, v);
            Minors'(0, s.ab, s.ac, s.ad) == Minors'(u.a * v.a - v.a * u.a, u.a * v.b - v.a * u.b, u.a * v.c - v.a * u.c, u.a * v.d - v.a * u.d)
  {
  }

  lemma SumsA(s: Minors, t: Minors)
    ensures var f, g := Minors'(0, s.ab, s.ac, s.ad), Minors'(0, t.ab, t.ac, t.ad);
            && f.b * t.cd - f.c * t.bd + f.d * t.bc + (g.b * s.cd - g.c * s.bd + g.d * s.bc) == Pair(s, t)
            && f.c * t.ad - f.a * t.cd - f.d * t.ac + (g.c * s.ad - g.a * s.cd - g.d * s.ac) == 0
            && f.a * t.bd - f.b * t.ad + f.d * t.ab + (g.a * s.bd - g.b * s.ad + g.d * s.ab) == 0
            && f.b * t.ac - f.a * t.bc - f.c * t.ab + (g.b * s.ac - g.a * s.bc - g.c * s.ab) == 0
  {
  }

  lemma FixedB(u: Vec, v: Vec)
    ensures var s := Wedge(u, v);
            Minors'(-s.ab, 0, s.bc, s.bd) == Minors'(u.b * v.a - v.b * u.a, u.b * v.b - v.b * u.b, u.b * v.c - v.b * u.c, u.b * v.d - v.b * u.d)
  {
  }

  lemma SumsB(s: Minors, t: Minors)
    ensures var f, g := Minors'(-s.ab, 0, s.bc, s.bd), Minors'(-t.ab, 0, t.bc, t.bd);
            && f.b * t.cd - f.c * t.bd + f.d * t.bc + (g.b * s.cd - g.c * s.bd + g.d * s.bc) == 0
            && f.c * t.ad - f.a * t.cd - f.d * t.ac + (g.c * s.ad - g.a * s.cd - g.d * s.ac) == Pair(s, t)
            && f.a * t.bd - f.b * t.ad + f.d * t.ab + (g.a * s.bd - g.b * s.ad + g.d * s.ab) == 0
            && f.b * t.ac - f.a * t.bc - f.c * t.ab + (g.b * s.ac - g.a * s.bc - g.c * s.ab) == 0
  {
  }

  lemma FixedC(u: Vec, v: Vec)
    ensures var s := Wedge(u, v);
            Minors'(-s.ac, -s.bc, 0, s.cd) == Minors'(u.c * v.a - v.c * u.a, u.c * v.b - v.c * u.b, u.c * v.c - v.c * u.c, u.c * v.d - v.c * u.d)
  {
  }

  lemma SumsC(s: Minors, t: Minors)
    ensures var f, g := Minors'(-s.ac, -s.bc, 0, s.cd), Minors'(-t.ac, -t.bc, 0, t.cd);
            && f.b * t.cd - f.c * t.bd + f.d * t.bc + (g.b * s.cd - g.c * s.bd + g.d * s.bc) == 0
            && f.c * t.ad - f.a * t.cd - f.d * t.ac + (g.c * s.ad - g.a * s.cd - g.d * s.ac) == 0
            && f.a * t.bd - f.b * t.ad + f.d * t.ab + (g.a * s.bd - g.b * s.ad + g.d * s.ab) == Pair(s, t)
            && f.b * t.ac - f.a * t.bc - f.c * t.ab + (g.b * s.ac - g.a * s.bc - g.c * s.ab) == 0
  {
  }

  lemma FixedD(u: Vec, v: Vec)
    ensures var s := Wedge(u, v);
            Minors'(-s.ad, -s.bd, -s.cd, 0) == Minors'(u.d * v.a - v.d * u.a, u.d * v.b - v.d * u.b, u.d * v.c - v.d * u.c, u.d * v.d - v.d * u.d)
  {
  }

  lemma SumsD(s: Minors, t: Minors)
    ensures var f, g := Minors'(-s.ad, -s.bd, -s.cd, 0), Minors'(-t.ad, -t.bd, -t.cd, 0);
            && f.b * t.cd - f.c * t.bd + f.d * t.bc + (g.b * s.cd - g.c * s.bd + g.d * s.bc) == 0
            && f.c * t.ad - f.a * t.cd - f.d * t.ac + (g.c * s.ad - g.a * s.cd - g.d * s.ac) == 0
            && f.a * t.bd - f.b * t.ad + f.d * t.ab + (g.a * s.bd - g.b * s.ad + g.d * s.ab) == 0
            && f.b * t.ac - f.a * t.bc - f.c * t.ab + (g.b * s.ac - g.a * s.bc - g.c * s.ab) == Pair(s, t)
  {
  }

  /** One column of m against the four cofactor columns; f and g are the minors using that column. */
  lemma ColumnSums(m: Mat, x: int, y: int, z: int, w: int, f: Minors', g: Minors', p: int, q: int, r: int, e: int)
    requires f == Minors'(x * m.r1.a - y * m.r0.a, x * m.r1.b - y * m.r0.b, x * m.r1.c - y * m.r0.c, x * m.r1.d - y * m.r0.d)
    requires g == Minors'(z * m.r3.a - w * m.r2.a, z * m.r3.b - w * m.r2.b, z * m.r3.c - w * m.r2.c, z * m.r3.d - w * m.r2.d)
    requires var s, t := Wedge(m.r0, m.r1), Wedge(m.r2, m.r3);
             && p == f.b * t.cd - f.c * t.bd + f.d * t.bc + (g.b * s.cd - g.c * s.bd + g.d * s.bc)
             && q == f.c * t.ad - f.a * t.cd - f.d * t.ac + (g.c * s.ad - g.a * s.cd - g.d * s.ac)
             && r == f.a * t.bd - f.b * t.ad + f.d * t.ab + (g.a * s.bd - g.b * s.ad + g.d * s.ab)
             && e == f.b * t.ac - f.a * t.bc - f.c * t.ab + (g.b * s.ac - g.a * s.bc - g.c * s.ab)
    ensures var k := CofactorAndDet(m).0; var col := Vec(x, y, z, w);
            && Dot(col, Column(k, 0)) == p && Dot(col, Column(k, 1)) == q
            && Dot(col, Column(k, 2)) == r && Dot(col, Column(k, 3)) == e
  {
    var s, t := Wedge(m.r0, m.r1), Wedge(m.r2, m.r3);
    Collect(x, y, m.r0, m.r1, t, f);
    Collect(z, w, m.r2, m.r3, s, g);
  }

  lemma Collect(x: int, y: int, u: Vec, v: Vec, t: Minors, f: Minors')
    requires f == Minors'(x * v.a - y * u.a, x * v.b - y * u.b, x * v.c - y * u.c, x * v.d - y * u.d)
    ensures var p := Contract(v, t); var q := Neg(Contract(u, t));
            && x * p.a + y * q.a == f.b * t.cd - f.c * t.bd + f.d * t.bc
            && x * p.b + y * q.b == f.c * t.ad - f.a * t.cd - f.d * t.ac
            && x * p.c + y * q.c == f.a * t.bd - f.b * t.ad + f.d * t.ab
            && x * p.d + y * q.d == f.b * t.ac - f.a * t.bc - f.c * t.ab
  {
    CollectRaw(x, y, v.b, u.b, t.cd, v.c, u.c, t.bd, v.d, u.d, t.bc, f.b, f.c, f.d);
    CollectRaw'(x, y, v.c, u.c, t.ad, v.a, u.a, t.cd, v.d, u.d, t.ac, f.c, f.a, f.d);
    CollectRaw(x, y, v.a, u.a, t.bd, v.b, u.b, t.ad, v.d, u.d, t.ab, f.a, f.b, f.d);
    CollectRaw'(x, y, v.b, u.b, t.ac, v.a, u.a, t.bc, v.c, u.c, t.ab, f.b, f.a, f.c);
  }

  lemma CollectRaw(x: int, y: int, f: int, f': int, p: int, g: int, g': int, q: int, h: int, h': int, r: int,
                   i: int, j: int, k: int)
    requires i == x * f - y * f' && j == x * g - y * g' && k == x * h - y * h'
    ensures x * (f * p - g * q + h * r) + y * -(f' * p - g' * q + h' * r) == i * p - j * q + k * r
  {
    Distribute(x, f, p, g, q, h, r);
    Distribute(y, f', p, g', q, h', r);
    MulDiff(x * f, y * f', p);
    MulDiff(x * g, y * g', q);
    MulDiff(x * h, y * h', r);
  }

  lemma CollectRaw'(x: int, y: int, f: int, f': int, p: int, g: int, g': int, q: int, h: int, h': int, r: int,
                    i: int, j: int, k: int)
    requires i == x * f - y * f' && j == x * g - y * g' && k == x * h - y * h'
    ensures x * (f * p - g * q - h * r) + y * -(f' * p - g' * q - h' * r) == i * p - j * q - k * r
  {
    Distribute'(x, f, p, g, q, h, r);
    Distribute'(y, f', p, g', q, h', r);
    MulDiff(x * f, y * f', p);
    MulDiff(x * g, y * g', q);
    MulDiff(x * h, y * h', r);
  }

  lemma MulDiff(x: int, y: int, k: int)
    ensures (x - y) * k == x * k - y * k
  {
  }

  /** The shared-minor computation returns the transposed adjugate and the Laplace determinant. */
  lemma FastCofactors(m: Mat)
    ensures CofactorAndDet(m) == (Transpose(Adjugate(m)), Det(m))
  {
    CrossContract(m.r1, m.r2, m.r3);
    CrossContract(m.r0, m.r2, m.r3);
    CrossContract(m.r3, m.r0, m.r1);
    CrossContract(m.r2, m.r0, m.r1);
    CrossRotate(m.r0, m.r1, m.r3);
    CrossRotate(m.r0, m.r1, m.r2);
    ContractPair(m.r0, m.r1, Wedge(m.r2, m.r3));
  }

  lemma CrossContract(u: Vec, v: Vec, w: Vec)
    ensures Cross(u, v, w) == Contract(u, Wedge(v, w))
  {
  }

  lemma CrossRotate(u: Vec, v: Vec, w: Vec)
    ensures Cross(u, v, w) == Cross(w, u, v)
  {
    RotateRaw(u.b, u.c, u.d, v.b, v.c, v.d, w.b, w.c, w.d);
    RotateRaw(u.a, u.c, u.d, v.a, v.c, v.d, w.a, w.c, w.d);
    RotateRaw(u.a, u.b, u.d, v.a, v.b, v.d, w.a, w.b, w.d);
    RotateRaw(u.a, u.b, u.c, v.a, v.b, v.c, w.a, w.b, w.c);
  }

  lemma RotateRaw(u0: int, u1: int, u2: int, v0: int, v1: int, v2: int, w0: int, w1: int, w2: int)
    ensures Minor3(u0, u1, u2, v0, v1, v2, w0, w1, w2) == Minor3(w0, w1, w2, u0, u1, u2, v0, v1, v2)
  {
    Distribute(u0, v1, w2, v2, w1, 0, 0);
    Distribute(u1, v0, w2, v2, w0, 0, 0);
    Distribute(u2, v0, w1, v1, w0, 0, 0);
    Distribute(w0, u1, v2, u2, v1, 0, 0);
    Distribute(w1, u0, v2, u2, v0, 0, 0);
    Distribute(w2, u0, v1, u1, v0, 0, 0);
  }

  /** A matrix times a vector combines the columns. */
  lemma ColumnCombination(m: Mat, v: Vec)
    ensures Eval(m, v) == Add(Add(Scale(v.a, Column(m, 0)), Scale(v.b, Column(m, 1))),
                              Add(Scale(v.c, Column(m, 2)), Scale(v.d, Column(m, 3))))
  {
    RowCombination(Transpose(m), v);
  }

  lemma EvalCombination(m: Mat, p: Vec, q: Vec, r: Vec, s: Vec, v: Vec)
    ensures Eval(m, Add(Add(Scale(v.a, p), Scale(v.b, q)), Add(Scale(v.c, r), Scale(v.d, s))))
         == Add(Add(Scale(v.a, Eval(m, p)), Scale(v.b, Eval(m, q))),
                Add(Scale(v.c, Eval(m, r)), Scale(v.d, Eval(m, s))))
  {
    EvalLinear(m, p, p, v.a);
    EvalLinear(m, q, q, v.b);
    EvalLinear(m, r, r, v.c);
    EvalLinear(m, s, s, v.d);
    EvalLinear(m, Scale(v.a, p), Scale(v.b, q), 0);
    EvalLinear(m, Scale(v.c, r), Scale(v.d, s), 0);
    EvalLinear(m, Add(Scale(v.a, p), Scale(v.b, q)), Add(Scale(v.c, r), Scale(v.d, s)), 0);
  }

  /** The adjugate is a two-sided inverse up to the determinant. */
  lemma AdjugateInverts(m: Mat, v: Vec)
    ensures Eval(m, Eval(Adjugate(m), v)) == Scale(Det(m), v)
    ensures Eval(Adjugate(m), Eval(m, v)) == Scale(Det(m), v)
  {
    RightInverse(m, v);
    LeftInverse(m, v);
  }

  lemma RightInverse(m: Mat, v: Vec)
    ensures Eval(m, Eval(Adjugate(m), v)) == Scale(Det(m), v)
  {
    FastCofactors(m);
    var (k, det) := CofactorAndDet(m);
    CofactorRows(m);
    RowCombination(k, v);
    EvalCombination(m, k.r0, k.r1, k.r2, k.r3, v);
    UnitCombination(det, v);
  }

  lemma LeftInverse(m: Mat, v: Vec)
    ensures Eval(Adjugate(m), Eval(m, v)) == Scale(Det(m), v)
  {
    FastCofactors(m);
    var (k, det) := CofactorAndDet(m);
    CofactorColumns(m);
    var w := Eval(m, v);
    LeftEntry(m, Column(k, 0), det, v, 0);
    LeftEntry(m, Column(k, 1), det, v, 1);
    LeftEntry(m, Column(k, 2), det, v, 2);
    LeftEntry(m, Column(k, 3), det, v, 3);
    assert Adjugate(m) == Mat(Column(k, 0), Column(k, 1), Column(k, 2), Column(k, 3));
  }

  lemma LeftEntry(m: Mat, col: Vec, det: int, v: Vec, j: nat)
    requires j < 4 && EvalLeft(m, col) == Scale(det, Unit(j))
    ensures Dot(col, Eval(m, v)) == det * At(v, j)
  {
    DotTranspose(m, col, v);
    DotLinear(Unit(j), v, v, det);
    DotUnit(j, v);
  }

  lemma DotUnit(j: nat, v: Vec)
    requires j < 4
    ensures Dot(Unit(j), v) == At(v, j)
  {
  }

  lemma UnitCombination(k: int, v: Vec)
    ensures Add(Add(Scale(v.a, Scale(k, Unit(0))), Scale(v.b, Scale(k, Unit(1)))),
                Add(Scale(v.c, Scale(k, Unit(2))), Scale(v.d, Scale(k, Unit(3))))) == Scale(k, v)
  {
  }

  // ----- the product rule -----

  function Combine(b: Mat, s: Minors): Minors {
    var p, q, r := Wedge(b.r0, b.r1), Wedge(b.r0, b.r2), Wedge(b.r0, b.r3);
    var x, y, z := Wedge(b.r1, b.r2), Wedge(b.r1, b.r3), Wedge(b.r2, b.r3);
    PlusMinors(PlusMinors(PlusMinors(ScaleMinors(s.ab, p), ScaleMinors(s.ac, q)),
                          PlusMinors(ScaleMinors(s.ad, r), ScaleMinors(s.bc, x))),
               PlusMinors(ScaleMinors(s.bd, y), ScaleMinors(s.cd, z)))
  }

  function PlusMinors(s: Minors, t: Minors): Minors {
    Minors(s.ab + t.ab, s.ac + t.ac, s.ad + t.ad, s.bc + t.bc, s.bd + t.bd, s.cd + t.cd)
  }

  function ScaleMinors(k: int, s: Minors): Minors {
    Minors(k * s.ab, k * s.ac, k * s.ad, k * s.bc, k * s.bd, k * s.cd)
  }

  /** Binet's formula for 2x2 minors of a product. */
  lemma WedgeOfProduct(b: Mat, u: Vec, v: Vec)
    ensures Wedge(EvalLeft(b, u), EvalLeft(b, v)) == Combine(b, Wedge(u, v))
  {
    var n := Transpose(b);
    Binet(u, v, n.r0, n.r1);
    Binet(u, v, n.r0, n.r2);
    Binet(u, v, n.r0, n.r3);
    Binet(u, v, n.r1, n.r2);
    Binet(u, v, n.r1, n.r3);
    Binet(u, v, n.r2, n.r3);
  }

  lemma Binet(u: Vec, v: Vec, x: Vec, y: Vec)
    ensures Dot(x, u) * Dot(y, v) - Dot(y, u) * Dot(x, v)
         == (u.a * v.b - u.b * v.a) * (x.a * y.b - y.a * x.b)
          + (u.a * v.c - u.c * v.a) * (x.a * y.c - y.a * x.c)
          + (u.a * v.d - u.d * v.a) * (x.a * y.d - y.a * x.d)
          + (u.b * v.c - u.c * v.b) * (x.b * y.c - y.b * x.c)
          + (u.b * v.d - u.d * v.b) * (x.b * y.d - y.b * x.d)
          + (u.c * v.d - u.d * v.c) * (x.c * y.d - y.c * x.d)
  {
    Sixteen(x.a * u.a, x.b * u.b, x.c * u.c, x.d * u.d, y.a * v.a, y.b * v.b, y.c * v.c, y.d * v.d);
    Sixteen(y.a * u.a, y.b * u.b, y.c * u.c, y.d * u.d, x.a * v.a, x.b * v.b, x.c * v.c, x.d * v.d);
    BinetTerm(u.a, v.a, x.a, y.a, u.b, v.b, x.b, y.b);
    BinetTerm(u.a, v.a, x.a, y.a, u.c, v.c, x.c, y.c);
    BinetTerm(u.a, v.a, x.a, y.a, u.d, v.d, x.d, y.d);
    BinetTerm(u.b, v.b, x.b, y.b, u.c, v.c, x.c, y.c);
    BinetTerm(u.b, v.b, x.b, y.b, u.d, v.d, x.d, y.d);
    BinetTerm(u.c, v.c, x.c, y.c, u.d, v.d, x.d, y.d);
    BinetTerm(u.a, v.a, x.a, y.a, u.a, v.a, x.a, y.a);
    BinetTerm(u.b, v.b, x.b, y.b, u.b, v.b, x.b, y.b);
    BinetTerm(u.c, v.c, x.c, y.c, u.c, v.c, x.c, y.c);
    BinetTerm(u.d, v.d, x.d, y.d, u.d, v.d, x.d, y.d);
  }

  lemma Sixteen(a: int, b: int, c: int, d: int, e: int, f: int, g: int, h: int)
    ensures (a + b + c + d) * (e + f + g + h)
         == a * e + a * f + a * g + a * h + b * e + b * f + b * g + b * h
          + c * e + c * f + c * g + c * h + d * e + d * f + d * g + d * h
  {
  }

  lemma BinetTerm(u: int, v: int, x: int, y: int, u': int, v': int, x': int, y': int)
    ensures (u * v' - u' * v) * (x * y' - y * x')
         == (x * u) * (y' * v') - (y * u) * (x' * v')
          - (y' * u') * (x * v) + (x' * u') * (y * v)
  {
  }

  lemma PairPlus(s: Minors, t: Minors, w: Minors)
    ensures Pair(PlusMinors(s, t), w) == Pair(s, w) + Pair(t, w)
  {
  }

  lemma PairScale(k: int, s: Minors, w: Minors)
    ensures Pair(ScaleMinors(k, s), w) == k * Pair(s, w)
  {
    ScaleThree(k, s.ab, w.cd, s.ac, w.bd, s.ad, w.bc);
    ScaleThree(k, s.bc, w.ad, s.bd, w.ac, s.cd, w.ab);
    ScaleSum(k, s.ab * w.cd - s.ac * w.bd + s.ad * w.bc, s.bc * w.ad - s.bd * w.ac + s.cd * w.ab);
  }

  lemma ScaleThree(k: int, f: int, p: int, g: int, q: int, h: int, r: int)
    ensures (k * f) * p - (k * g) * q + (k * h) * r == k * (f * p - g * q + h * r)
  {
  }

  lemma ScaleSum(k: int, x: int, y: int)
    ensures k * (x + y) == k * x + k * y
  {
  }

  lemma PairCombine(b: Mat, s: Minors, w: Minors)
    ensures Pair(Combine(b, s), w)
         == s.ab * Pair(Wedge(b.r0, b.r1), w) + s.ac * Pair(Wedge(b.r0, b.r2), w) + s.ad * Pair(Wedge(b.r0, b.r3), w)
          + s.bc * Pair(Wedge(b.r1, b.r2), w) + s.bd * Pair(Wedge(b.r1, b.r3), w) + s.cd * Pair(Wedge(b.r2, b.r3), w)
  {
    var p, q, r := ScaleMinors(s.ab, Wedge(b.r0, b.r1)), ScaleMinors(s.ac, Wedge(b.r0, b.r2)), ScaleMinors(s.ad, Wedge(b.r0, b.r3));
    var x, y, z := ScaleMinors(s.bc, Wedge(b.r1, b.r2)), ScaleMinors(s.bd, Wedge(b.r1, b.r3)), ScaleMinors(s.cd, Wedge(b.r2, b.r3));
    PairPlus(PlusMinors(PlusMinors(p, q), PlusMinors(r, x)), PlusMinors(y, z), w);
    PairPlus(PlusMinors(p, q), PlusMinors(r, x), w);
    PairPlus(p, q, w);
    PairPlus(r, x, w);
    PairPlus(y, z, w);
    PairScale(s.ab, Wedge(b.r0, b.r1), w);
    PairScale(s.ac, Wedge(b.r0, b.r2), w);
    PairScale(s.ad, Wedge(b.r0, b.r3), w);
    PairScale(s.bc, Wedge(b.r1, b.r2), w);
    PairScale(s.bd, Wedge(b.r1, b.r3), w);
    PairScale(s.cd, Wedge(b.r2, b.r3), w);
  }

  /** Complementary row pairs give the determinant up to sign, overlapping ones give zero. */
  lemma PairTable(b: Mat)
    ensures var det := Pair(Wedge(b.r0, b.r1), Wedge(b.r2, b.r3));
            && Pair(Wedge(b.r0, b.r2), Wedge(b.r1, b.r3)) == -det
            && Pair(Wedge(b.r0, b.r3), Wedge(b.r1, b.r2)) == det
  {
    ExchangePair(b.r0, b.r1, b.r2, b.r3);
    ExchangePair(b.r0, b.r1, b.r3, b.r2);
    PairSigns(b.r2, b.r3, Wedge(b.r0, b.r1));
    PairSigns(b.r2, b.r1, Wedge(b.r0, b.r3));
  }

  /** Exchanging a row of the first pair with one of the second flips the sign. */
  lemma ExchangePair(u: Vec, v: Vec, x: Vec, y: Vec)
    ensures Pair(Wedge(u, x), Wedge(v, y)) == -Pair(Wedge(u, v), Wedge(x, y))
  {
    ContractPair(u, v, Wedge(x, y));
    ContractPair(u, x, Wedge(v, y));
    CrossContract(v, x, y);
    CrossContract(x, v, y);
    CrossRotate(v, x, y);
    CrossSwap(x, v, y);
    NegDot(u, Cross(v, x, y));
  }

  lemma CrossSwap(u: Vec, v: Vec, w: Vec)
    ensures Cross(v, u, w) == Neg(Cross(u, v, w))
  {
    SwapRaw(u.b, u.c, u.d, v.b, v.c, v.d, w.b, w.c, w.d);
    SwapRaw(u.a, u.c, u.d, v.a, v.c, v.d, w.a, w.c, w.d);
    SwapRaw(u.a, u.b, u.d, v.a, v.b, v.d, w.a, w.b, w.d);
    SwapRaw(u.a, u.b, u.c, v.a, v.b, v.c, w.a, w.b, w.c);
  }

  lemma SwapRaw(u0: int, u1: int, u2: int, v0: int, v1: int, v2: int, w0: int, w1: int, w2: int)
    ensures Minor3(u0, u1, u2, v0, v1, v2, w0, w1, w2) == -Minor3(v0, v1, v2, u0, u1, u2, w0, w1, w2)
  {
    Distribute(u0, v1, w2, v2, w1, 0, 0);
    Distribute(u1, v0, w2, v2, w0, 0, 0);
    Distribute(u2, v0, w1, v1, w0, 0, 0);
    Distribute(v0, u1, w2, u2, w1, 0, 0);
    Distribute(v1, u0, w2, u2, w0, 0, 0);
    Distribute(v2, u0, w1, u1, w0, 0, 0);
  }

  lemma SharedZero(p: Vec, q: Vec, r: Vec)
    ensures Pair(Wedge(p, q), Wedge(p, r)) == 0 && Pair(Wedge(p, q), Wedge(r, p)) == 0
    ensures Pair(Wedge(q, p), Wedge(p, r)) == 0 && Pair(Wedge(q, p), Wedge(r, p)) == 0
  {
    PairShared(p, q, r);
    PairSigns(p, q, Wedge(p, r));
    PairSigns(p, r, Wedge(p, q));
    PairSigns(p, q, Wedge(r, p));
  }

  /** What a combination of row pairs gives against one row pair: only the complement survives. */
  lemma PairWithRows(b: Mat, s: Minors)
    ensures var det := Pair(Wedge(b.r0, b.r1), Wedge(b.r2, b.r3));
            && Pair(Combine(b, s), Wedge(b.r0, b.r1)) == s.cd * det
            && Pair(Combine(b, s), Wedge(b.r0, b.r2)) == -(s.bd * det)
            && Pair(Combine(b, s), Wedge(b.r0, b.r3)) == s.bc * det
            && Pair(Combine(b, s), Wedge(b.r1, b.r2)) == s.ad * det
            && Pair(Combine(b, s), Wedge(b.r1, b.r3)) == -(s.ac * det)
            && Pair(Combine(b, s), Wedge(b.r2, b.r3)) == s.ab * det
  {
    PairWithRowAB(b, s);
    PairWithRowAC(b, s);
    PairWithRowAD(b, s);
    PairWithRowBC(b, s);
    PairWithRowBD(b, s);
    PairWithRowCD(b, s);
  }

  lemma PairWithRowAB(b: Mat, s: Minors)
    ensures var det := Pair(Wedge(b.r0, b.r1), Wedge(b.r2, b.r3));
            Pair(Combine(b, s), Wedge(b.r0, b.r1)) == s.cd * det
  {
    PairTable(b);
    PairCombine(b, s, Wedge(b.r0, b.r1));
    PairFlip(Wedge(b.r0, b.r1), Wedge(b.r2, b.r3));
    SharedZero(b.r0, b.r1, b.r1);
    SharedZero(b.r0, b.r2, b.r1);
    SharedZero(b.r0, b.r3, b.r1);
    SharedZero(b.r1, b.r2, b.r0);
    SharedZero(b.r1, b.r3, b.r0);
  }

  lemma PairWithRowAC(b: Mat, s: Minors)
    ensures var det := Pair(Wedge(b.r0, b.r1), Wedge(b.r2, b.r3));
            Pair(Combine(b, s), Wedge(b.r0, b.r2)) == -(s.bd * det)
  {
    MulNeg(s.bd, Pair(Wedge(b.r0, b.r1), Wedge(b.r2, b.r3)));
    PairTable(b);
    PairCombine(b, s, Wedge(b.r0, b.r2));
    PairFlip(Wedge(b.r0, b.r2), Wedge(b.r1, b.r3));
    SharedZero(b.r0, b.r2, b.r2);
    SharedZero(b.r0, b.r1, b.r2);
    SharedZero(b.r0, b.r3, b.r2);
    SharedZero(b.r2, b.r1, b.r0);
    SharedZero(b.r2, b.r3, b.r0);
  }

  lemma PairWithRowAD(b: Mat, s: Minors)
    ensures var det := Pair(Wedge(b.r0, b.r1), Wedge(b.r2, b.r3));
            Pair(Combine(b, s), Wedge(b.r0, b.r3)) == s.bc * det
  {
    PairTable(b);
    PairCombine(b, s, Wedge(b.r0, b.r3));
    PairFlip(Wedge(b.r0, b.r3), Wedge(b.r1, b.r2));
    SharedZero(b.r0, b.r3, b.r3);
    SharedZero(b.r0, b.r1, b.r3);
    SharedZero(b.r0, b.r2, b.r3);
    SharedZero(b.r3, b.r1, b.r0);
    SharedZero(b.r3, b.r2, b.r0);
  }

  lemma PairWithRowBC(b: Mat, s: Minors)
    ensures var det := Pair(Wedge(b.r0, b.r1), Wedge(b.r2, b.r3));
            Pair(Combine(b, s), Wedge(b.r1, b.r2)) == s.ad * det
  {
    PairTable(b);
    PairCombine(b, s, Wedge(b.r1, b.r2));
    PairFlip(Wedge(b.r1, b.r2), Wedge(b.r0, b.r3));
    SharedZero(b.r1, b.r2, b.r2);
    SharedZero(b.r1, b.r0, b.r2);
    SharedZero(b.r1, b.r3, b.r2);
    SharedZero(b.r2, b.r0, b.r1);
    SharedZero(b.r2, b.r3, b.r1);
  }

  lemma PairWithRowBD(b: Mat, s: Minors)
    ensures var det := Pair(Wedge(b.r0, b.r1), Wedge(b.r2, b.r3));
            Pair(Combine(b, s), Wedge(b.r1, b.r3)) == -(s.ac * det)
  {
    MulNeg(s.ac, Pair(Wedge(b.r0, b.r1), Wedge(b.r2, b.r3)));
    PairTable(b);
    PairCombine(b, s, Wedge(b.r1, b.r3));
    PairFlip(Wedge(b.r1, b.r3), Wedge(b.r0, b.r2));
    SharedZero(b.r1, b.r3, b.r3);
    SharedZero(b.r1, b.r0, b.r3);
    SharedZero(b.r1, b.r2, b.r3);
    SharedZero(b.r3, b.r0, b.r1);
    SharedZero(b.r3, b.r2, b.r1);
  }

  lemma PairWithRowCD(b: Mat, s: Minors)
    ensures var det := Pair(Wedge(b.r0, b.r1), Wedge(b.r2, b.r3));
            Pair(Combine(b, s), Wedge(b.r2, b.r3)) == s.ab * det
  {
    PairTable(b);
    PairCombine(b, s, Wedge(b.r2, b.r3));
    PairFlip(Wedge(b.r2, b.r3), Wedge(b.r0, b.r1));
    SharedZero(b.r2, b.r3, b.r3);
    SharedZero(b.r2, b.r0, b.r3);
    SharedZero(b.r2, b.r1, b.r3);
    SharedZero(b.r3, b.r0, b.r2);
    SharedZero(b.r3, b.r1, b.r2);
  }

  /** The determinant is multiplicative. */
  lemma ProductRule(a: Mat, b: Mat)
    ensures Det(MatMul(a, b)) == Det(a) * Det(b)
  {
    FastCofactors(a);
    FastCofactors(b);
    FastCofactors(MatMul(a, b));
    WedgeOfProduct(b, a.r0, a.r1);
    WedgeOfProduct(b, a.r2, a.r3);
    CombinedPair(b, Wedge(a.r0, a.r1), Wedge(a.r2, a.r3));
  }

  lemma CombinedPair(b: Mat, s: Minors, t: Minors)
    ensures Pair(Combine(b, s), Combine(b, t)) == Pair(s, t) * Pair(Wedge(b.r0, b.r1), Wedge(b.r2, b.r3))
  {
    var c, det := Combine(b, s), Pair(Wedge(b.r0, b.r1), Wedge(b.r2, b.r3));
    PairFlip(c, Combine(b, t));
    PairCombine(b, t, c);
    PairWithRows(b, s);
    PairFlip(c, Wedge(b.r0, b.r1));
    PairFlip(c, Wedge(b.r0, b.r2));
    PairFlip(c, Wedge(b.r0, b.r3));
    PairFlip(c, Wedge(b.r1, b.r2));
    PairFlip(c, Wedge(b.r1, b.r3));
    PairFlip(c, Wedge(b.r2, b.r3));
    Gather(t.ab, s.cd, t.ac, s.bd, t.ad, s.bc, t.bc, s.ad, t.bd, s.ac, t.cd, s.ab, det);
  }

  lemma MulNeg(x: int, y: int)
    ensures x * -y == -(x * y)
  {
  }

  lemma PairFlip(s: Minors, t: Minors)
    ensures Pair(s, t) == Pair(t, s)
  {
  }

  lemma Gather(a: int, a': int, b: int, b': int, c: int, c': int, d: int, d': int, e: int, e': int, f: int, f': int, k: int)
    ensures a * (a' * k) + b * -(b' * k) + c * (c' * k) + d * (d' * k) + e * -(e' * k) + f * (f' * k)
         == (a * a' - b * b' + c * c' + d * d' - e * e' + f * f') * k
  {
  }

  // ----- transposition and invertibility -----

  lemma DetTranspose(m: Mat)
    ensures Det(Transpose(m)) == Det(m)
  {
    var n := Transpose(m);
    var (k, det) := CofactorAndDet(m);
    FastCofactors(m);
    CofactorColumns(m);
    Minor3Transpose(m.r1.b, m.r1.c, m.r1.d, m.r2.b, m.r2.c, m.r2.d, m.r3.b, m.r3.c, m.r3.d);
    Minor3Transpose(m.r0.b, m.r0.c, m.r0.d, m.r2.b, m.r2.c, m.r2.d, m.r3.b, m.r3.c, m.r3.d);
    Minor3Transpose(m.r0.b, m.r0.c, m.r0.d, m.r1.b, m.r1.c, m.r1.d, m.r3.b, m.r3.c, m.r3.d);
    Minor3Transpose(m.r0.b, m.r0.c, m.r0.d, m.r1.b, m.r1.c, m.r1.d, m.r2.b, m.r2.c, m.r2.d);
    assert Column(k, 0) == Cross(n.r1, n.r2, n.r3);
    assert Dot(Column(m, 0), Column(k, 0)) == det;
  }

  lemma Minor3Transpose(u0: int, u1: int, u2: int, v0: int, v1: int, v2: int, w0: int, w1: int, w2: int)
    ensures Minor3(u0, u1, u2, v0, v1, v2, w0, w1, w2) == Minor3(u0, v0, w0, u1, v1, w1, u2, v2, w2)
  {
    Distribute(v0, u1, w2, u2, w1, 0, 0);
    Distribute(w0, u1, v2, u2, v1, 0, 0);
    Distribute(u1, v0, w2, v2, w0, 0, 0);
    Distribute(u2, v0, w1, v1, w0, 0, 0);
  }

  function Diagonal(k: int): Mat {
    Mat(Scale(k, Unit(0)), Scale(k, Unit(1)), Scale(k, Unit(2)), Scale(k, Unit(3)))
  }

  lemma DiagonalDet(k: int)
    requires k != 0
    ensures Det(Diagonal(k)) != 0
  {
    var c := Cross(Scale(k, Unit(1)), Scale(k, Unit(2)), Scale(k, Unit(3)));
    assert c.a == k * (k * k) && c.b == c.c == c.d == 0;
    assert k * k != 0;
    assert k * (k * k) != 0;
    assert k * (k * (k * k)) != 0;
  }

  /** A matrix whose column span contains a non-zero multiple of every unit vector is invertible. */
  lemma SpanningIsInvertible(m: Mat, k: int, p: Vec, q: Vec, r: Vec, s: Vec)
    requires k != 0
    requires Eval(m, p) == Scale(k, Unit(0)) && Eval(m, q) == Scale(k, Unit(1))
    requires Eval(m, r) == Scale(k, Unit(2)) && Eval(m, s) == Scale(k, Unit(3))
    ensures Det(m) != 0
  {
    assert Transpose(Transpose(m)) == m;
    assert MatMul(Mat(p, q, r, s), Transpose(m)) == Diagonal(k);
    ProductRule(Mat(p, q, r, s), Transpose(m));
    DiagonalDet(k);
    DetTranspose(m);
  }

  lemma EvalUnit(m: Mat, c: nat)
    requires c < 4
    ensures Eval(m, Unit(c)) == Column(m, c)
  {
  }

  lemma EvalZero(m: Mat)
    ensures Eval(m, ZERO) == ZERO
  {
  }

  lemma EvalScaleMat(k: int, m: Mat, c: Vec)
    ensures Eval(ScaleMat(k, m), c) == Scale(k, Eval(m, c))
  {
    DotLinear(m.r0, c, c, k);
    DotLinear(m.r1, c, c, k);
    DotLinear(m.r2, c, c, k);
    DotLinear(m.r3, c, c, k);
  }

  lemma TransposeTwice(m: Mat)
    ensures Transpose(Transpose(m)) == m
  {
  }

  /** The transposed adjugate inverts the transpose. */
  lemma TransposeInverse(m: Mat, v: Vec)
    ensures EvalLeft(m, Eval(Transpose(Adjugate(m)), v)) == Scale(Det(m), v)
    ensures Eval(Transpose(Adjugate(m)), EvalLeft(m, v)) == Scale(Det(m), v)
  {
    forall i | 0 <= i < 4
      ensures At(EvalLeft(m, Eval(Transpose(Adjugate(m)), v)), i) == At(Scale(Det(m), v), i)
      ensures At(Eval(Transpose(Adjugate(m)), EvalLeft(m, v)), i) == At(Scale(Det(m), v), i)
    {
      TransposeInverseAt(m, v, i);
    }
    Extensional(EvalLeft(m, Eval(Transpose(Adjugate(m)), v)), Scale(Det(m), v));
    Extensional(Eval(Transpose(Adjugate(m)), EvalLeft(m, v)), Scale(Det(m), v));
  }

  lemma Extensional(u: Vec, v: Vec)
    requires forall i | 0 <= i < 4 :: At(u, i) == At(v, i)
    ensures u == v
  {
    assert At(u, 0) == At(v, 0) && At(u, 1) == At(v, 1) && At(u, 2) == At(v, 2) && At(u, 3) == At(v, 3);
  }

  lemma TransposeInverseAt(m: Mat, v: Vec, i: nat)
    requires i < 4
    ensures At(EvalLeft(m, Eval(Transpose(Adjugate(m)), v)), i) == Det(m) * At(v, i)
    ensures At(Eval(Transpose(Adjugate(m)), EvalLeft(m, v)), i) == Det(m) * At(v, i)
  {
    var adj, e := Adjugate(m), Unit(i);
    AdjugateInverts(m, e);
    TransposeTwice(adj);
    TransposeTwice(m);
    // <e, M^T A^T v> = <M e, A^T v> = <A M e, v>
    var x := EvalLeft(m, Eval(Transpose(adj), v));
    DotUnit(i, x);
    DotTranspose(Transpose(m), e, Eval(Transpose(adj), v));
    DotTranspose(Transpose(adj), Eval(m, e), v);
    // <e, A^T M^T v> = <A e, M^T v> = <M A e, v>
    var y := Eval(Transpose(adj), EvalLeft(m, v));
    DotUnit(i, y);
    DotTranspose(Transpose(adj), e, EvalLeft(m, v));
    DotTranspose(Transpose(m), Eval(adj, e), v);
    DotLinear(e, v, v, Det(m));
    DotUnit(i, v);
  }

  lemma TransposeScale(k: int, m: Mat)
    ensures Transpose(ScaleMat(k, m)) == ScaleMat(k, Transpose(m))
  {
  }
}
