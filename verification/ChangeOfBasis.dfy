/** Change-of-basis matrices modulo 2^e: inversion, and application to a basis given by three x-coordinates. */
module ChangeOfBasis {
  import opened Arith
  import opened Options
  import opened Bytes
  import opened Modular
  import opened Matrices2
  import opened Groups
  import opened XOnly
  import opened Biscalar

  // ----- inversion -----

  /** The inverse modulo 2^k of the forward matrix, by adjugate and Hensel inverse of the determinant. */
  method FromBasesInvert(forward: Mat2, k: nat) returns (r: Option<Mat2>)
    requires k >= 1 && Reduced2(forward, Pow2(k))
    ensures r.None? <==> Det2(forward) % 2 == 0
    ensures r.Some? ==> Reduced2(r.value, Pow2(k)) && Cong2(Times(forward, r.value), I2, Pow2(k))
    ensures r.Some? ==> Cong2(Times(r.value, forward), I2, Pow2(k))
  {
    var ad := MulMod2k(forward.a, forward.d, k);
    var bc := MulMod2k(forward.b, forward.c, k);
    var det := SubMod2k(ad, bc, k);
    DetResidue(forward, ad, bc, det, k);
    var detInv := InvMod2k(det, k);
    if detInv.None? {
      return None;
    }
    var d := detInv.value;
    var negB := SubMod2k(0, forward.b, k);
    var negC := SubMod2k(0, forward.c, k);
    var inverse := Mat2(MulMod2k(forward.d, d, k), MulMod2k(negB, d, k), MulMod2k(negC, d, k), MulMod2k(forward.a, d, k));
    ScaledAdjugate(forward, negB, negC, d, inverse, Pow2(k));
    AdjugateInverts2(forward, d, det, inverse, Pow2(k));
    r := Some(inverse);
  }

  lemma DetResidue(m: Mat2, ad: int, bc: int, det: int, k: nat)
    requires k >= 1
    requires Cong(ad, m.a * m.d, Pow2(k)) && Cong(bc, m.b * m.c, Pow2(k)) && Cong(det, ad - bc, Pow2(k))
    ensures Cong(det, Det2(m), Pow2(k)) && det % 2 == Det2(m) % 2
  {
    CongAdd(ad, m.a * m.d, bc, m.b * m.c, Pow2(k));
    CongTrans(det, ad - bc, Det2(m), Pow2(k));
    CongDivisor(det, Det2(m), 2, Pow2(k - 1));
    ModEqual(det, Det2(m), 2);
  }

  lemma ScaledAdjugate(m: Mat2, negB: int, negC: int, d: int, inverse: Mat2, n: int)
    requires Cong(negB, 0 - m.b, n) && Cong(negC, 0 - m.c, n)
    requires Cong(inverse.a, m.d * d, n) && Cong(inverse.d, m.a * d, n)
    requires Cong(inverse.b, negB * d, n) && Cong(inverse.c, negC * d, n)
    ensures Cong2(inverse, ScaleBy(d, Adj2(m)), n)
  {
    CongRefl(m.a, n);
    CongRefl(m.d, n);
    ScaledEntry(inverse.a, m.d, m.d, d, n);
    ScaledEntry(inverse.b, negB, -m.b, d, n);
    ScaledEntry(inverse.c, negC, -m.c, d, n);
    ScaledEntry(inverse.d, m.a, m.a, d, n);
  }

  lemma ScaledEntry(e: int, x: int, x': int, d: int, n: int)
    requires Cong(e, x * d, n) && Cong(x, x', n)
    ensures Cong(e, d * x', n)
  {
    CongRefl(d, n);
    CongMul(x, x', d, d, n);
    CongTrans(e, x * d, x' * d, n);
  }

  lemma AdjugateInverts2(m: Mat2, d: int, det: int, inverse: Mat2, n: int)
    requires Cong2(inverse, ScaleBy(d, Adj2(m)), n) && Cong(det, Det2(m), n) && Cong(det * d, 1, n)
    ensures Cong2(Times(m, inverse), I2, n) && Cong2(Times(inverse, m), I2, n)
  {
    var adj := Adj2(m);
    Cong2Refl(m, n);
    Cong2Times(m, m, inverse, ScaleBy(d, adj), n);
    Cong2Times(inverse, ScaleBy(d, adj), m, m, n);
    ScaleTimes(d, m, adj);
    ScaleTimes(d, adj, m);
    AdjTimes(m);
    UnitScale(d, Det2(m), det, n);
    var unit := ScaleBy(d, ScaleBy(Det2(m), I2));
    Cong2Trans(Times(m, inverse), unit, I2, n);
    Cong2Trans(Times(inverse, m), unit, I2, n);
  }

  lemma UnitScale(d: int, k: int, det: int, n: int)
    requires Cong(det, k, n) && Cong(det * d, 1, n)
    ensures Cong2(ScaleBy(d, ScaleBy(k, I2)), I2, n)
  {
    CongRefl(0, n);
    CongRefl(d, n);
    CongSym(det, k, n);
    CongMul(d, d, k, det, n);
    CongTrans(d * k, det * d, 1, n);
    assert d * (k * 1) == d * k && d * (k * 0) == 0;
  }

  // ----- application -----

  /** The triple stands for the pair (p, s): first point, second point, and their difference in the slot Q. */
  ghost predicate Stands<G, X>(c: Curve<G, X>, b: TorsionBasis<X>, p: G, s: G) {
    b.P == c.x(p) && b.PmQ == c.x(s) && b.Q == c.x(Sub(c, p, s))
  }

  /** The columns of m as combinations of p and s. */
  ghost function Transform<G, X>(c: Curve<G, X>, g: (G, G), m: Mat2): (G, G) {
    (Pt(c, g.0, g.1, m.a, m.c), Pt(c, g.0, g.1, m.b, m.d))
  }

  /** What the ladder demands of the pair. */
  ghost predicate Usable<G, X>(c: Curve<G, X>, g: (G, G), e: nat) {
    Killed(c, g.0, g.1, Pow2(e)) && (e == 1 || RegularBasis(CoordsOf(c, g.0, g.1)))
  }

  /** What the ladder run at exponent w demands of a pair killed by 2^e. */
  ghost predicate UsableAt<G, X>(c: Curve<G, X>, g: (G, G), e: nat, w: nat) {
    e <= w && Killed(c, g.0, g.1, Pow2(e)) && (w == 1 || RegularBasis(CoordsOf(c, g.0, g.1)))
  }

  method Multiply<G(!new), X>(c: Curve<G, X>, m: Mat2, e: nat, basis: TorsionBasis<X>, ghost g: (G, G)) returns (r: TorsionBasis<X>)
    requires Lawful(c) && Stands(c, basis, g.0, g.1) && Usable(c, g, e)
    requires 1 <= e <= 248 && Reduced2(m, Pow2(e))
    ensures var h := Transform(c, g, m); Stands(c, r, h.0, h.1)
  {
    r := MultiplyAt(c, m, e, e, basis, g);
  }

  /** Entries modulo 2^e, and all three ladder runs at exponent w. */
  method MultiplyAt<G(!new), X>(c: Curve<G, X>, m: Mat2, e: nat, w: nat, basis: TorsionBasis<X>, ghost g: (G, G))
    returns (r: TorsionBasis<X>)
    requires Lawful(c) && Stands(c, basis, g.0, g.1) && UsableAt(c, g, e, w)
    requires 1 <= e <= w <= 248 && Reduced2(m, Pow2(e))
    ensures var h := Transform(c, g, m); Stands(c, r, h.0, h.1)
  {
    var i, j := DifferenceEntries(m, e);
    DifferenceColumn(c, g, m, i, j, Pow2(e));
    KilledHigher(c, g, e, w);
    var p := Column(c, m.a, m.c, w, basis, g);
    var q := Column(c, m.b, m.d, w, basis, g);
    var third := Column(c, i, j, w, basis, g);
    r := TorsionBasis(p, third, q);
    StandsFor(c, r, g, m, i, j);
  }

  lemma KilledHigher<G(!new), X>(c: Curve<G, X>, g: (G, G), e: nat, w: nat)
    requires Lawful(c) && UsableAt(c, g, e, w)
    ensures Usable(c, g, w) && Pow2(e) <= Pow2(w)
  {
    var n, k := Pow2(e), Pow2(w - e);
    Pow2Add(e, w - e);
    Grow(n, 1, k);
    MulPeriodic(c.group, g.0, n, k);
    MulPeriodic(c.group, g.1, n, k);
  }

  method DifferenceEntries(m: Mat2, e: nat) returns (i: int, j: int)
    requires Reduced2(m, Pow2(e))
    ensures 0 <= i < Pow2(e) && 0 <= j < Pow2(e) && Cong(i, m.a - m.b, Pow2(e)) && Cong(j, m.c - m.d, Pow2(e))
  {
    i, j := SubMod2k(m.a, m.b, e), SubMod2k(m.c, m.d, e);
  }

  lemma StandsFor<G, X>(c: Curve<G, X>, b: TorsionBasis<X>, g: (G, G), m: Mat2, i: int, j: int)
    requires b.P == Xpt(c, g.0, g.1, m.a, m.c) && b.PmQ == Xpt(c, g.0, g.1, m.b, m.d) && b.Q == Xpt(c, g.0, g.1, i, j)
    requires var h := Transform(c, g, m); Pt(c, g.0, g.1, i, j) == Sub(c, h.0, h.1)
    ensures var h := Transform(c, g, m); Stands(c, b, h.0, h.1)
  {
  }

  /** One ladder run: the combination with the coefficients i and j. */
  method Column<G(!new), X>(c: Curve<G, X>, i: int, j: int, e: nat, basis: TorsionBasis<X>, ghost g: (G, G)) returns (r: X)
    requires Lawful(c) && Stands(c, basis, g.0, g.1) && Usable(c, g, e)
    requires 1 <= e <= 248 && 0 <= i < Pow2(e) && 0 <= j < Pow2(e)
    ensures r == Xpt(c, g.0, g.1, i, j)
  {
    ghost var q := Sub(c, g.0, g.1);
    SubSub(c, g.0, g.1);
    UsablePair(c, g, e);
    FitsScalar(i, e);
    FitsScalar(j, e);
    r := BiscalarMul(c, basis, LeBytes(i, 32), LeBytes(j, 32), e, g.0, q);
  }

  lemma FitsScalar(i: nat, e: nat)
    requires i < Pow2(e) && e <= 248
    ensures LeNat(LeBytes(i, 32)) == i
  {
    var w := 8 * 32;
    Pow2Add(e, w - e);
    Grow(Pow2(e), 1, Pow2(w - e));
    LeBytesValue(i, 32);
  }

  lemma UsablePair<G(!new), X>(c: Curve<G, X>, g: (G, G), e: nat)
    requires Lawful(c) && Usable(c, g, e)
    ensures var q := Sub(c, g.0, g.1); Killed(c, g.0, q, Pow2(e)) && (e == 1 || LadderRegular(c, g.0, q))
  {
    DifferenceBasis(c, g.0, g.1, Pow2(e));
    SubSub(c, g.0, g.1);
    PairUnits(c, g.0, g.1);
  }

  lemma PairUnits<G(!new), X>(c: Curve<G, X>, p: G, s: G)
    requires Lawful(c)
    ensures Pt(c, p, s, 1, 0) == p && Pt(c, p, s, 0, 1) == s
    ensures Pt(c, p, s, 1, 1) == c.group.add(p, s) && Pt(c, p, s, 1, -1) == Sub(c, p, s)
  {
    PtUnits(c, p, s);
    PtAdd(c, p, s, 1, 0, 0, 1);
    PtNeg(c, p, s, 0, 1);
    PtAdd(c, p, s, 1, 0, 0, -1);
  }

  /** The third ladder run gives the difference of the first two. */
  lemma DifferenceColumn<G(!new), X>(c: Curve<G, X>, g: (G, G), m: Mat2, i: int, j: int, n: nat)
    requires Lawful(c) && Killed(c, g.0, g.1, n) && n > 0 && Cong(i, m.a - m.b, n) && Cong(j, m.c - m.d, n)
    ensures var h := Transform(c, g, m); Pt(c, g.0, g.1, i, j) == Sub(c, h.0, h.1)
  {
    PtNeg(c, g.0, g.1, m.b, m.d);
    PtAdd(c, g.0, g.1, m.a, m.c, -m.b, -m.d);
    PtCong(c, g.0, g.1, i, j, m.a - m.b, m.c - m.d, n);
  }

  lemma PtCong<G(!new), X>(c: Curve<G, X>, p: G, s: G, i: int, j: int, i': int, j': int, n: nat)
    requires Lawful(c) && Killed(c, p, s, n) && n > 0 && Cong(i, i', n) && Cong(j, j', n)
    ensures Pt(c, p, s, i, j) == Pt(c, p, s, i', j')
  {
    var t := CongElim(i, i', n);
    var u := CongElim(j, j', n);
    PtPeriodic(c, p, s, n, i', j', t, u);
  }

  // ----- composition -----

  lemma MulPt<G(!new), X>(c: Curve<G, X>, p: G, s: G, n: int, i: int, j: int)
    requires Lawful(c)
    ensures Mul(c.group, n, Pt(c, p, s, i, j)) == Pt(c, p, s, n * i, n * j)
  {
    if n >= 0 {
      MulOfPt(c, p, s, n, i, j);
    } else {
      MulOfPt(c, p, s, -n, i, j);
      MulNeg(c.group, -n, Pt(c, p, s, i, j));
      PtNeg(c, p, s, -n * i, -n * j);
      assert -(-n * i) == n * i && -(-n * j) == n * j;
    }
  }

  lemma PtOfTransform<G(!new), X>(c: Curve<G, X>, g: (G, G), m: Mat2, i: int, j: int)
    requires Lawful(c)
    ensures var h := Transform(c, g, m);
            Pt(c, h.0, h.1, i, j) == Pt(c, g.0, g.1, m.a * i + m.b * j, m.c * i + m.d * j)
  {
    MulPt(c, g.0, g.1, i, m.a, m.c);
    MulPt(c, g.0, g.1, j, m.b, m.d);
    PtAdd(c, g.0, g.1, i * m.a, i * m.c, j * m.b, j * m.d);
    assert i * m.a + j * m.b == m.a * i + m.b * j && i * m.c + j * m.d == m.c * i + m.d * j;
  }

  /** Applying one matrix after another is applying the product. */
  lemma Compose<G(!new), X>(c: Curve<G, X>, g: (G, G), m: Mat2, n: Mat2)
    requires Lawful(c)
    ensures Transform(c, Transform(c, g, m), n) == Transform(c, g, Times(m, n))
  {
    PtOfTransform(c, g, m, n.a, n.c);
    PtOfTransform(c, g, m, n.b, n.d);
  }

  /** Only the residues of the entries matter. */
  lemma TransformCong<G(!new), X>(c: Curve<G, X>, g: (G, G), m: Mat2, m': Mat2, n: nat)
    requires Lawful(c) && Killed(c, g.0, g.1, n) && n > 0 && Cong2(m, m', n)
    ensures Transform(c, g, m) == Transform(c, g, m')
  {
    PtCong(c, g.0, g.1, m.a, m.c, m'.a, m'.c, n);
    PtCong(c, g.0, g.1, m.b, m.d, m'.b, m'.d, n);
  }

  /** A matrix with an inverse takes bases to bases. */
  lemma KeepsBasis<G(!new), X>(c: Curve<G, X>, g: (G, G), m: Mat2, inverse: Mat2, n: nat)
    requires Lawful(c) && IsBasis(c, g.0, g.1, n) && n > 0 && Cong2(Times(inverse, m), I2, n)
    ensures var h := Transform(c, g, m); IsBasis(c, h.0, h.1, n)
  {
    var h := Transform(c, g, m);
    MulPt(c, g.0, g.1, n, m.a, m.c);
    MulPt(c, g.0, g.1, n, m.b, m.d);
    PtCong(c, g.0, g.1, n * m.a, n * m.c, 0, 0, n) by { CongIntro(n * m.a, 0, n, m.a); CongIntro(n * m.c, 0, n, m.c); }
    PtCong(c, g.0, g.1, n * m.b, n * m.d, 0, 0, n) by { CongIntro(n * m.b, 0, n, m.b); CongIntro(n * m.d, 0, n, m.d); }
    PtUnits(c, g.0, g.1);
    forall i: int, j: int ensures Independent(c, h.0, h.1, n, i, j) {
      var k, l := m.a * i + m.b * j, m.c * i + m.d * j;
      PtOfTransform(c, g, m, i, j);
      assert Independent(c, g.0, g.1, n, k, l);
      if Pt(c, h.0, h.1, i, j) == c.group.zero {
        SolveBack(m, inverse, i, j, k, l, n);
      }
    }
  }

  /** A vector that the matrix sends to zero is zero. */
  lemma SolveBack(m: Mat2, inverse: Mat2, i: int, j: int, k: int, l: int, n: nat)
    requires n > 0 && Cong2(Times(inverse, m), I2, n)
    requires k == m.a * i + m.b * j && l == m.c * i + m.d * j && k % n == 0 && l % n == 0
    ensures i % n == 0 && j % n == 0
  {
    var v := inverse;
    EntryAssoc(v.a, v.b, m, i, j);
    EntryAssoc(v.c, v.d, m, i, j);
    var t := Times(v, m);
    CongZero(k, n);
    CongZero(l, n);
    CongRefl(v.a, n);
    CongRefl(v.b, n);
    CongRefl(v.c, n);
    CongRefl(v.d, n);
    CongRefl(i, n);
    CongRefl(j, n);
    CongDot(v.a, v.a, k, 0, v.b, v.b, l, 0, n);
    CongDot(v.c, v.c, k, 0, v.d, v.d, l, 0, n);
    CongDot(t.a, 1, i, i, t.b, 0, j, j, n);
    CongDot(t.c, 0, i, i, t.d, 1, j, j, n);
    CongSym(t.a * i + t.b * j, i, n);
    CongSym(t.c * i + t.d * j, j, n);
    CongTrans(i, v.a * k + v.b * l, 0, n);
    CongTrans(j, v.c * k + v.d * l, 0, n);
    CongZero(i, n);
    CongZero(j, n);
  }

  /** A point of a basis and the difference of the two are a basis. */
  lemma DifferenceIsBasis<G(!new), X>(c: Curve<G, X>, p: G, q: G, n: nat)
    requires Lawful(c) && n > 0 && IsBasis(c, p, q, n)
    ensures IsBasis(c, p, Sub(c, p, q), n)
  {
    FlipTwice();
    SameUnit(Times(FLIP, FLIP), n);
    KeepsBasis(c, (p, q), FLIP, FLIP, n);
    PairUnits(c, p, q);
  }

  /** First point, and first minus second. */
  const FLIP := Mat2(1, 1, 0, -1)

  lemma FlipTwice()
    ensures Times(FLIP, FLIP) == I2
  {
    SquareEntries(1, 1, 0, -1);
  }

  lemma SquareEntries(a: int, b: int, c: int, d: int)
    ensures var m := Mat2(a, b, c, d); Times(m, m) == Mat2(a * a + b * c, a * b + b * d, c * a + d * c, c * b + d * d)
  {
  }

  lemma SameUnit(m: Mat2, n: nat)
    requires m == I2
    ensures Cong2(m, I2, n)
  {
    Cong2Refl(I2, n);
  }

  /** A basis of order 2^e, e >= 2, can be handed to the ladder. */
  lemma BasisUsable<G(!new), X>(c: Curve<G, X>, g: (G, G), e: nat)
    requires Lawful(c) && e >= 2 && IsBasis(c, g.0, g.1, Pow2(e))
    ensures Usable(c, g, e) && forall w: nat :: e <= w ==> UsableAt(c, g, e, w)
  {
    var n := Pow2(e);
    assert n == 2 * Pow2(e - 1) && Pow2(e - 1) == 2 * Pow2(e - 2);
    BasisIsRegular(c, g.0, g.1, n, 1, 0);
    BasisIsRegular(c, g.0, g.1, n, 0, 1);
    BasisIsRegular(c, g.0, g.1, n, 1, 1);
    BasisIsRegular(c, g.0, g.1, n, 1, -1);
  }

  /** The matrix times a scalar, applied to the whole triple: the entries are taken modulo 2^f, and the ladders run at the
      full exponent. */
  method ApplyScaledBasis<G(!new), X>(c: Curve<G, X>, m: Mat2, s: nat, f: nat, basis: TorsionBasis<X>, ghost g: (G, G))
    returns (r: TorsionBasis<X>)
    requires Lawful(c) && Stands(c, basis, g.0, g.1) && UsableAt(c, g, f, FULL)
    requires 1 <= f <= FULL && Reduced2(m, Pow2(f))
    ensures var h := Transform(c, g, ScaleBy(s, m)); Stands(c, r, h.0, h.1)
  {
    var scaled := Mat2(MulMod2k(s, m.a, f), MulMod2k(s, m.b, f), MulMod2k(s, m.c, f), MulMod2k(s, m.d, f));
    TransformCong(c, g, scaled, ScaleBy(s, m), Pow2(f));
    r := MultiplyAt(c, scaled, f, FULL, basis, g);
  }

  /** The exponent of the full two-power torsion. */
  const FULL: nat := 248

  // ----- restoring a basis -----

  /** A matrix and then its inverse give back the two points themselves, for every order. */
  lemma InverseRestores<G(!new), X>(c: Curve<G, X>, g: (G, G), m: Mat2, inverse: Mat2, n: nat)
    requires Lawful(c) && Killed(c, g.0, g.1, n) && n > 0 && Cong2(Times(m, inverse), I2, n)
    ensures Transform(c, Transform(c, g, m), inverse) == g
  {
    Compose(c, g, m, inverse);
    TransformCong(c, g, Times(m, inverse), I2, n);
    PtUnits(c, g.0, g.1);
  }

  ghost predicate SeparatesAt<G, X>(c: Curve<G, X>, p: G, q: G) {
    c.x(p) == c.x(q) ==> p == q || p == c.group.neg(q)
  }

  /** x forgets nothing but the sign. */
  ghost predicate Separates<G(!new), X>(c: Curve<G, X>) {
    forall p: G, q: G :: SeparatesAt(c, p, q)
  }

  /** The same three x-coordinates. */
  ghost predicate SameTriple<G, X>(c: Curve<G, X>, g: (G, G), h: (G, G)) {
    c.x(g.0) == c.x(h.0) && c.x(g.1) == c.x(h.1) && c.x(Sub(c, g.0, g.1)) == c.x(Sub(c, h.0, h.1))
  }

  const MinusI2 := Mat2(-1, 0, 0, -1)

  /** Two matrices in turn give the basis back, as x-coordinates, exactly when their product is plus or minus
      the identity. */
  lemma RestoresIff<G(!new), X>(c: Curve<G, X>, g: (G, G), m: Mat2, n: Mat2, e: nat)
    requires Lawful(c) && Separates(c) && e >= 2 && IsBasis(c, g.0, g.1, Pow2(e))
    ensures SameTriple(c, Transform(c, Transform(c, g, m), n), g)
       <==> Cong2(Times(m, n), I2, Pow2(e)) || Cong2(Times(m, n), MinusI2, Pow2(e))
  {
    Compose(c, g, m, n);
    var t, d := Times(m, n), Pow2(e);
    assert d == 2 * Pow2(e - 1) && Pow2(e - 1) == 2 * Pow2(e - 2);
    if Cong2(t, I2, d) {
      TransformCong(c, g, t, I2, d);
      PtUnits(c, g.0, g.1);
    } else if Cong2(t, MinusI2, d) {
      TransformCong(c, g, t, MinusI2, d);
      NegatedTriple(c, g);
    } else if SameTriple(c, Transform(c, g, t), g) {
      SameTripleMeansSign(c, g, t, d);
    }
  }

  lemma NegatedTriple<G(!new), X>(c: Curve<G, X>, g: (G, G))
    requires Lawful(c)
    ensures SameTriple(c, Transform(c, g, MinusI2), g)
  {
    PairUnits(c, g.0, g.1);
    PtNeg(c, g.0, g.1, 1, 0);
    PtNeg(c, g.0, g.1, 0, 1);
    PtNeg(c, g.0, g.1, 1, -1);
    PtNeg(c, g.0, g.1, 0, -1);
    PtAdd(c, g.0, g.1, -1, 0, 0, 1);
  }

  lemma SameTripleMeansSign<G(!new), X>(c: Curve<G, X>, g: (G, G), t: Mat2, d: nat)
    requires Lawful(c) && Separates(c) && d >= 4 && IsBasis(c, g.0, g.1, d)
    requires SameTriple(c, Transform(c, g, t), g)
    ensures Cong2(t, I2, d) || Cong2(t, MinusI2, d)
  {
    TripleOfTransform(c, g, t);
    var e1 := SameUpToSign(c, g, t.a, t.c, 1, 0, d);
    var e2 := SameUpToSign(c, g, t.b, t.d, 0, 1, d);
    var e3 := SameUpToSign(c, g, t.a - t.b, t.c - t.d, 1, -1, d);
    SignsAgree(t, e1, e2, e3, d);
  }

  /** Equal triples as equal combinations. */
  lemma TripleOfTransform<G(!new), X>(c: Curve<G, X>, g: (G, G), t: Mat2)
    requires Lawful(c) && SameTriple(c, Transform(c, g, t), g)
    ensures Xpt(c, g.0, g.1, t.a, t.c) == Xpt(c, g.0, g.1, 1, 0) && Xpt(c, g.0, g.1, t.b, t.d) == Xpt(c, g.0, g.1, 0, 1)
    ensures Xpt(c, g.0, g.1, t.a - t.b, t.c - t.d) == Xpt(c, g.0, g.1, 1, -1)
  {
    PairUnits(c, g.0, g.1);
    PtNeg(c, g.0, g.1, t.b, t.d);
    PtAdd(c, g.0, g.1, t.a, t.c, -t.b, -t.d);
  }

  lemma SignsAgree(t: Mat2, e1: int, e2: int, e3: int, d: nat)
    requires d >= 4 && e1 * e1 == 1 && e2 * e2 == 1 && e3 * e3 == 1
    requires Cong(t.a, e1, d) && Cong(t.c, 0, d) && Cong(t.b, 0, d) && Cong(t.d, e2, d)
    requires Cong(t.a - t.b, e3, d) && Cong(t.c - t.d, -e3, d)
    ensures e1 == e2 && (e1 == 1 || e1 == -1)
  {
    UnitSquare(e1);
    UnitSquare(e2);
    UnitSquare(e3);
    CongAdd(t.a, e1, t.b, 0, d);
    CongAdd(t.c, 0, t.d, e2, d);
    CongSym(t.a - t.b, e1, d);
    CongTrans(e1, t.a - t.b, e3, d);
    CongSym(t.c - t.d, -e2, d);
    CongTrans(-e2, t.c - t.d, -e3, d);
    var u := CongElim(e1, e3, d);
    var v := CongElim(-e2, -e3, d);
    SmallMultiple(d, u);
    SmallMultiple(d, v);
  }

  lemma UnitSquare(e: int)
    requires e * e == 1
    ensures e == 1 || e == -1
  {
    if e >= 2 {
      Grow(e, 1, e);
    } else if e <= -2 {
      Grow(-e, 1, -e);
    }
  }

  /** Points of a basis with the same x-coordinate have the same coefficients up to one sign. */
  lemma SameUpToSign<G(!new), X>(c: Curve<G, X>, g: (G, G), i: int, j: int, k: int, l: int, n: nat) returns (sign: int)
    requires Lawful(c) && Separates(c) && n > 0 && IsBasis(c, g.0, g.1, n)
    requires Xpt(c, g.0, g.1, i, j) == Xpt(c, g.0, g.1, k, l)
    ensures sign * sign == 1 && Cong(i, sign * k, n) && Cong(j, sign * l, n)
  {
    var p, q := Pt(c, g.0, g.1, i, j), Pt(c, g.0, g.1, k, l);
    assert SeparatesAt(c, p, q);
    PtNeg(c, g.0, g.1, k, l);
    if p == q {
      sign := 1;
      SameCombination(c, g, i, j, k, l, n);
    } else {
      sign := -1;
      SameCombination(c, g, i, j, -k, -l, n);
    }
  }

  /** Equal combinations of a basis have congruent coefficients. */
  lemma SameCombination<G(!new), X>(c: Curve<G, X>, g: (G, G), i: int, j: int, k: int, l: int, n: nat)
    requires Lawful(c) && n > 0 && IsBasis(c, g.0, g.1, n) && Pt(c, g.0, g.1, i, j) == Pt(c, g.0, g.1, k, l)
    ensures Cong(i, k, n) && Cong(j, l, n)
  {
    PtNeg(c, g.0, g.1, k, l);
    PtAdd(c, g.0, g.1, i, j, -k, -l);
    assert HasInverse(c.group, Pt(c, g.0, g.1, k, l));
    assert Independent(c, g.0, g.1, n, i - k, j - l);
    DifferenceZero(i, k, n);
    DifferenceZero(j, l, n);
  }
}
