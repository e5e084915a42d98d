/** The dual lattice and the intersection computed as the dual of a sum of duals. */
module Duals {
  import opened Arith
  import opened Gcds
  import opened Linear4
  import opened Lattices

  /** Denominator times the cofactor matrix, over the determinant. */
  function Dual(l: Lattice): Lattice {
    var (cofactor, det) := CofactorAndDet(l.basis);
    Lattice(ScaleMat(l.denom, cofactor), det)
  }

  /** The pairing of x and y takes an integer value: x.coords . y.coords / (x.denom * y.denom). */
  predicate Integral(x: Element, y: Element)
    requires x.denom != 0 && y.denom != 0
  {
    Dot(x.coords, y.coords) % (x.denom * y.denom) == 0
  }

  ghost predicate PairsIntegrally(l: Lattice, y: Element)
    requires y.denom != 0
  {
    forall x: Element :: x.denom != 0 && Member(l, x) ==> Integral(x, y)
  }

  lemma EvalDual(l: Lattice, c: Vec)
    ensures Eval(Dual(l).basis, c) == Scale(l.denom, Eval(Transpose(Adjugate(l.basis)), c))
  {
    FastCofactors(l.basis);
    EvalScaleMat(l.denom, Transpose(Adjugate(l.basis)), c);
  }

  // ----- the dual lattice is what it should be -----

  /** k divides the product of y with every integer combination of the columns of m. */
  ghost predicate Annihilates(m: Mat, k: int, y: Vec) {
    forall p: Vec :: Divides(k, Dot(Eval(m, p), y))
  }

  lemma AnnihilatesByColumns(m: Mat, k: int, y: Vec)
    ensures Annihilates(m, k, y) <==> exists c: Vec :: EvalLeft(m, y) == Scale(k, c)
  {
    if c: Vec :| EvalLeft(m, y) == Scale(k, c) {
      forall p: Vec ensures Divides(k, Dot(Eval(m, p), y)) {
        DotTranspose(m, y, p);
        DotLinear(c, p, p, k);
        DotLinear(Eval(m, p), y, y, k);
        assert Dot(Eval(m, p), y) == k * Dot(c, p);
      }
    }
    if Annihilates(m, k, y) {
      var c0 := ColumnQuotient(m, k, y, 0);
      var c1 := ColumnQuotient(m, k, y, 1);
      var c2 := ColumnQuotient(m, k, y, 2);
      var c3 := ColumnQuotient(m, k, y, 3);
      assert EvalLeft(m, y) == Scale(k, Vec(c0, c1, c2, c3));
    }
  }

  lemma ColumnQuotient(m: Mat, k: int, y: Vec, i: nat) returns (q: int)
    requires i < 4 && Annihilates(m, k, y)
    ensures At(EvalLeft(m, y), i) == k * q
  {
    assert Divides(k, Dot(Eval(m, Unit(i)), y));
    q :| Dot(Eval(m, Unit(i)), y) == k * q;
    DotTranspose(m, y, Unit(i));
    DotLinear(Eval(m, Unit(i)), y, y, 0);
    DotLinear(EvalLeft(m, y), Unit(i), Unit(i), 0);
    DotUnit(i, EvalLeft(m, y));
  }

  lemma DualCoordinates(l: Lattice, y: Element, c: Vec)
    requires FullRank(l)
    ensures Coordinates(Dual(l), y, c) <==> EvalLeft(l.basis, y.coords) == Scale(l.denom * y.denom, c)
  {
    var m, det, inv := l.basis, Det(l.basis), Transpose(Adjugate(l.basis));
    FastCofactors(m);
    EvalDual(l, c);
    TransposeInverse(m, y.coords);
    TransposeInverse(m, c);
    ScaleTwice(y.denom, l.denom, Eval(inv, c));
    var k := l.denom * y.denom;
    assert y.denom * l.denom == k;
    EvalLinear(inv, c, c, k);
    EvalLinear(Transpose(m), Eval(inv, c), y.coords, k);
    EvalLinear(Transpose(m), y.coords, y.coords, det);
    if Coordinates(Dual(l), y, c) {
      assert Scale(det, y.coords) == Scale(k, Eval(inv, c));
      ScaleTwice(k, det, c);
      ScaleTwice(det, k, c);
      assert k * det == det * k;
      assert Scale(det, EvalLeft(m, y.coords)) == Scale(det, Scale(k, c));
      ScaleCancels(det, EvalLeft(m, y.coords), Scale(k, c));
    }
    if EvalLeft(m, y.coords) == Scale(k, c) {
      assert Scale(det, y.coords) == Scale(k, Eval(inv, c));
    }
  }

  /** Membership in the dual, stated with the columns of the original basis only. */
  lemma DualMembership(l: Lattice, y: Element)
    requires FullRank(l)
    ensures Member(Dual(l), y) <==> Annihilates(l.basis, l.denom * y.denom, y.coords)
  {
    forall c: Vec ensures Coordinates(Dual(l), y, c) <==> EvalLeft(l.basis, y.coords) == Scale(l.denom * y.denom, c) {
      DualCoordinates(l, y, c);
    }
    AnnihilatesByColumns(l.basis, l.denom * y.denom, y.coords);
  }

  /** The dual consists of exactly the vectors that pair integrally with the lattice. */
  lemma DualExact(l: Lattice, y: Element)
    requires FullRank(l) && y.denom != 0
    ensures Member(Dual(l), y) <==> PairsIntegrally(l, y)
  {
    DualMembership(l, y);
    var k := l.denom * y.denom;
    if Annihilates(l.basis, k, y.coords) {
      forall x: Element | x.denom != 0 && Member(l, x) ensures Integral(x, y) {
        MemberPairsIntegrally(l, x, y);
      }
    }
    if PairsIntegrally(l, y) {
      forall p: Vec ensures Divides(k, Dot(Eval(l.basis, p), y.coords)) {
        var x := Element(Eval(l.basis, p), l.denom);
        assert Coordinates(l, x, p);
        assert Integral(x, y);
        DivisionLaw(Dot(x.coords, y.coords), k);
      }
    }
  }

  lemma MemberPairsIntegrally(l: Lattice, x: Element, y: Element)
    requires FullRank(l) && x.denom != 0 && y.denom != 0 && Member(l, x)
    requires Annihilates(l.basis, l.denom * y.denom, y.coords)
    ensures Integral(x, y)
  {
    var a: Vec :| Coordinates(l, x, a);
    var b := Eval(l.basis, a);
    assert Divides(l.denom * y.denom, Dot(b, y.coords));
    var q: int :| Dot(b, y.coords) == l.denom * y.denom * q;
    DotLinear(x.coords, y.coords, y.coords, l.denom);
    DotLinear(b, y.coords, y.coords, x.denom);
    assert l.denom * Dot(x.coords, y.coords) == x.denom * (l.denom * y.denom * q);
    SwapFactors(x.denom, l.denom, y.denom, q);
    CancelFactor(l.denom, Dot(x.coords, y.coords), x.denom * y.denom * q);
    ExactQuotient(x.denom * y.denom, q);
  }

  lemma SwapFactors(a: int, b: int, c: int, q: int)
    ensures a * (b * c * q) == b * (a * c * q)
  {
  }

  lemma DualFullRank(l: Lattice)
    requires FullRank(l)
    ensures FullRank(Dual(l))
  {
    var n, k := Dual(l).basis, l.denom * Det(l.basis);
    DualColumn(l, Unit(0));
    DualColumn(l, Unit(1));
    DualColumn(l, Unit(2));
    DualColumn(l, Unit(3));
    SpanningIsInvertible(Transpose(n), k, Eval(l.basis, Unit(0)), Eval(l.basis, Unit(1)), Eval(l.basis, Unit(2)), Eval(l.basis, Unit(3)));
    DetTranspose(n);
    FastCofactors(l.basis);
  }

  lemma DualColumn(l: Lattice, v: Vec)
    ensures EvalLeft(Dual(l).basis, Eval(l.basis, v)) == Scale(l.denom * Det(l.basis), v)
  {
    EvalLeftDual(l, Eval(l.basis, v));
    AdjugateInverts(l.basis, v);
    ScaleTwice(l.denom, Det(l.basis), v);
  }

  lemma EvalLeftDual(l: Lattice, v: Vec)
    ensures EvalLeft(Dual(l).basis, v) == Scale(l.denom, Eval(Adjugate(l.basis), v))
  {
    FastCofactors(l.basis);
    TransposeTwice(Adjugate(l.basis));
    TransposeScale(l.denom, Transpose(Adjugate(l.basis)));
    EvalScaleMat(l.denom, Adjugate(l.basis), v);
  }

  /** The dual is an involution: an element has the same coordinates in the double dual. */
  lemma DualInvolution(l: Lattice, x: Element, c: Vec)
    requires FullRank(l)
    ensures Coordinates(Dual(Dual(l)), x, c) <==> Coordinates(l, x, c)
  {
    var m, adj, d, det, w := l.basis, Adjugate(l.basis), l.denom, Det(l.basis), x.denom;
    DualFullRank(l);
    DualCoordinates(Dual(l), x, c);
    FastCofactors(m);
    EvalLeftDual(l, x.coords);
    assert Coordinates(Dual(Dual(l)), x, c) <==> Scale(d, Eval(adj, x.coords)) == Scale(det * w, c);
    AdjugateInverts(m, x.coords);
    AdjugateInverts(m, c);
    if Coordinates(l, x, c) {
      EvalLinear(adj, x.coords, x.coords, d);
      EvalLinear(adj, Eval(m, c), c, w);
      ScaleTwice(w, det, c);
      assert w * det == det * w;
    }
    if Scale(d, Eval(adj, x.coords)) == Scale(det * w, c) {
      EvalLinear(m, Eval(adj, x.coords), c, d);
      EvalLinear(m, c, c, det * w);
      ScaleTwice(d, det, x.coords);
      ScaleTwice(det, d, x.coords);
      ScaleTwice(det, w, Eval(m, c));
      assert d * det == det * d;
      ScaleCancels(det, Scale(d, x.coords), Scale(w, Eval(m, c)));
    }
  }

  // ----- the intersection as the dual of a sum of duals -----

  /** The columns of h generate exactly the sums of a column combination of a, one of b, and k times anything. */
  ghost predicate Spans(h: Mat, a: Mat, b: Mat, k: int) {
    forall v: Vec :: InColumnSpan(h, v) <==> exists p: Vec, q: Vec, r: Vec :: v == SumOf(a, b, k, p, q, r)
  }

  ghost predicate InColumnSpan(h: Mat, v: Vec) {
    exists c: Vec :: v == Eval(h, c)
  }

  function SumOf(a: Mat, b: Mat, k: int, p: Vec, q: Vec, r: Vec): Vec {
    Add(Add(Eval(a, p), Eval(b, q)), Scale(k, r))
  }

  /** The gcd of the two determinants times any vector is already a combination of the eight columns. */
  lemma ModulusIsRedundant(a: Mat, b: Mat, r: Vec) returns (p: Vec, q: Vec)
    ensures Scale(Gcd(Abs(Det(a)), Abs(Det(b))), r) == Add(Eval(a, p), Eval(b, q))
  {
    var u, v := SignedBezout(Det(a), Det(b));
    p, q := Scale(u, Eval(Adjugate(a), r)), Scale(v, Eval(Adjugate(b), r));
    DetMultiple(a, u, r);
    DetMultiple(b, v, r);
    AddScales(u * Det(a), v * Det(b), r);
  }

  lemma SignedBezout(x: int, y: int) returns (u: int, v: int)
    ensures Gcd(Abs(x), Abs(y)) == u * x + v * y
  {
    u, v := GcdLaw(Abs(x), Abs(y));
    u := if x < 0 then -u else u;
    v := if y < 0 then -v else v;
  }

  lemma DetMultiple(m: Mat, u: int, r: Vec)
    ensures Eval(m, Scale(u, Eval(Adjugate(m), r))) == Scale(u * Det(m), r)
  {
    EvalLinear(m, Eval(Adjugate(m), r), r, u);
    AdjugateInverts(m, r);
    ScaleTwice(u, Det(m), r);
  }

  lemma AddScales(j: int, k: int, r: Vec)
    ensures Add(Scale(j, r), Scale(k, r)) == Scale(j + k, r)
  {
  }

  /** The scaled bases of two duals over their common denominator, and the determinant bound used as modulus. */
  function CommonBasis(d: Lattice, other: Lattice): Mat {
    ScaleMat(other.denom, d.basis)
  }

  function SumModulus(d1: Lattice, d2: Lattice): nat {
    Gcd(Abs(Det(CommonBasis(d1, d2))), Abs(Det(CommonBasis(d2, d1))))
  }

  ghost predicate IsDualSum(h: Mat, d1: Lattice, d2: Lattice) {
    Spans(h, CommonBasis(d1, d2), CommonBasis(d2, d1), SumModulus(d1, d2))
  }

  /** The modulus adds nothing: annihilating the sum is annihilating both summands. */
  lemma AnnihilatesSum(h: Mat, d1: Lattice, d2: Lattice, k: int, x: Vec)
    requires IsDualSum(h, d1, d2)
    ensures Annihilates(h, k, x) <==> Annihilates(CommonBasis(d1, d2), k, x) && Annihilates(CommonBasis(d2, d1), k, x)
  {
    var a, b, g := CommonBasis(d1, d2), CommonBasis(d2, d1), SumModulus(d1, d2);
    if Annihilates(h, k, x) {
      forall p: Vec ensures Divides(k, Dot(Eval(a, p), x)) && Divides(k, Dot(Eval(b, p), x)) {
        EvalZero(a);
        EvalZero(b);
        assert SumOf(a, b, g, p, ZERO, ZERO) == Eval(a, p);
        assert SumOf(a, b, g, ZERO, p, ZERO) == Eval(b, p);
        InSpanDivides(h, k, x, Eval(a, p));
        InSpanDivides(h, k, x, Eval(b, p));
      }
    }
    if Annihilates(a, k, x) && Annihilates(b, k, x) {
      forall c: Vec ensures Divides(k, Dot(Eval(h, c), x)) {
        assert InColumnSpan(h, Eval(h, c));
        var p: Vec, q: Vec, r: Vec :| Eval(h, c) == SumOf(a, b, g, p, q, r);
        var p', q' := ModulusIsRedundant(a, b, r);
        SumDivides(a, b, k, x, p, q);
        SumDivides(a, b, k, x, p', q');
        var v, w := Add(Eval(a, p), Eval(b, q)), Add(Eval(a, p'), Eval(b, q'));
        DotLinear(v, w, x, 0);
        DividesLinear(k, Dot(v, x), Dot(w, x), 1, 1);
      }
    }
  }

  lemma InSpanDivides(h: Mat, k: int, x: Vec, v: Vec)
    requires Annihilates(h, k, x) && InColumnSpan(h, v)
    ensures Divides(k, Dot(v, x))
  {
    var c: Vec :| v == Eval(h, c);
  }

  lemma SumDivides(a: Mat, b: Mat, k: int, x: Vec, p: Vec, q: Vec)
    requires Annihilates(a, k, x) && Annihilates(b, k, x)
    ensures Divides(k, Dot(Add(Eval(a, p), Eval(b, q)), x))
  {
    DotLinear(Eval(a, p), Eval(b, q), x, 0);
    assert Divides(k, Dot(Eval(a, p), x)) && Divides(k, Dot(Eval(b, q), x));
    DividesLinear(k, Dot(Eval(a, p), x), Dot(Eval(b, q), x), 1, 1);
  }

  lemma AnnihilatesScaled(j: int, m: Mat, k: int, x: Vec)
    requires j != 0
    ensures Annihilates(ScaleMat(j, m), j * k, x) <==> Annihilates(m, k, x)
  {
    forall p: Vec ensures Divides(j * k, Dot(Eval(ScaleMat(j, m), p), x)) <==> Divides(k, Dot(Eval(m, p), x)) {
      EvalScaleMat(j, m, p);
      DotLinear(Eval(m, p), x, x, j);
      DividesScaled(j, k, Dot(Eval(m, p), x));
    }
  }

  lemma DividesScaled(j: int, k: int, n: int)
    requires j != 0
    ensures Divides(j * k, j * n) <==> Divides(k, n)
  {
    if q: int :| j * n == j * k * q {
      assert j * k * q == j * (k * q);
      CancelFactor(j, n, k * q);
    }
    if q: int :| n == k * q {
      assert j * n == j * k * q;
    }
  }

  lemma SumFullRank(h: Mat, d1: Lattice, d2: Lattice)
    requires FullRank(d1) && FullRank(d2) && IsDualSum(h, d1, d2)
    ensures Det(h) != 0
  {
    var a := CommonBasis(d1, d2);
    var k := SumModulus(d1, d2);
    ScaledDet(d2.denom, d1.basis);
    var u, v := GcdLaw(Abs(Det(a)), Abs(Det(CommonBasis(d2, d1))));
    var b := CommonBasis(d2, d1);
    var p := SpanPreimage(h, a, b, k, Unit(0));
    var q := SpanPreimage(h, a, b, k, Unit(1));
    var r := SpanPreimage(h, a, b, k, Unit(2));
    var s := SpanPreimage(h, a, b, k, Unit(3));
    SpanningIsInvertible(h, k, p, q, r, s);
  }

  lemma SpanPreimage(h: Mat, a: Mat, b: Mat, k: int, v: Vec) returns (c: Vec)
    requires Spans(h, a, b, k)
    ensures Eval(h, c) == Scale(k, v)
  {
    SumOfZero(a, b, k, v);
    assert InColumnSpan(h, SumOf(a, b, k, ZERO, ZERO, v));
    c :| SumOf(a, b, k, ZERO, ZERO, v) == Eval(h, c);
  }

  lemma SumOfZero(a: Mat, b: Mat, k: int, v: Vec)
    ensures SumOf(a, b, k, ZERO, ZERO, v) == Scale(k, v)
  {
    EvalZero(a);
    EvalZero(b);
    AddZero(ZERO);
    AddZero(Scale(k, v));
  }

  lemma AddZero(v: Vec)
    ensures Add(ZERO, v) == v
  {
  }

  lemma ScaledDet(k: int, m: Mat)
    requires k != 0 && Det(m) != 0
    ensures Det(ScaleMat(k, m)) != 0
  {
    ScaledRow(k, m, 0);
    ScaledRow(k, m, 1);
    ScaledRow(k, m, 2);
    ScaledRow(k, m, 3);
    assert MatMul(Diagonal(k), m) == ScaleMat(k, m);
    ProductRule(Diagonal(k), m);
    DiagonalDet(k);
  }

  lemma ScaledRow(k: int, m: Mat, i: nat)
    requires i < 4
    ensures EvalLeft(m, Scale(k, Unit(i))) == Scale(k, Row(m, i))
  {
    EvalLinear(Transpose(m), Unit(i), Unit(i), k);
    EvalUnit(Transpose(m), i);
    TransposeTwice(m);
  }

  /** The dual of a sum consists of the elements common to both duals. */
  lemma DualOfSum(d1: Lattice, d2: Lattice, h: Mat, x: Element)
    requires FullRank(d1) && FullRank(d2) && IsDualSum(h, d1, d2)
    ensures FullRank(Lattice(h, d1.denom * d2.denom))
    ensures Member(Dual(Lattice(h, d1.denom * d2.denom)), x) <==> Member(Dual(d1), x) && Member(Dual(d2), x)
  {
    var s := Lattice(h, d1.denom * d2.denom);
    SumFullRank(h, d1, d2);
    assert s.denom != 0;
    DualMembership(s, x);
    AnnihilatesSum(h, d1, d2, s.denom * x.denom, x.coords);
    OneSummand(d1, d2.denom, x);
    OneSummand(d2, d1.denom, x);
    Reassociate(d1.denom, d2.denom, x.denom);
  }

  lemma Reassociate(x: int, y: int, w: int)
    ensures x * y * w == y * (x * w) == x * (y * w)
  {
  }

  lemma OneSummand(d: Lattice, j: int, x: Element)
    requires FullRank(d) && j != 0
    ensures Annihilates(ScaleMat(j, d.basis), j * (d.denom * x.denom), x.coords) <==> Member(Dual(d), x)
  {
    AnnihilatesScaled(j, d.basis, d.denom * x.denom, x.coords);
    DualMembership(d, x);
  }

  /** Dual of the sum of the duals: exactly the intersection. */
  lemma DualSumDual(l1: Lattice, l2: Lattice, h: Mat, x: Element)
    requires FullRank(l1) && FullRank(l2) && IsDualSum(h, Dual(l1), Dual(l2))
    ensures FullRank(Lattice(h, Dual(l1).denom * Dual(l2).denom))
    ensures Member(Dual(Lattice(h, Dual(l1).denom * Dual(l2).denom)), x) <==> Member(l1, x) && Member(l2, x)
  {
    DualFullRank(l1);
    DualFullRank(l2);
    DualOfSum(Dual(l1), Dual(l2), h, x);
    forall c: Vec
      ensures Coordinates(Dual(Dual(l1)), x, c) <==> Coordinates(l1, x, c)
      ensures Coordinates(Dual(Dual(l2)), x, c) <==> Coordinates(l2, x, c)
    {
      DualInvolution(l1, x, c);
      DualInvolution(l2, x, c);
    }
  }
}
