/** Content reduction and the complete dual-sum-dual intersection. */
module Intersections {
  import opened Arith
  import opened Gcds
  import opened Linear4
  import opened Lattices
  import opened Duals
  import opened HermiteForm
  import opened KernelIntersection

  // ----- dividing out the common content -----

  function Entry(m: Mat, row: nat, col: nat): int
    requires row < 4 && col < 4
  {
    At(Row(m, row), col)
  }

  /** d divides the denominator and every basis entry that precedes (row, col) in reading order. */
  ghost predicate DividesUpTo(d: int, l: Lattice, row: nat, col: nat) {
    && Divides(d, l.denom)
    && forall i: nat, j: nat | i < 4 && j < 4 && (i < row || (i == row && j < col)) :: Divides(d, Entry(l.basis, i, j))
  }

  ghost predicate Primitive(l: Lattice) {
    forall d: int :: DividesUpTo(d, l, 4, 0) ==> d == 1 || d == -1
  }

  function DivideVec(u: Vec, g: int): Vec
    requires g != 0
  {
    Vec(u.a / g, u.b / g, u.c / g, u.d / g)
  }

  /** Divides basis and denominator by their common gcd, stopping early once that gcd is 1. */
  method ReduceDenom(l: Lattice) returns (r: Lattice, g: int)
    requires l.denom != 0
    ensures g > 0 && ScaleMat(g, r.basis) == l.basis && g * r.denom == l.denom
    ensures Primitive(r)
  {
    g := Abs(l.denom);
    SelfDivides(l.denom);
    var row := 0;
    while row < 4
      invariant 0 <= row <= 4 && g > 0
      invariant DividesUpTo(g, l, row, 0)
      invariant forall d: int :: DividesUpTo(d, l, row, 0) ==> Divides(d, g)
    {
      var col := 0;
      while col < 4
        invariant 0 <= col <= 4 && g > 0
        invariant DividesUpTo(g, l, row, col)
        invariant forall d: int :: DividesUpTo(d, l, row, col) ==> Divides(d, g)
      {
        var entry := Entry(l.basis, row, col);
        var g' := Gcd(g, Abs(entry));
        GcdStep(l, row, col, g, entry);
        g := g';
        if g == 1 {
          forall d: int | DividesUpTo(d, l, 4, 0) ensures d == 1 || d == -1 {
            assert DividesUpTo(d, l, row, col + 1);
            DividesOne(d);
          }
          return l, 1;
        }
        col := col + 1;
      }
      row := row + 1;
    }
    r := Lattice(Mat(DivideVec(l.basis.r0, g), DivideVec(l.basis.r1, g), DivideVec(l.basis.r2, g), DivideVec(l.basis.r3, g)),
                 l.denom / g);
    DividedExactly(l, g, r);
    PrimitiveQuotient(l, g, r);
  }

  lemma SelfDivides(x: int)
    ensures Divides(Abs(x), x) && forall d: int :: Divides(d, x) ==> Divides(d, Abs(x))
  {
    assert x == Abs(x) * (if x < 0 then -1 else 1);
    forall d: int | Divides(d, x) ensures Divides(d, Abs(x)) {
      DividesAbs(d, x);
    }
  }

  lemma GcdStep(l: Lattice, row: nat, col: nat, g: nat, entry: int)
    requires row < 4 && col < 4 && g > 0 && entry == Entry(l.basis, row, col)
    requires DividesUpTo(g, l, row, col)
    requires forall d: int :: DividesUpTo(d, l, row, col) ==> Divides(d, g)
    ensures Gcd(g, Abs(entry)) > 0
    ensures DividesUpTo(Gcd(g, Abs(entry)), l, row, col + 1)
    ensures forall d: int :: DividesUpTo(d, l, row, col + 1) ==> Divides(d, Gcd(g, Abs(entry)))
  {
    var g' := Gcd(g, Abs(entry));
    var u, v := GcdLaw(g, Abs(entry));
    DividesTrans(g', g, l.denom);
    forall i: nat, j: nat | i < 4 && j < 4 && (i < row || (i == row && j < col + 1))
      ensures Divides(g', Entry(l.basis, i, j))
    {
      if i == row && j == col {
        DividesAbs(g', entry);
      } else {
        DividesTrans(g', g, Entry(l.basis, i, j));
      }
    }
    forall d: int | DividesUpTo(d, l, row, col + 1) ensures Divides(d, g') {
      assert DividesUpTo(d, l, row, col);
      DividesAbs(d, entry);
      DividesLinear(d, g, Abs(entry), u, v);
    }
  }

  lemma DividesOne(d: int)
    requires Divides(d, 1)
    ensures d == 1 || d == -1
  {
    var k: int :| 1 == d * k;
    if d > 1 {
      if k > 0 { Grow(d, 1, k); } else { Grow(d, k, 0); }
    } else if d < -1 {
      if k > 0 { Grow(-d, 1, k); } else { Grow(-d, 1, -k); }
    }
  }

  lemma QuotientLaw(g: int, x: int)
    requires g != 0 && Divides(g, x)
    ensures g * (x / g) == x
  {
    var k: int :| x == g * k;
    ExactQuotient(g, k);
  }

  lemma DividedExactly(l: Lattice, g: int, r: Lattice)
    requires g > 0 && DividesUpTo(g, l, 4, 0) && r.denom == l.denom / g
    requires forall i: nat, j: nat | i < 4 && j < 4 :: Entry(r.basis, i, j) == Entry(l.basis, i, j) / g
    ensures ScaleMat(g, r.basis) == l.basis && g * r.denom == l.denom
  {
    QuotientLaw(g, l.denom);
    forall i: nat | i < 4 ensures Scale(g, Row(r.basis, i)) == Row(l.basis, i) {
      forall j: nat | j < 4 ensures At(Scale(g, Row(r.basis, i)), j) == At(Row(l.basis, i), j) {
        assert Divides(g, Entry(l.basis, i, j));
        QuotientLaw(g, Entry(l.basis, i, j));
      }
      Extensional(Scale(g, Row(r.basis, i)), Row(l.basis, i));
    }
    assert Row(l.basis, 0) == l.basis.r0 && Row(l.basis, 1) == l.basis.r1;
    assert Row(l.basis, 2) == l.basis.r2 && Row(l.basis, 3) == l.basis.r3;
  }

  lemma PrimitiveQuotient(l: Lattice, g: int, r: Lattice)
    requires g > 0 && ScaleMat(g, r.basis) == l.basis && g * r.denom == l.denom
    requires forall d: int :: DividesUpTo(d, l, 4, 0) ==> Divides(d, g)
    ensures Primitive(r)
  {
    forall d: int | DividesUpTo(d, r, 4, 0) ensures d == 1 || d == -1 {
      DividesScaled(g, d, r.denom);
      forall i: nat, j: nat | i < 4 && j < 4 ensures Divides(g * d, Entry(l.basis, i, j)) {
        assert Divides(d, Entry(r.basis, i, j));
        DividesScaled(g, d, Entry(r.basis, i, j));
      }
      assert DividesUpTo(g * d, l, 4, 0);
      assert g == g * 1;
      DividesScaled(g, d, 1);
      DividesOne(d);
    }
  }

  /** Scaling basis and denominator together changes no coordinates. */
  lemma ContentIrrelevant(g: int, l: Lattice, r: Lattice, e: Element, c: Vec)
    requires g != 0 && ScaleMat(g, r.basis) == l.basis && g * r.denom == l.denom
    ensures Coordinates(l, e, c) <==> Coordinates(r, e, c)
  {
    EvalScaleMat(g, r.basis, c);
    ScaleTwice(e.denom, g, Eval(r.basis, c));
    ScaleTwice(g, e.denom, Eval(r.basis, c));
    ScaleTwice(g, r.denom, e.coords);
    assert e.denom * g == g * e.denom;
    if Coordinates(l, e, c) {
      ScaleCancels(g, Scale(r.denom, e.coords), Scale(e.denom, Eval(r.basis, c)));
    }
  }

  // ----- the off-diagonal pass -----

  function WithRow(m: Mat, i: nat, u: Vec): Mat
    requires i < 4
  {
    if i == 0 then m.(r0 := u) else if i == 1 then m.(r1 := u) else if i == 2 then m.(r2 := u) else m.(r3 := u)
  }

  /** The pass that is meant to bring the off-diagonal entries below their pivots. It visits the entries
      (col, pivot) with col > pivot of a row-indexed matrix, that is, the ones under the diagonal. */
  method Canonicalize(m: Mat) returns (h: Mat)
    ensures Triangular(m) ==> h == m
  {
    h := m;
    var pivot := 0;
    while pivot < 4
      invariant 0 <= pivot <= 4
      invariant Triangular(m) ==> h == m
    {
      var piv := Entry(h, pivot, pivot);
      if piv != 0 {
        var col := pivot + 1;
        while col < 4
          invariant pivot < col <= 4
          invariant Triangular(m) ==> h == m
        {
          var entry := Entry(h, col, pivot);
          var g := (entry - entry % piv) / piv;
          if entry != 0 && g != 0 {
            h := WithRow(h, col, Add(Row(h, col), Scale(-g, Row(h, pivot))));
          }
          col := col + 1;
        }
      }
      pivot := pivot + 1;
    }
  }

  // ----- the whole intersection -----

  /** A lattice brought to Hermite form: the same lattice over the same denominator. */
  method ToHnf(l: Lattice) returns (r: Lattice)
    ensures Hermite(r.basis) && r.denom == l.denom && SameLattice(l, r)
    ensures Reduced(r.basis) <==> Det(l.basis) != 0
    ensures Hermite(l.basis) ==> r == l
  {
    var h := FromHnfColumns(Columns(l.basis));
    ghost var cols := Columns(l.basis);
    ColumnsOfMatrix(l.basis);
    r := Lattice(h, l.denom);
    forall v: Vec ensures InColumnSpan(h, v) <==> InColumnSpan(l.basis, v) {
      MatrixSpan(cols, v);
    }
    forall e: Element ensures Member(l, e) <==> Member(r, e) {
      SpanMember(l, r, e);
    }
    FullRankReduced(h);
    if Det(l.basis) != 0 { SpanFullRank(l.basis, h); }
    if Det(h) != 0 { SpanFullRank(h, l.basis); }
  }

  /** What the modular Hermite form promises: it adds modulus multiples of every vector to the span of its eight columns. */
  ghost predicate ModularHnfContract(hnf: (Mat, Mat, nat) -> Mat) {
    forall a: Mat, b: Mat, k: nat :: k > 0 ==> Spans(hnf(a, b, k), a, b, k)
  }

  /** dual, sum by a modular Hermite form, dual again, then content reduction around a Hermite form. */
  method IntersectionViaDualSumDual(l1: Lattice, l2: Lattice, modular: (Mat, Mat, nat) -> Mat)
    returns (r: Lattice)
    requires FullRank(l1) && FullRank(l2)
    requires ModularHnfContract(modular)
    ensures Reduced(r.basis) && r.denom != 0 && Primitive(r)
    ensures forall e: Element :: e.denom != 0 ==> (Member(r, e) <==> Member(l1, e) && Member(l2, e))
  {
    var d1, d2 := Dual(l1), Dual(l2);
    var a, b := CommonBasis(d1, d2), CommonBasis(d2, d1);
    var modulus := Gcd(Abs(Det(a)), Abs(Det(b)));
    ModulusPositive(l1, l2);
    var h := modular(a, b, modulus);
    assert IsDualSum(h, d1, d2);
    var sum := Lattice(h, d1.denom * d2.denom);
    var result := Dual(sum);
    DualSumDual(l1, l2, h, Element(ZERO, 1));
    DualFullRank(sum);
    var reduced, g := ReduceDenom(result);
    FullRankQuotient(result, g, reduced);
    var hnf := ToHnf(reduced);
    var canonical := Canonicalize(hnf.basis);
    var triangular := Lattice(canonical, hnf.denom);
    var g2;
    r, g2 := ReduceDenom(triangular);
    ReducedQuotient(triangular.basis, g2, r.basis);
    forall e: Element | e.denom != 0 ensures Member(r, e) <==> Member(l1, e) && Member(l2, e) {
      DualSumDual(l1, l2, h, e);
      ReducedMember(g, result, reduced, e);
      ReducedMember(g2, triangular, r, e);
    }
  }

  /** The common generators over the first denominator, brought to Hermite form. */
  method IntersectionViaKernel(l1: Lattice, l2: Lattice) returns (r: Lattice)
    requires FullRank(l1) && l2.denom != 0
    ensures Hermite(r.basis) && r.denom == l1.denom && (Det(l2.basis) != 0 ==> Reduced(r.basis))
    ensures forall e: Element :: e.denom != 0 ==> (Member(r, e) <==> Member(l1, e) && Member(l2, e))
  {
    var inter := CommonGenerators(l1, l2);
    var h := FromHnfColumns(inter);
    r := Lattice(h, l1.denom);
    forall e: Element | e.denom != 0 ensures Member(r, e) <==> Member(l1, e) && Member(l2, e) {
      GeneratedMembers(inter, r, e);
    }
    if Det(l2.basis) != 0 {
      CommonFullRank(l1, l2, r);
      FullRankReduced(h);
    }
  }

  lemma GeneratedMembers(vs: seq<Vec>, r: Lattice, e: Element)
    requires forall v: Vec :: InColumnSpan(r.basis, v) <==> InSpan(vs, v)
    ensures Member(r, e) <==> GeneratedOver(vs, r.denom, e)
  {
    if c: Vec :| Coordinates(r, e, c) {
      var v := Eval(r.basis, c);
      assert InColumnSpan(r.basis, v);
      assert Scale(r.denom, e.coords) == Scale(e.denom, v);
    }
    if v: Vec :| InSpan(vs, v) && Scale(r.denom, e.coords) == Scale(e.denom, v) {
      assert InColumnSpan(r.basis, v);
      var c: Vec :| v == Eval(r.basis, c);
      assert Coordinates(r, e, c);
    }
  }

  /** A lattice that contains what two full-rank lattices share has full rank. */
  lemma CommonFullRank(l1: Lattice, l2: Lattice, r: Lattice)
    requires FullRank(l1) && FullRank(l2) && r.denom == l1.denom
    requires forall e: Element :: e.denom != 0 && Member(l1, e) && Member(l2, e) ==> Member(r, e)
    ensures Det(r.basis) != 0
  {
    var k := Det(l1.basis) * Det(l2.basis) * l1.denom;
    ProductNonZero(Det(l1.basis), Det(l2.basis));
    ProductNonZero(Det(l1.basis) * Det(l2.basis), l1.denom);
    var p := CommonUnit(l1, l2, r, k, 0);
    var q := CommonUnit(l1, l2, r, k, 1);
    var s := CommonUnit(l1, l2, r, k, 2);
    var t := CommonUnit(l1, l2, r, k, 3);
    SpanningIsInvertible(r.basis, k, p, q, s, t);
  }

  lemma CommonUnit(l1: Lattice, l2: Lattice, r: Lattice, k: int, i: nat) returns (c: Vec)
    requires FullRank(l1) && FullRank(l2) && r.denom == l1.denom && i < 4 && k == Det(l1.basis) * Det(l2.basis) * l1.denom
    requires forall e: Element :: e.denom != 0 && Member(l1, e) && Member(l2, e) ==> Member(r, e)
    ensures Eval(r.basis, c) == Scale(k, Unit(i))
  {
    var d1, d2, x, y := l1.denom, l2.denom, Det(l1.basis), Det(l2.basis);
    var e := Element(Scale(k, Unit(i)), d1);
    DetMultiple(l1.basis, y * d1, Unit(i));
    DetMultiple(l2.basis, x * d2, Unit(i));
    UnitFactors(x, y, d1, d2);
    ScaleTwice(d2, k, Unit(i));
    ScaleTwice(d1, x * d2 * y, Unit(i));
    assert Coordinates(l1, e, Scale(y * d1, Eval(Adjugate(l1.basis), Unit(i))));
    assert Coordinates(l2, e, Scale(x * d2, Eval(Adjugate(l2.basis), Unit(i))));
    c :| Coordinates(r, e, c);
    ScaleCancels(d1, Scale(k, Unit(i)), Eval(r.basis, c));
  }

  lemma UnitFactors(x: int, y: int, d1: int, d2: int)
    ensures y * d1 * x == x * y * d1 && d2 * (x * y * d1) == d1 * (x * d2 * y)
  {
    assert d2 * (x * y * d1) == d1 * d2 * (x * y);
    assert d1 * (x * d2 * y) == d1 * d2 * (x * y);
  }

  lemma ModulusPositive(l1: Lattice, l2: Lattice)
    requires FullRank(l1) && FullRank(l2)
    ensures SumModulus(Dual(l1), Dual(l2)) > 0
  {
    DualFullRank(l1);
    DualFullRank(l2);
    ScaledDet(Dual(l2).denom, Dual(l1).basis);
    var u, v := GcdLaw(Abs(Det(CommonBasis(Dual(l1), Dual(l2)))), Abs(Det(CommonBasis(Dual(l2), Dual(l1)))));
  }

  lemma FullRankQuotient(l: Lattice, g: int, r: Lattice)
    requires FullRank(l) && g != 0 && ScaleMat(g, r.basis) == l.basis && g * r.denom == l.denom
    ensures FullRank(r)
  {
    ScaledRow(g, r.basis, 0);
    ScaledRow(g, r.basis, 1);
    ScaledRow(g, r.basis, 2);
    ScaledRow(g, r.basis, 3);
    assert MatMul(Diagonal(g), r.basis) == ScaleMat(g, r.basis);
    ProductRule(Diagonal(g), r.basis);
  }

  lemma ReducedQuotient(m: Mat, g: int, n: Mat)
    requires Reduced(m) && g > 0 && ScaleMat(g, n) == m
    ensures Reduced(n)
  {
    CancelFactor(g, n.r1.a, 0);
    CancelFactor(g, n.r2.a, 0);
    CancelFactor(g, n.r3.a, 0);
    CancelFactor(g, n.r2.b, 0);
    CancelFactor(g, n.r3.b, 0);
    CancelFactor(g, n.r3.c, 0);
    ResidueQuotient(g, n.r0.b, n.r0.a);
    ResidueQuotient(g, n.r0.c, n.r0.a);
    ResidueQuotient(g, n.r0.d, n.r0.a);
    ResidueQuotient(g, n.r1.c, n.r1.b);
    ResidueQuotient(g, n.r1.d, n.r1.b);
    ResidueQuotient(g, n.r2.d, n.r2.c);
    ResidueQuotient(g, 0, n.r3.d);
  }

  lemma ResidueQuotient(g: int, x: int, p: int)
    requires g > 0 && 0 <= g * x < g * p
    ensures 0 <= x < p
  {
    if x < 0 { Grow(g, x, -1); }
    if p <= x { Grow(g, p, x); }
  }

  lemma ReducedMember(g: int, l: Lattice, r: Lattice, e: Element)
    requires g != 0 && ScaleMat(g, r.basis) == l.basis && g * r.denom == l.denom
    ensures Member(l, e) <==> Member(r, e)
  {
    forall c: Vec ensures Coordinates(l, e, c) <==> Coordinates(r, e, c) {
      ContentIrrelevant(g, l, r, e, c);
    }
  }

  /** Two bases with one column span and one denominator describe the same lattice. */
  lemma SpanMember(l: Lattice, r: Lattice, e: Element)
    requires l.denom == r.denom
    requires forall v: Vec :: InColumnSpan(r.basis, v) <==> InColumnSpan(l.basis, v)
    ensures Member(l, e) <==> Member(r, e)
  {
    if c: Vec :| Coordinates(l, e, c) {
      assert InColumnSpan(l.basis, Eval(l.basis, c));
      var c': Vec :| Eval(l.basis, c) == Eval(r.basis, c');
      assert Coordinates(r, e, c');
    }
    if c: Vec :| Coordinates(r, e, c) {
      assert InColumnSpan(r.basis, Eval(r.basis, c));
      var c': Vec :| Eval(r.basis, c) == Eval(l.basis, c');
      assert Coordinates(l, e, c');
    }
  }
}
