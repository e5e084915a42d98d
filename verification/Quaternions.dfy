/** The quaternion algebra (-1, -p), its standard maximal order, and multiplication in order coordinates. */
module Quaternions {
  import opened Arith
  import opened Linear4
  import opened Lattices
  import opened Membership
  import opened Options

  // ----- the algebra -----

  /** The product of coordinate vectors in the basis 1, i, j, k. */
  function QMul(quart: int, x: Vec, y: Vec): Vec {
    Vec(x.a * y.a - x.b * y.b - (4 * quart - 1) * (x.c * y.c + x.d * y.d),
        x.a * y.b + x.b * y.a + (4 * quart - 1) * (x.c * y.d - x.d * y.c),
        x.a * y.c - x.b * y.d + x.c * y.a + x.d * y.b,
        x.a * y.d + x.b * y.c - x.c * y.b + x.d * y.a)
  }

  function Multiply(quart: int, x: Element, y: Element): Element {
    Element(QMul(quart, x.coords, y.coords), x.denom * y.denom)
  }

  function Conjugate(x: Element): Element {
    Element(Vec(x.coords.a, -x.coords.b, -x.coords.c, -x.coords.d), x.denom)
  }

  /** Numerator of the reduced norm; its denominator is the squared denominator of the element. */
  function NormNumerator(quart: int, x: Vec): int {
    x.a * x.a + x.b * x.b + (4 * quart - 1) * (x.c * x.c + x.d * x.d)
  }

  // ----- the order with basis 1, i, (i + j)/2, (1 + k)/2 -----

  const O0 := Lattice(Mat(Vec(2, 0, 0, 1), Vec(0, 2, 1, 0), Vec(0, 0, 1, 0), Vec(0, 0, 0, 1)), 2)

  /** A quarter of p + 1. */
  const QUARTER: int := 5 * 0x40000000_00000000_00000000_00000000_00000000_00000000_00000000_000000

  lemma QuarterOfP()
    ensures P == 4 * QUARTER - 1
  {
  }

  /** Twice the quaternion with order coordinates x. */
  function Numerators(x: Vec): Vec {
    Vec(2 * x.a + x.d, 2 * x.b + x.c, x.c, x.d)
  }

  lemma OrderBasis(x: Vec)
    ensures Eval(O0.basis, x) == Numerators(x)
  {
  }

  lemma OrderNonSingular(l: Lattice)
    requires l == O0
    ensures Det(l.basis) != 0
  {
    TriangularDet(l.basis);
  }

  /** An element has at most one coordinate vector in the order. */
  lemma OrderUnique(alpha: Element, c: Vec, c': Vec)
    requires alpha.denom != 0 && Coordinates(O0, alpha, c) && Coordinates(O0, alpha, c')
    ensures c == c'
  {
    UniqueIn(O0, alpha, c, c');
  }

  lemma UniqueIn(l: Lattice, alpha: Element, c: Vec, c': Vec)
    requires l == O0 && alpha.denom != 0 && Coordinates(l, alpha, c) && Coordinates(l, alpha, c')
    ensures c == c'
  {
    OrderNonSingular(l);
    CoordinatesUnique(l, alpha, c, c');
  }

  /** The coordinates in the order, if the element lies in it. */
  method OrderCoordinates(l: Lattice, alpha: Element) returns (r: Option<Vec>)
    requires l == O0 && alpha.denom != 0
    ensures forall c: Vec :: r == Some(c) <==> Coordinates(l, alpha, c)
    ensures r.None? <==> !Member(l, alpha)
  {
    OrderNonSingular(l);
    r := DecomposeFullRank(l, alpha);
  }

  /** Left multiplication by i, (i + j)/2 and (1 + k)/2 on order coordinates. */
  function Left1(y: Vec): Vec { Vec(-y.b - y.c, y.a + y.d, -y.d, y.c) }
  function Left2(quart: int, y: Vec): Vec { Vec(-quart * y.c, quart * y.d, y.a, -y.b) }
  function Left3(quart: int, y: Vec): Vec { Vec(-quart * y.d, -quart * y.c, y.b + y.c, y.a + y.d) }

  function OrderMul(quart: int, x: Vec, y: Vec): Vec {
    Add(Add(Scale(x.a, y), Scale(x.b, Left1(y))), Add(Scale(x.c, Left2(quart, y)), Scale(x.d, Left3(quart, y))))
  }

  function OrderConj(x: Vec): Vec {
    Vec(x.a + x.d, -x.b, -x.c, -x.d)
  }

  function OrderNorm(quart: int, x: Vec): int {
    x.a * x.a + x.a * x.d + x.b * x.b + x.b * x.c + quart * (x.c * x.c + x.d * x.d)
  }

  // ----- the coordinate forms are the quaternion operations -----

  /** i, j and k times y. */
  function TimesI(y: Vec): Vec { Vec(-y.b, y.a, -y.d, y.c) }
  function TimesJ(quart: int, y: Vec): Vec { Vec(-(4 * quart - 1) * y.c, (4 * quart - 1) * y.d, y.a, -y.b) }
  function TimesK(quart: int, y: Vec): Vec { Vec(-(4 * quart - 1) * y.d, -(4 * quart - 1) * y.c, y.b, y.a) }

  function Four(k: int, l: int, m: int, n: int, x: int, y: int, z: int, w: int): int {
    k * x + l * y + m * z + n * w
  }

  /** The product as a combination of y, iy, jy and ky. */
  lemma QMulByRows(quart: int, x: Vec, y: Vec)
    ensures var i, j, k, q := TimesI(y), TimesJ(quart, y), TimesK(quart, y), QMul(quart, x, y);
            && q.a == Four(x.a, x.b, x.c, x.d, y.a, i.a, j.a, k.a) && q.b == Four(x.a, x.b, x.c, x.d, y.b, i.b, j.b, k.b)
            && q.c == Four(x.a, x.b, x.c, x.d, y.c, i.c, j.c, k.c) && q.d == Four(x.a, x.b, x.c, x.d, y.d, i.d, j.d, k.d)
  {
    RowA(x, y, (4 * quart - 1));
    RowB(x, y, (4 * quart - 1));
    RowCD(x, y);
  }

  lemma RowA(x: Vec, y: Vec, p: int)
    ensures x.a * y.a - x.b * y.b - p * (x.c * y.c + x.d * y.d) == Four(x.a, x.b, x.c, x.d, y.a, -y.b, -p * y.c, -p * y.d)
  {
    assert x.c * (-p * y.c) == -(p * (x.c * y.c)) && x.d * (-p * y.d) == -(p * (x.d * y.d));
    assert x.b * (-y.b) == -(x.b * y.b);
    assert p * (x.c * y.c + x.d * y.d) == p * (x.c * y.c) + p * (x.d * y.d);
  }

  lemma RowB(x: Vec, y: Vec, p: int)
    ensures x.a * y.b + x.b * y.a + p * (x.c * y.d - x.d * y.c) == Four(x.a, x.b, x.c, x.d, y.b, y.a, p * y.d, -p * y.c)
  {
    assert x.c * (p * y.d) == p * (x.c * y.d) && x.d * (-p * y.c) == -(p * (x.d * y.c));
    assert p * (x.c * y.d - x.d * y.c) == p * (x.c * y.d) - p * (x.d * y.c);
  }

  lemma RowCD(x: Vec, y: Vec)
    ensures x.a * y.c - x.b * y.d + x.c * y.a + x.d * y.b == Four(x.a, x.b, x.c, x.d, y.c, -y.d, y.a, y.b)
    ensures x.a * y.d + x.b * y.c - x.c * y.b + x.d * y.a == Four(x.a, x.b, x.c, x.d, y.d, y.c, -y.b, y.a)
  {
    assert x.b * (-y.d) == -(x.b * y.d) && x.c * (-y.b) == -(x.c * y.b);
  }

  /** The order's basis elements times y, in order coordinates. */
  lemma LeftByBasis(quart: int, y: Vec)
    ensures var n := Numerators(y);
            && TimesI(n) == Numerators(Left1(y))
            && Add(TimesI(n), TimesJ(quart, n)) == Scale(2, Numerators(Left2(quart, y)))
            && Add(n, TimesK(quart, n)) == Scale(2, Numerators(Left3(quart, y)))
  {
    QuarterOfP();
  }

  /** Regrouping one entry by the order's basis. */
  lemma HalvedForm(x: Vec, n: int, i: int, j: int, k: int, l2: int, l3: int)
    requires i + j == 2 * l2 && n + k == 2 * l3
    ensures Four(2 * x.a + x.d, 2 * x.b + x.c, x.c, x.d, n, i, j, k) == 2 * Four(x.a, x.b, x.c, x.d, n, i, l2, l3)
  {
    assert x.c * (i + j) == x.c * i + x.c * j && x.c * (2 * l2) == 2 * (x.c * l2);
    assert x.d * (n + k) == x.d * n + x.d * k && x.d * (2 * l3) == 2 * (x.d * l3);
    assert (2 * x.a + x.d) * n == 2 * (x.a * n) + x.d * n && (2 * x.b + x.c) * i == 2 * (x.b * i) + x.c * i;
  }

  lemma FourSum(x: Vec, n: int, n': int, i: int, i': int, j: int, j': int, k: int, k': int)
    ensures Four(x.a, x.b, x.c, x.d, 2 * n + n', 2 * i + i', 2 * j + j', 2 * k + k')
         == 2 * Four(x.a, x.b, x.c, x.d, n, i, j, k) + Four(x.a, x.b, x.c, x.d, n', i', j', k')
  {
    assert x.a * (2 * n + n') == 2 * (x.a * n) + x.a * n' && x.b * (2 * i + i') == 2 * (x.b * i) + x.b * i';
    assert x.c * (2 * j + j') == 2 * (x.c * j) + x.c * j' && x.d * (2 * k + k') == 2 * (x.d * k) + x.d * k';
  }

  lemma OrderMulEntries(quart: int, x: Vec, y: Vec)
    ensures var i, j, k, q := Left1(y), Left2(quart, y), Left3(quart, y), OrderMul(quart, x, y);
            && q.a == Four(x.a, x.b, x.c, x.d, y.a, i.a, j.a, k.a) && q.b == Four(x.a, x.b, x.c, x.d, y.b, i.b, j.b, k.b)
            && q.c == Four(x.a, x.b, x.c, x.d, y.c, i.c, j.c, k.c) && q.d == Four(x.a, x.b, x.c, x.d, y.d, i.d, j.d, k.d)
  {
  }

  lemma OrderMulIsProduct(quart: int, x: Vec, y: Vec)
    ensures QMul(quart, Numerators(x), Numerators(y)) == Scale(2, Numerators(OrderMul(quart, x, y)))
  {
    var n, l1, l2, l3 := Numerators(y), Numerators(Left1(y)), Numerators(Left2(quart, y)), Numerators(Left3(quart, y));
    var j, k := TimesJ(quart, n), TimesK(quart, n);
    QMulByRows(quart, Numerators(x), n);
    LeftByBasis(quart, y);
    HalvedForm(x, n.a, l1.a, j.a, k.a, l2.a, l3.a);
    HalvedForm(x, n.b, l1.b, j.b, k.b, l2.b, l3.b);
    HalvedForm(x, n.c, l1.c, j.c, k.c, l2.c, l3.c);
    HalvedForm(x, n.d, l1.d, j.d, k.d, l2.d, l3.d);
    OrderMulEntries(quart, x, y);
    var m1, m2, m3 := Left1(y), Left2(quart, y), Left3(quart, y);
    FourSum(x, y.a, y.d, m1.a, m1.d, m2.a, m2.d, m3.a, m3.d);
    FourSum(x, y.b, y.c, m1.b, m1.c, m2.b, m2.c, m3.b, m3.c);
  }

  lemma OrderNormIsNorm(quart: int, x: Vec)
    ensures NormNumerator(quart, Numerators(x)) == 4 * OrderNorm(quart, x)
  {
    QuarterOfP();
    NormPolynomial(x.a, x.b, x.c, x.d, quart);
  }

  lemma NormPolynomial(a: int, b: int, c: int, d: int, q: int)
    ensures (2 * a + d) * (2 * a + d) + (2 * b + c) * (2 * b + c) + (4 * q - 1) * (c * c + d * d)
         == 4 * (a * a + a * d + b * b + b * c + q * (c * c + d * d))
  {
    assert (2 * a + d) * (2 * a + d) == 4 * (a * a) + 4 * (a * d) + d * d;
    assert (2 * b + c) * (2 * b + c) == 4 * (b * b) + 4 * (b * c) + c * c;
  }

  // ----- elements and their order coordinates -----

  lemma QMulScaled(quart: int, k: int, l: int, x: Vec, y: Vec)
    ensures QMul(quart, Scale(k, x), Scale(l, y)) == Scale(k * l, QMul(quart, x, y))
  {
    var kl := k * l;
    ScaledForm(k, l, x, y.a, -y.b, -(4 * quart - 1) * y.c, -(4 * quart - 1) * y.d);
    ScaledForm(k, l, x, y.b, y.a, (4 * quart - 1) * y.d, -(4 * quart - 1) * y.c);
    ScaledForm(k, l, x, y.c, -y.d, y.a, y.b);
    ScaledForm(k, l, x, y.d, y.c, -y.b, y.a);
    QMulByRows(quart, x, y);
    QMulByRows(quart, Scale(k, x), Scale(l, y));
    ScaledP(l, y.c, (4 * quart - 1));
    ScaledP(l, y.d, (4 * quart - 1));
  }

  lemma ScaledP(l: int, y: int, p: int)
    ensures p * (l * y) == l * (p * y) && -p * (l * y) == l * (-p * y)
    ensures -(l * y) == l * -y
  {
  }

  lemma ScaledForm(k: int, l: int, x: Vec, s: int, t: int, u: int, v: int)
    ensures Four(k * x.a, k * x.b, k * x.c, k * x.d, l * s, l * t, l * u, l * v) == k * l * Four(x.a, x.b, x.c, x.d, s, t, u, v)
  {
    ScaledTerm(k, l, x.a, s);
    ScaledTerm(k, l, x.b, t);
    ScaledTerm(k, l, x.c, u);
    ScaledTerm(k, l, x.d, v);
    DistributeFour(k * l, x.a * s, x.b * t, x.c * u, x.d * v);
  }

  lemma ScaledTerm(k: int, l: int, x: int, s: int)
    ensures (k * x) * (l * s) == k * l * (x * s)
  {
  }

  lemma DistributeFour(k: int, a: int, b: int, c: int, d: int)
    ensures k * (a + b + c + d) == k * a + k * b + k * c + k * d
  {
  }

  /** The coordinates of a product are the product of the coordinates. */
  lemma ProductCoordinates(quart: int, e: Element, f: Element, x: Vec, y: Vec)
    requires Coordinates(O0, e, x) && Coordinates(O0, f, y)
    ensures Coordinates(O0, Multiply(quart, e, f), OrderMul(quart, x, y))
  {
    OrderBasis(x);
    OrderBasis(y);
    OrderBasis(OrderMul(quart, x, y));
    QMulScaled(quart, 2, 2, e.coords, f.coords);
    QMulScaled(quart, e.denom, f.denom, Numerators(x), Numerators(y));
    OrderMulIsProduct(quart, x, y);
    HalveBoth(QMul(quart, e.coords, f.coords), e.denom * f.denom, Numerators(OrderMul(quart, x, y)));
  }

  lemma HalveBoth(u: Vec, d: int, v: Vec)
    requires Scale(2 * 2, u) == Scale(d, Scale(2, v))
    ensures Scale(2, u) == Scale(d, v)
  {
    ScaleTwice(d, 2, v);
    assert d * 2 == 2 * d;
    ScaleTwice(2, d, v);
    ScaleTwice(2, 2, u);
    ScaleCancels(2, Scale(2, u), Scale(d, v));
  }

  lemma ConjugateCoordinates(e: Element, x: Vec)
    requires Coordinates(O0, e, x)
    ensures Coordinates(O0, Conjugate(e), OrderConj(x))
  {
    OrderBasis(x);
    OrderBasis(OrderConj(x));
  }

  lemma NormScaled(quart: int, k: int, x: Vec)
    ensures NormNumerator(quart, Scale(k, x)) == k * k * NormNumerator(quart, x)
  {
    NormTerms(k, x.a, x.b, x.c, x.d, (4 * quart - 1));
  }

  lemma NormTerms(k: int, a: int, b: int, c: int, d: int, p: int)
    ensures (k * a) * (k * a) + (k * b) * (k * b) + p * ((k * c) * (k * c) + (k * d) * (k * d))
         == k * k * (a * a + b * b + p * (c * c + d * d))
  {
    ScaledTerm(k, k, a, a);
    ScaledTerm(k, k, b, b);
    ScaledTerm(k, k, c, c);
    ScaledTerm(k, k, d, d);
    var q, w := k * k, c * c + d * d;
    assert q * (c * c) + q * (d * d) == q * w;
    assert p * (q * w) == q * (p * w);
    assert q * (a * a + b * b + p * w) == q * (a * a) + q * (b * b) + q * (p * w);
  }

  /** The reduced norm of an order element is an integer: the norm form of its coordinates. */
  lemma NormOfCoordinates(quart: int, e: Element, x: Vec)
    requires Coordinates(O0, e, x)
    ensures NormNumerator(quart, e.coords) == e.denom * e.denom * OrderNorm(quart, x)
  {
    OrderBasis(x);
    NormScaled(quart, 2, e.coords);
    NormScaled(quart, e.denom, Numerators(x));
    OrderNormIsNorm(quart, x);
    FourCancels(NormNumerator(quart, e.coords), e.denom * e.denom, OrderNorm(quart, x));
  }

  lemma FourCancels(u: int, d: int, v: int)
    requires 2 * 2 * u == d * (4 * v)
    ensures u == d * v
  {
    assert d * (4 * v) == 4 * (d * v);
  }
}
