/** Rank-4 lattices of rational 4-vectors, their elements, and the membership relation that gives
    every lattice algorithm its meaning. */
module Lattices {
  import opened Linear4

  /** The columns of basis, divided by denom, generate the lattice. */
  datatype Lattice = Lattice(basis: Mat, denom: int)

  /** A quaternion (a + bi + cj + dk) / denom. */
  datatype Element = Element(coords: Vec, denom: int)

  predicate FullRank(l: Lattice) {
    Det(l.basis) != 0 && l.denom != 0
  }

  /** c is a coordinate vector of e in the column basis of l. */
  predicate Coordinates(l: Lattice, e: Element, c: Vec) {
    Scale(l.denom, e.coords) == Scale(e.denom, Eval(l.basis, c))
  }

  ghost predicate Member(l: Lattice, e: Element) {
    exists c: Vec :: Coordinates(l, e, c)
  }

  ghost predicate SameLattice(l: Lattice, m: Lattice) {
    forall e: Element :: e.denom != 0 ==> (Member(l, e) <==> Member(m, e))
  }

  lemma ScaleCancels(k: int, u: Vec, v: Vec)
    requires k != 0 && Scale(k, u) == Scale(k, v)
    ensures u == v
  {
    CancelFactor(k, u.a, v.a);
    CancelFactor(k, u.b, v.b);
    CancelFactor(k, u.c, v.c);
    CancelFactor(k, u.d, v.d);
  }

  lemma CancelFactor(k: int, x: int, y: int)
    requires k != 0 && k * x == k * y
    ensures x == y
  {
    assert k * (x - y) == 0;
  }

  lemma ScaleTwice(j: int, k: int, u: Vec)
    ensures Scale(j, Scale(k, u)) == Scale(j * k, u)
  {
  }

  /** On a full-rank lattice an element has at most one coordinate vector. */
  lemma CoordinatesUnique(l: Lattice, e: Element, c: Vec, c': Vec)
    requires Det(l.basis) != 0 && e.denom != 0
    requires Coordinates(l, e, c) && Coordinates(l, e, c')
    ensures c == c'
  {
    ScaleCancels(e.denom, Eval(l.basis, c), Eval(l.basis, c'));
    AdjugateInverts(l.basis, c);
    AdjugateInverts(l.basis, c');
    ScaleCancels(Det(l.basis), c, c');
  }

  predicate UpperTriangular(m: Mat) {
    m.r1.a == m.r2.a == m.r3.a == m.r2.b == m.r3.b == m.r3.c == 0
  }

  /** Upper-triangular with non-zero pivots. */
  predicate Triangular(m: Mat) {
    && UpperTriangular(m)
    && m.r0.a != 0 && m.r1.b != 0 && m.r2.c != 0 && m.r3.d != 0
  }

  lemma TriangularDet(m: Mat)
    requires Triangular(m)
    ensures Det(m) == m.r0.a * m.r1.b * m.r2.c * m.r3.d != 0
  {
    var k := Cross(m.r1, m.r2, m.r3);
    assert k.a == m.r1.b * (m.r2.c * m.r3.d) && k.b == k.c == k.d == 0;
    ProductNonZero(m.r2.c, m.r3.d);
    ProductNonZero(m.r1.b, m.r2.c * m.r3.d);
    ProductNonZero(m.r0.a, k.a);
  }

  lemma ProductNonZero(x: int, y: int)
    requires x != 0 && y != 0
    ensures x * y != 0
  {
  }
}
