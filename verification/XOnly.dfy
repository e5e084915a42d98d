/** Points of an abelian group seen through an x-coordinate that forgets the sign. */
module XOnly {
  import opened Groups

  /** The group and the x-only operations on it. xadd takes two points and the x of their difference;
      origin is the point with x = 0, whose double is the identity. */
  datatype Curve<!G, !X> = Curve(group: Group<G>, origin: G, x: G -> X, dbl: X -> X, xadd: (X, X, X) -> X)

  function Sub<G, X>(c: Curve<G, X>, p: G, q: G): G {
    c.group.add(p, c.group.neg(q))
  }

  ghost predicate SignFree<G, X>(c: Curve<G, X>, p: G) {
    c.x(c.group.neg(p)) == c.x(p) && c.dbl(c.x(p)) == c.x(c.group.add(p, p))
  }

  /** A difference on which the differential addition formula does not degenerate. */
  ghost predicate Regular<G, X>(c: Curve<G, X>, d: G) {
    d != c.group.zero && d != c.origin
  }

  ghost predicate AddsWithDifference<G, X>(c: Curve<G, X>, p: G, q: G) {
    Regular(c, Sub(c, p, q)) ==> c.xadd(c.x(p), c.x(q), c.x(Sub(c, p, q))) == c.x(c.group.add(p, q))
  }

  ghost predicate Lawful<G(!new), X>(c: Curve<G, X>) {
    && IsGroup(c.group)
    && (forall p: G :: SignFree(c, p))
    && (forall p: G, q: G :: AddsWithDifference(c, p, q))
    && c.group.add(c.origin, c.origin) == c.group.zero
  }

  // ----- two-generator combinations -----

  /** i*p + j*s. */
  function Pt<G, X>(c: Curve<G, X>, p: G, s: G, i: int, j: int): G {
    c.group.add(Mul(c.group, i, p), Mul(c.group, j, s))
  }

  lemma PtAdd<G(!new), X>(c: Curve<G, X>, p: G, s: G, i: int, j: int, k: int, l: int)
    requires Lawful(c)
    ensures c.group.add(Pt(c, p, s, i, j), Pt(c, p, s, k, l)) == Pt(c, p, s, i + k, j + l)
  {
    Interchange(c.group, Mul(c.group, i, p), Mul(c.group, j, s), Mul(c.group, k, p), Mul(c.group, l, s));
    MulAdd(c.group, i, k, p);
    MulAdd(c.group, j, l, s);
  }

  lemma PtNeg<G(!new), X>(c: Curve<G, X>, p: G, s: G, i: int, j: int)
    requires Lawful(c)
    ensures c.group.neg(Pt(c, p, s, i, j)) == Pt(c, p, s, -i, -j)
    ensures c.x(Pt(c, p, s, -i, -j)) == c.x(Pt(c, p, s, i, j))
  {
    PtAdd(c, p, s, i, j, -i, -j);
    assert HasInverse(c.group, c.group.zero);
    NegUnique(c.group, Pt(c, p, s, i, j), Pt(c, p, s, -i, -j));
    assert SignFree(c, Pt(c, p, s, i, j));
  }

  lemma PtUnits<G(!new), X>(c: Curve<G, X>, p: G, s: G)
    requires Lawful(c)
    ensures Pt(c, p, s, 0, 0) == c.group.zero && Pt(c, p, s, 1, 0) == p && Pt(c, p, s, 0, 1) == s
  {
    assert HasInverse(c.group, c.group.zero) && HasInverse(c.group, p) && HasInverse(c.group, s) && Commutes(c.group, c.group.zero, s);
    assert Mul(c.group, 1, p) == c.group.add(p, c.group.zero) && Mul(c.group, 1, s) == c.group.add(s, c.group.zero);
  }

  /** The x-coordinate of a combination. */
  function Xpt<G, X>(c: Curve<G, X>, p: G, s: G, i: int, j: int): X {
    c.x(Pt(c, p, s, i, j))
  }

  lemma Doubled<G(!new), X>(c: Curve<G, X>, p: G, s: G, i: int, j: int)
    requires Lawful(c)
    ensures c.dbl(Xpt(c, p, s, i, j)) == Xpt(c, p, s, 2 * i, 2 * j)
  {
    assert SignFree(c, Pt(c, p, s, i, j));
    PtAdd(c, p, s, i, j, i, j);
  }

  // ----- the same facts as seen by a ladder -----

  /** The operations a ladder performs. */
  datatype Ops<!X> = Ops(identity: X, dbl: X -> X, xadd: (X, X, X) -> X)

  /** What the ladder is about: the x-coordinate of i*p + j*s, and the differences that are allowed. */
  datatype Coords<!X> = Coords(at: (int, int) -> X, ok: (int, int) -> bool)

  ghost predicate SignLaw<X>(k: Coords<X>, i: int, j: int) {
    k.at(-i, -j) == k.at(i, j) && (k.ok(i, j) ==> k.ok(-i, -j))
  }

  ghost predicate DoubleLaw<X>(o: Ops<X>, k: Coords<X>, i: int, j: int) {
    o.dbl(k.at(i, j)) == k.at(2 * i, 2 * j)
  }

  /** Differential addition is right when it gets the difference of its operands. */
  ghost predicate AddLaw<X>(o: Ops<X>, k: Coords<X>, i: int, j: int, i': int, j': int) {
    k.ok(i - i', j - j') ==> o.xadd(k.at(i, j), k.at(i', j'), k.at(i - i', j - j')) == k.at(i + i', j + j')
  }

  ghost predicate LadderLaws<X>(o: Ops<X>, k: Coords<X>) {
    && o.identity == k.at(0, 0)
    && (forall i: int, j: int :: SignLaw(k, i, j))
    && (forall i: int, j: int :: DoubleLaw(o, k, i, j))
    && (forall i: int, j: int, i': int, j': int :: AddLaw(o, k, i, j, i', j'))
  }

  function OpsOf<G, X>(c: Curve<G, X>): Ops<X> {
    Ops(c.x(c.group.zero), c.dbl, c.xadd)
  }

  ghost function CoordsOf<G, X>(c: Curve<G, X>, p: G, s: G): Coords<X> {
    Coords((i: int, j: int) => Xpt(c, p, s, i, j), (i: int, j: int) => Regular(c, Pt(c, p, s, i, j)))
  }

  lemma CurveLadder<G(!new), X>(c: Curve<G, X>, p: G, s: G)
    requires Lawful(c)
    ensures LadderLaws(OpsOf(c), CoordsOf(c, p, s))
  {
    var o, k := OpsOf(c), CoordsOf(c, p, s);
    PtUnits(c, p, s);
    forall i: int, j: int ensures SignLaw(k, i, j) {
      PtNeg(c, p, s, i, j);
      RegularNeg(c, Pt(c, p, s, i, j));
    }
    forall i: int, j: int ensures DoubleLaw(o, k, i, j) {
      Doubled(c, p, s, i, j);
    }
    forall i: int, j: int, i': int, j': int ensures AddLaw(o, k, i, j, i', j') {
      Added(c, p, s, i, j, i', j');
    }
  }

  lemma RegularNeg<G(!new), X>(c: Curve<G, X>, d: G)
    requires Lawful(c)
    ensures Regular(c, d) ==> Regular(c, c.group.neg(d))
  {
    assert HasInverse(c.group, d) && HasInverse(c.group, c.group.zero) && HasInverse(c.group, c.group.neg(d));
    assert Commutes(c.group, d, c.group.neg(d));
    NegUnique(c.group, c.group.neg(d), d);
    NegUnique(c.group, c.group.zero, c.group.zero);
    NegUnique(c.group, c.origin, c.origin);
  }

  lemma Added<G(!new), X>(c: Curve<G, X>, p: G, s: G, i: int, j: int, k: int, l: int)
    requires Lawful(c)
    ensures Regular(c, Pt(c, p, s, i - k, j - l)) ==>
              c.xadd(Xpt(c, p, s, i, j), Xpt(c, p, s, k, l), Xpt(c, p, s, i - k, j - l)) == Xpt(c, p, s, i + k, j + l)
  {
    PtAdd(c, p, s, i, j, -k, -l);
    PtAdd(c, p, s, i, j, k, l);
    PtNeg(c, p, s, k, l);
    assert AddsWithDifference(c, Pt(c, p, s, i, j), Pt(c, p, s, k, l));
  }

  /** Differential addition whose difference operand is known as plus or minus (e, f). */
  method AddKnowing<X>(o: Ops<X>, x: X, y: X, d: X, ghost k: Coords<X>,
                       ghost i: int, ghost j: int, ghost i': int, ghost j': int, ghost e: int, ghost f: int)
    returns (r: X)
    requires LadderLaws(o, k)
    requires x == k.at(i, j) && y == k.at(i', j') && d == k.at(e, f) && k.ok(e, f)
    requires (i - i' == e && j - j' == f) || (i - i' == -e && j - j' == -f)
    ensures r == k.at(i + i', j + j')
  {
    assert SignLaw(k, e, f) && AddLaw(o, k, i, j, i', j');
    r := o.xadd(x, y, d);
  }

  // ----- points of finite order -----

  /** Both generators are killed by n. */
  ghost predicate Killed<G, X>(c: Curve<G, X>, p: G, s: G, n: nat) {
    Mul(c.group, n, p) == c.group.zero && Mul(c.group, n, s) == c.group.zero
  }

  /** A combination depends on its coefficients modulo the order only. */
  lemma PtPeriodic<G(!new), X>(c: Curve<G, X>, p: G, s: G, n: nat, i: int, j: int, t: int, u: int)
    requires Lawful(c) && Killed(c, p, s, n)
    ensures Pt(c, p, s, i + n * t, j + n * u) == Pt(c, p, s, i, j)
  {
    MulPeriodic(c.group, p, n, t);
    MulPeriodic(c.group, s, n, u);
    PtAdd(c, p, s, i, j, n * t, n * u);
    assert HasInverse(c.group, c.group.zero) && HasInverse(c.group, Pt(c, p, s, i, j));
  }

  /** p and s generate a group of order n * n. */
  ghost predicate IsBasis<G, X>(c: Curve<G, X>, p: G, s: G, n: nat) {
    Killed(c, p, s, n) && forall i: int, j: int :: Independent(c, p, s, n, i, j)
  }

  ghost predicate Independent<G, X>(c: Curve<G, X>, p: G, s: G, n: nat, i: int, j: int) {
    n > 0 && (Pt(c, p, s, i, j) == c.group.zero ==> i % n == 0 && j % n == 0)
  }

  /** A combination of a basis whose double is not the identity does not degenerate. */
  lemma BasisIsRegular<G(!new), X>(c: Curve<G, X>, p: G, s: G, n: nat, i: int, j: int)
    requires Lawful(c) && n > 0 && IsBasis(c, p, s, n)
    requires (2 * i) % n != 0 || (2 * j) % n != 0
    ensures Regular(c, Pt(c, p, s, i, j))
  {
    assert Independent(c, p, s, n, 2 * i, 2 * j);
    PtAdd(c, p, s, i, j, i, j);
    assert HasInverse(c.group, c.group.zero);
  }

  // ----- bases given by three x-coordinates -----

  datatype TorsionBasis<X> = TorsionBasis(P: X, Q: X, PmQ: X)

  ghost predicate Represents<G, X>(c: Curve<G, X>, b: TorsionBasis<X>, p: G, q: G) {
    b.P == c.x(p) && b.Q == c.x(q) && b.PmQ == c.x(Sub(c, p, q))
  }

  /** Taking the difference twice comes back. */
  lemma SubSub<G(!new), X>(c: Curve<G, X>, p: G, q: G)
    requires Lawful(c)
    ensures Sub(c, p, Sub(c, p, q)) == q
  {
    PtUnits(c, p, q);
    PtNeg(c, p, q, 0, 1);
    PtAdd(c, p, q, 1, 0, 0, -1);
    PtNeg(c, p, q, 1, -1);
    PtAdd(c, p, q, 1, 0, -1, 1);
  }

  /** The coordinates in (p, p - q), for small coefficients and for the order. */
  lemma DifferenceBasis<G(!new), X>(c: Curve<G, X>, p: G, q: G, n: nat)
    requires Lawful(c) && Killed(c, p, q, n)
    ensures var s := Sub(c, p, q);
            && Killed(c, p, s, n) && Pt(c, p, s, 1, 0) == p && Pt(c, p, s, 0, 1) == s
            && Pt(c, p, s, 1, -1) == q && Pt(c, p, s, 1, 1) == c.group.add(p, s)
  {
    var s := Sub(c, p, q);
    PtUnits(c, p, s);
    PtAdd(c, p, s, 1, 0, 0, 1);
    PtNeg(c, p, s, 0, 1);
    PtAdd(c, p, s, 1, 0, 0, -1);
    SubSub(c, p, q);
    MulDifference(c, n, p, q);
    assert HasInverse(c.group, c.group.zero);
  }

  lemma {:induction false} MulDifference<G(!new), X>(c: Curve<G, X>, n: nat, p: G, q: G)
    requires Lawful(c)
    ensures Mul(c.group, n, Sub(c, p, q)) == Sub(c, Mul(c.group, n, p), Mul(c.group, n, q))
  {
    PtUnits(c, p, q);
    PtNeg(c, p, q, 0, 1);
    PtAdd(c, p, q, 1, 0, 0, -1);
    MulOfPt(c, p, q, n, 1, -1);
    MulNeg(c.group, n, q);
  }

  /** A multiple of a combination is the combination of the multiples. */
  lemma {:induction false} MulOfPt<G(!new), X>(c: Curve<G, X>, p: G, q: G, n: nat, i: int, j: int)
    requires Lawful(c)
    ensures Mul(c.group, n, Pt(c, p, q, i, j)) == Pt(c, p, q, n * i, n * j)
  {
    if n == 0 {
      PtUnits(c, p, q);
    } else {
      MulOfPt(c, p, q, n - 1, i, j);
      PtAdd(c, p, q, i, j, (n - 1) * i, (n - 1) * j);
      assert i + (n - 1) * i == n * i && j + (n - 1) * j == n * j;
    }
  }
}
