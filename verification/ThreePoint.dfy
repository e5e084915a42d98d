/** The three-point ladder: P + m*(P - Q) from the lowest bit of m upward. */
module ThreePoint {
  import opened Arith
  import opened Limbs
  import opened Groups
  import opened XOnly
  import opened ChangeOfBasis

  /** No point p + j*s degenerates. */
  ghost predicate LineRegular<X>(k: Coords<X>) {
    forall j: int :: k.ok(1, j)
  }

  lemma LineOfBasis<G(!new), X>(c: Curve<G, X>, p: G, s: G, e: nat)
    requires Lawful(c) && e >= 2 && IsBasis(c, p, s, Pow2(e))
    ensures LineRegular(CoordsOf(c, p, s))
  {
    assert Pow2(e) == 2 * Pow2(e - 1) && Pow2(e - 1) == 2 * Pow2(e - 2);
    forall j: int ensures CoordsOf(c, p, s).ok(1, j) {
      BasisIsRegular(c, p, s, Pow2(e), 1, j);
    }
  }

  /** No difference degenerates in a run on a basis, whose increment starts from the difference. */
  lemma LineOfDifference<G(!new), X>(c: Curve<G, X>, p: G, q: G, e: nat)
    requires Lawful(c) && e >= 2 && IsBasis(c, p, q, Pow2(e))
    ensures LineRegular(CoordsOf(c, p, Sub(c, p, q)))
  {
    DifferenceIsBasis(c, p, q, Pow2(e));
    LineOfBasis(c, p, Sub(c, p, q), e);
  }

  /** The increment, the running point, and their difference, after n has been added at weights below w. */
  ghost predicate Rungs<X>(k: Coords<X>, x0: X, x1: X, x2: X, w: int, n: int) {
    x0 == k.at(0, w) && x1 == k.at(1, n) && x2 == k.at(1, n - w)
  }

  /** Double the increment, and add it to the running point or to the difference. */
  method LadderBit<X>(o: Ops<X>, x0: X, x1: X, x2: X, bit: nat, ghost k: Coords<X>, ghost w: int, ghost n: int)
    returns (y0: X, y1: X, y2: X)
    requires LadderLaws(o, k) && LineRegular(k) && bit <= 1 && Rungs(k, x0, x1, x2, w, n)
    ensures Rungs(k, y0, y1, y2, 2 * w, n + bit * w)
  {
    y1, y2 := if bit == 0 then x2 else x1, if bit == 0 then x1 else x2;
    assert DoubleLaw(o, k, 0, w);
    y0 := o.dbl(x0);
    if bit == 0 {
      assert SignLaw(k, 1, n - w) && SignLaw(k, -1, w - n) && SignLaw(k, 1, n - 2 * w);
      y1 := AddKnowing(o, x0, y1, y2, k, 0, w, -1, w - n, 1, n);
    } else {
      y1 := AddKnowing(o, x0, y1, y2, k, 0, w, 1, n, 1, n - w);
    }
    y1, y2 := if bit == 0 then y2 else y1, if bit == 0 then y1 else y2;
  }

  /** The bits still to be read, z, are split into their lowest bit and the others. */
  lemma ReadBit(n: int, w: int, z: int)
    ensures (n + z % 2 * w) + 2 * w * (z / 2) == n + w * z
  {
    assert w * z == w * (z % 2 + 2 * (z / 2));
  }

  /** The unread bits after i bits of the first limb. */
  function Unread(limb: nat, i: nat, rest: nat): int
    requires i <= 64
  {
    limb / Pow2(i) + Pow2(64 - i) * rest
  }

  lemma UnreadStep(limb: nat, i: nat, rest: nat)
    requires i < 64
    ensures Unread(limb, i, rest) % 2 == limb / Pow2(i) % 2
    ensures Unread(limb, i, rest) / 2 == Unread(limb, i + 1, rest)
  {
    ShiftOnce(limb, i);
    var x, y := limb / Pow2(i), Pow2(63 - i) * rest;
    assert Pow2(64 - i) * rest == 2 * y;
    SplitBit(x, y);
  }

  lemma SplitBit(x: int, y: int)
    ensures (x + 2 * y) % 2 == x % 2 && (x + 2 * y) / 2 == x / 2 + y
  {
  }

  lemma UnreadEnds(limb: nat, rest: nat)
    requires IsLimb(limb)
    ensures Unread(limb, 0, rest) == limb + LIMB * rest && Unread(limb, 64, rest) == rest
  {
    assert Pow2(0) == 1;
    LimbIsPower(64);
    QuotientUnique(LIMB, 0, limb, limb);
  }

  method ScalarMulAdd<G(!new), X>(c: Curve<G, X>, basis: TorsionBasis<X>, m: seq<nat>, ghost p: G, ghost q: G)
    returns (r: X)
    requires Lawful(c) && Represents(c, basis, p, q) && IsScalar(m)
    requires LineRegular(CoordsOf(c, p, Sub(c, p, q)))
    ensures r == c.x(c.group.add(p, Mul(c.group, LimbNat(m), Sub(c, p, q))))
  {
    ghost var k := CoordsOf(c, p, Sub(c, p, q));
    CurveLadder(c, p, Sub(c, p, q));
    LadderSeeds(c, p, q);
    r := LadderLimbs(OpsOf(c), basis, m, k);
    LadderResult(c, p, Sub(c, p, q), LimbNat(m));
  }

  method LadderLimbs<X>(o: Ops<X>, basis: TorsionBasis<X>, m: seq<nat>, ghost k: Coords<X>) returns (x1: X)
    requires LadderLaws(o, k) && LineRegular(k) && IsScalar(m)
    requires Rungs(k, basis.PmQ, basis.P, basis.Q, 1, 0)
    ensures x1 == k.at(1, LimbNat(m))
  {
    var x0, x2 := basis.PmQ, basis.Q;
    x1 := basis.P;
    ghost var w, n, z := 1, 0, LimbNat(m);
    var l := 0;
    assert m[0..] == m;
    while l < 4
      invariant 0 <= l <= 4
      invariant Rungs(k, x0, x1, x2, w, n)
      invariant z == LimbNat(m[l..]) && n + w * z == LimbNat(m)
    {
      NextLimb(m, l);
      z := LimbNat(m[l + 1..]);
      x0, x1, x2, w, n := LadderLimb(o, x0, x1, x2, m[l], k, w, n, z);
      l := l + 1;
    }
    NoLimbs(m);
  }

  lemma NextLimb(m: seq<nat>, l: nat)
    requires l < |m| && IsLimb(m[l])
    ensures LimbNat(m[l..]) == Unread(m[l], 0, LimbNat(m[l + 1..]))
  {
    assert m[l..][1..] == m[l + 1..];
    UnreadEnds(m[l], LimbNat(m[l + 1..]));
  }

  lemma NoLimbs(m: seq<nat>)
    ensures LimbNat(m[|m|..]) == 0
  {
  }

  method LadderLimb<X>(o: Ops<X>, x0: X, x1: X, x2: X, limb: nat, ghost k: Coords<X>, ghost w: int, ghost n: int, ghost rest: nat)
    returns (y0: X, y1: X, y2: X, ghost w': int, ghost n': int)
    requires LadderLaws(o, k) && LineRegular(k) && IsLimb(limb) && Rungs(k, x0, x1, x2, w, n)
    ensures Rungs(k, y0, y1, y2, w', n') && n' + w' * rest == n + w * Unread(limb, 0, rest)
  {
    y0, y1, y2 := x0, x1, x2;
    w', n' := w, n;
    ghost var z := Unread(limb, 0, rest);
    var i := 0;
    while i < 64
      invariant 0 <= i <= 64
      invariant Rungs(k, y0, y1, y2, w', n')
      invariant z == Unread(limb, i, rest) && n' + w' * z == n + w * Unread(limb, 0, rest)
    {
      var bit := (limb / Pow2(i)) % 2;
      UnreadStep(limb, i, rest);
      ReadBit(n', w', z);
      y0, y1, y2 := LadderBit(o, y0, y1, y2, bit, k, w', n');
      w', n', z := 2 * w', n' + bit * w', z / 2;
      i := i + 1;
    }
    UnreadEnds(limb, rest);
  }

  lemma LadderSeeds<G(!new), X>(c: Curve<G, X>, p: G, q: G)
    requires Lawful(c)
    ensures var k := CoordsOf(c, p, Sub(c, p, q));
            c.x(Sub(c, p, q)) == k.at(0, 1) && c.x(p) == k.at(1, 0) && c.x(q) == k.at(1, -1)
  {
    var s := Sub(c, p, q);
    PtUnits(c, p, s);
    PtNeg(c, p, s, 0, 1);
    PtAdd(c, p, s, 1, 0, 0, -1);
    SubSub(c, p, q);
  }

  lemma LadderResult<G(!new), X>(c: Curve<G, X>, p: G, s: G, n: int)
    requires Lawful(c)
    ensures CoordsOf(c, p, s).at(1, n) == c.x(c.group.add(p, Mul(c.group, n, s)))
  {
    PtUnits(c, p, s);
    PtAdd(c, p, s, 1, 0, 0, n);
    assert HasInverse(c.group, Mul(c.group, n, s)) && Commutes(c.group, c.group.zero, Mul(c.group, n, s));
  }
}
