/** The two-dimensional response isogeny on the signer's and on the verifier's side: which response lengths get through. */
module ResponseChain {
  import opened Options
  import opened ThetaChain
  import opened Response
  import opened Groups
  import opened XOnly
  import opened ChangeOfBasis

  /** The result of the naive chain of length e: its last surface and passengers, split. */
  function ChainResult<A, Y, T, V, W>(ch: Chain<A, Y, T, V, W>, p: Pair<A>, e: nat, pts: seq<Y>): Option<W>
    requires e >= 2
  {
    var run := NaiveChain(ch, p, e, pts, false);
    ch.split(run.surface, run.passengers)
  }

  /** The signer's auxiliary splitting on a kernel of order 2^(e' + 2), reduced from the full torsion; the kernel is absent
      when its points could not be lifted. */
  method SplitAuxiliary<A(!new), Y, T(!new), V, W>(ch: Chain<A, Y, T, V, W>, lifted: Option<Pair<A>>, x: Exponents, ghost n: nat,
                                                   pts: seq<Y>)
    returns (r: Option<W>)
    requires Homomorphic(ch) && SoundExponents(x, n)
    ensures r == if lifted.Some? && x.e >= 2 then ChainResult(ch, lifted.value, x.e, pts) else None
    ensures r.Some? ==> n + x.r + 2 <= E_RSP
  {
    if x.e + 2 + x.r > F || lifted.None? {
      return None;
    }
    var image, run, levels, deepest := Isogeny(ch, lifted.value, x.e, pts);
    r := image;
  }

  // ----- the test that stands in for the chain -----

  /** Four times p, and twice p, on x-coordinates: order exactly four. */
  method HasOrderFour<G(!new), X(==)>(c: Curve<G, X>, x: X, ghost p: G) returns (ok: bool, two: X)
    requires Lawful(c) && Separates(c) && x == c.x(p)
    ensures two == c.x(Mul(c.group, 2, p))
    ensures ok <==> Mul(c.group, 4, p) == c.group.zero && Mul(c.group, 2, p) != c.group.zero
  {
    two := c.dbl(x);
    var four := c.dbl(two);
    DoubledTwice(c, p);
    OnlyIdentity(c, Mul(c.group, 2, p));
    OnlyIdentity(c, Mul(c.group, 4, p));
    ok := four == c.x(c.group.zero) && two != c.x(c.group.zero);
  }

  lemma DoubledTwice<G(!new), X>(c: Curve<G, X>, p: G)
    requires Lawful(c)
    ensures c.dbl(c.x(p)) == c.x(Mul(c.group, 2, p)) && c.dbl(c.x(Mul(c.group, 2, p))) == c.x(Mul(c.group, 4, p))
  {
    MulOne(c.group, p);
    MulAdd(c.group, 1, 1, p);
    MulAdd(c.group, 2, 2, p);
    assert SignFree(c, p) && SignFree(c, Mul(c.group, 2, p));
  }

  lemma OnlyIdentity<G(!new), X>(c: Curve<G, X>, p: G)
    requires Lawful(c) && Separates(c)
    ensures c.x(p) == c.x(c.group.zero) <==> p == c.group.zero
  {
    var zero := c.group.zero;
    assert SeparatesAt(c, p, zero) && HasInverse(c.group, zero);
    NegUnique(c.group, zero, zero);
  }

  /** The verifier's test in place of the chain: both points of order four, and their doubles different. */
  method SpansFourTorsion<G(!new), X(==)>(c: Curve<G, X>, xp: X, xq: X, ghost p: G, ghost q: G) returns (ok: bool)
    requires Lawful(c) && Separates(c) && xp == c.x(p) && xq == c.x(q)
    ensures ok <==> IsBasis(c, p, q, 4)
  {
    var okP, twoP := HasOrderFour(c, xp, p);
    var okQ, twoQ := HasOrderFour(c, xq, q);
    ok := okP && okQ && twoP != twoQ;
    FourTorsionIff(c, p, q);
  }

  /** The test, said of the points. */
  ghost predicate PassesTest<G, X>(c: Curve<G, X>, p: G, q: G) {
    && Killed(c, p, q, 4) && Mul(c.group, 2, p) != c.group.zero && Mul(c.group, 2, q) != c.group.zero
    && c.x(Mul(c.group, 2, p)) != c.x(Mul(c.group, 2, q))
  }

  lemma FourTorsionIff<G(!new), X>(c: Curve<G, X>, p: G, q: G)
    requires Lawful(c) && Separates(c)
    ensures PassesTest(c, p, q) <==> IsBasis(c, p, q, 4)
  {
    if IsBasis(c, p, q, 4) {
      BasisPasses(c, p, q);
    }
    if PassesTest(c, p, q) {
      forall i: int, j: int ensures Independent(c, p, q, 4, i, j) {
        if Pt(c, p, q, i, j) == c.group.zero {
          BothEven(c, p, q, i, j);
          HalvesEven(c, p, q, i / 2, j / 2);
        }
      }
    }
  }

  lemma TwicePoints<G(!new), X>(c: Curve<G, X>, p: G, q: G)
    requires Lawful(c)
    ensures Pt(c, p, q, 2, 0) == Mul(c.group, 2, p) && Pt(c, p, q, 0, 2) == Mul(c.group, 2, q)
  {
    PairUnits(c, p, q);
    MulPt(c, p, q, 2, 1, 0);
    MulPt(c, p, q, 2, 0, 1);
  }

  lemma BasisPasses<G(!new), X>(c: Curve<G, X>, p: G, q: G)
    requires Lawful(c) && Separates(c) && IsBasis(c, p, q, 4)
    ensures PassesTest(c, p, q)
  {
    TwicePoints(c, p, q);
    assert Independent(c, p, q, 4, 2, 0) && Independent(c, p, q, 4, 0, 2) && Independent(c, p, q, 4, 2, -2) && Independent(c, p, q, 4, 2, 2);
    if c.x(Mul(c.group, 2, p)) == c.x(Mul(c.group, 2, q)) {
      SameDoubles(c, p, q);
    }
  }

  /** Doubles with one x-coordinate are equal or opposite. */
  lemma SameDoubles<G(!new), X>(c: Curve<G, X>, p: G, q: G)
    requires Lawful(c) && Separates(c) && c.x(Mul(c.group, 2, p)) == c.x(Mul(c.group, 2, q))
    ensures Pt(c, p, q, 2, -2) == c.group.zero || Pt(c, p, q, 2, 2) == c.group.zero
  {
    var u, v := Mul(c.group, 2, p), Mul(c.group, 2, q);
    TwicePoints(c, p, q);
    assert SeparatesAt(c, u, v);
    PtNeg(c, p, q, 0, 2);
    PtAdd(c, p, q, 2, 0, 0, -2);
    PtAdd(c, p, q, 2, 0, 0, 2);
    assert HasInverse(c.group, v) && Commutes(c.group, v, c.group.neg(v));
  }

  lemma OppositeDoubles<G(!new), X>(c: Curve<G, X>, p: G, q: G)
    requires Lawful(c) && Pt(c, p, q, 2, 2) == c.group.zero
    ensures c.x(Mul(c.group, 2, p)) == c.x(Mul(c.group, 2, q))
  {
    TwicePoints(c, p, q);
    PtAdd(c, p, q, 2, 0, 0, 2);
    NegUnique(c.group, Mul(c.group, 2, p), Mul(c.group, 2, q));
    assert SignFree(c, Mul(c.group, 2, p));
  }

  /** A combination of the doubles that vanishes has even coefficients. */
  lemma HalvesEven<G(!new), X>(c: Curve<G, X>, p: G, q: G, i: int, j: int)
    requires Lawful(c) && PassesTest(c, p, q) && Pt(c, p, q, 2 * i, 2 * j) == c.group.zero
    ensures (2 * i) % 4 == 0 && (2 * j) % 4 == 0
  {
    PtPeriodic(c, p, q, 4, 2 * (i % 2), 2 * (j % 2), i / 2, j / 2);
    TwicePoints(c, p, q);
    assert Pt(c, p, q, 2 * (i % 2), 2 * (j % 2)) == c.group.zero;
    if i % 2 == 1 && j % 2 == 1 {
      OppositeDoubles(c, p, q);
    }
  }

  lemma BothEven<G(!new), X>(c: Curve<G, X>, p: G, q: G, i: int, j: int)
    requires Lawful(c) && PassesTest(c, p, q) && Pt(c, p, q, i, j) == c.group.zero
    ensures i % 2 == 0 && j % 2 == 0 && Pt(c, p, q, 2 * (i / 2), 2 * (j / 2)) == c.group.zero
  {
    PtAdd(c, p, q, i, j, i, j);
    assert HasInverse(c.group, c.group.zero);
    HalvesEven(c, p, q, i, j);
  }

  // ----- the verifier -----

  /** Rejected, accepted without a chain up to the challenge, or the codomain of the chain. */
  datatype Outcome<W> = Rejected | Direct | Codomain(value: W)

  /** The verifier's side, after its point bookkeeping, which leaves the points p and q. The kernel is absent when its points
      could not be lifted; isotropic is the verifier's check of it. */
  method VerifyChain<G(!new), X(==), A(!new), Y, T(!new), V, W>(c: Curve<G, X>, xp: X, xq: X, ghost p: G, ghost q: G,
                                                              ch: Chain<A, Y, T, V, W>, lifted: Option<Pair<A>>, n: nat, r: nat, isotropic: bool)
    returns (out: Outcome<W>)
    requires Homomorphic(ch) && Lawful(c) && Separates(c) && xp == c.x(p) && xq == c.x(q)
    ensures n + r > E_RSP || n + r == E_RSP - 1 ==> out == Rejected
    ensures n + r == E_RSP ==> (out == Direct <==> IsBasis(c, p, q, 4)) && (out == Rejected <==> !IsBasis(c, p, q, 4))
    ensures n + r + 2 <= E_RSP ==>
              out == if lifted.None? || !isotropic || ChainResult(ch, lifted.value, E_RSP - n - r, []).None? then Rejected
                     else Codomain(ChainResult(ch, lifted.value, E_RSP - n - r, []).value)
  {
    var counts := VerifyCounts(n, r);
    if counts.None? {
      return Rejected;
    }
    if counts.value.e == 0 {
      var spans := SpansFourTorsion(c, xp, xq, p, q);
      return if spans then Direct else Rejected;
    }
    if lifted.None? || !isotropic {
      return Rejected;
    }
    var image, run, levels, deepest := Isogeny(ch, lifted.value, counts.value.e, []);
    out := if image.None? then Rejected else Codomain(image.value);
  }
}
