/** Evaluating order elements as matrices modulo 2^f, and what the isogeny computation gets from that. */
module Actions {
  import opened Arith
  import opened Options
  import opened Linear4
  import opened Lattices
  import opened Modular
  import opened Matrices2
  import opened Quaternions
  import opened Deuring

  // ----- matrix arithmetic modulo 2^f -----

  function MatMulMod(m: Mat2, n: Mat2, f: nat): (r: Mat2)
    requires Reduced2(m, Pow2(f)) && Reduced2(n, Pow2(f))
    ensures Reduced2(r, Pow2(f)) && Cong2(r, Times(m, n), Pow2(f))
  {
    DotModCong(m.a, n.a, m.b, n.c, f);
    DotModCong(m.a, n.b, m.b, n.d, f);
    DotModCong(m.c, n.a, m.d, n.c, f);
    DotModCong(m.c, n.b, m.d, n.d, f);
    Mat2(DotMod(m.a, n.a, m.b, n.c, f), DotMod(m.a, n.b, m.b, n.d, f),
         DotMod(m.c, n.a, m.d, n.c, f), DotMod(m.c, n.b, m.d, n.d, f))
  }

  function DotMod(a: nat, b: nat, c: nat, d: nat, f: nat): nat {
    AddMod2k(MulMod2k(a, b, f), MulMod2k(c, d, f), f)
  }

  lemma DotModCong(a: nat, b: nat, c: nat, d: nat, f: nat)
    ensures DotMod(a, b, c, d, f) < Pow2(f) && Cong(DotMod(a, b, c, d, f), a * b + c * d, Pow2(f))
  {
    var ab, cd := MulMod2k(a, b, f), MulMod2k(c, d, f);
    CongAdd(ab, a * b, cd, c * d, Pow2(f));
    CongTrans(AddMod2k(ab, cd, f), ab + cd, a * b + c * d, Pow2(f));
  }

  function AdjugateMod(m: Mat2, f: nat): (r: Mat2)
    requires Reduced2(m, Pow2(f))
    ensures Reduced2(r, Pow2(f)) && Cong2(r, Adj2(m), Pow2(f))
  {
    AdjugateEntries(m, SubMod2k(0, m.b, f), SubMod2k(0, m.c, f), Pow2(f));
    Mat2(m.d, SubMod2k(0, m.b, f), SubMod2k(0, m.c, f), m.a)
  }

  lemma AdjugateEntries(m: Mat2, b: int, c: int, n: int)
    requires Cong(b, 0 - m.b, n) && Cong(c, 0 - m.c, n)
    ensures Cong2(Mat2(m.d, b, c, m.a), Adj2(m), n)
  {
    CongRefl(m.a, n);
    CongRefl(m.d, n);
  }

  /** Reduced matrices that are congruent are equal. */
  lemma Cong2Equal(m: Mat2, n: Mat2, k: int)
    requires k > 0 && Cong2(m, n, k) && Reduced2(m, k) && Reduced2(n, k)
    ensures m == n
  {
    CongEqual(m.a, n.a, k);
    CongEqual(m.b, n.b, k);
    CongEqual(m.c, n.c, k);
    CongEqual(m.d, n.d, k);
  }

  lemma Cong2Divisor(m: Mat2, n: Mat2, k: int, l: int)
    requires Cong2(m, n, k * l)
    ensures Cong2(m, n, k)
  {
    CongDivisor(m.a, n.a, k, l);
    CongDivisor(m.b, n.b, k, l);
    CongDivisor(m.c, n.c, k, l);
    CongDivisor(m.d, n.d, k, l);
  }

  /** 2^248 is a multiple of every smaller power. */
  lemma SmallerPower(f: nat)
    requires f <= 248
    ensures N == Pow2(f) * Pow2(248 - f)
  {
    FullPower(248);
    Pow2Add(f, 248 - f);
  }

  lemma FullPower(n: nat)
    requires n == 248
    ensures Pow2(n) == N
  {
    assert Pow2(8) == 256;
    Pow2Square(8, 256);
    Pow2Square(16, 0x1_0000);
    Pow2Square(32, 0x1_0000_0000);
    Pow2Square(64, 0x1_0000_0000_0000_0000);
    Pow2Times(128, 0x1_0000_0000_0000_0000_0000_0000_0000_0000, 64, 0x1_0000_0000_0000_0000);
    Pow2Times(192, 0x1_0000_0000_0000_0000_0000_0000_0000_0000_0000_0000_0000_0000, 32, 0x1_0000_0000);
    Pow2Times(224, 0x1_0000_0000_0000_0000_0000_0000_0000_0000_0000_0000_0000_0000_0000_0000, 16, 0x1_0000);
    Pow2Times(240, 0x1_0000_0000_0000_0000_0000_0000_0000_0000_0000_0000_0000_0000_0000_0000_0000, 8, 256);
  }

  lemma Pow2Square(n: nat, x: int)
    requires Pow2(n) == x
    ensures Pow2(2 * n) == x * x
  {
    Pow2Add(n, n);
  }

  lemma Pow2Times(m: nat, x: int, n: nat, y: int)
    requires Pow2(m) == x && Pow2(n) == y
    ensures Pow2(m + n) == x * y
  {
    Pow2Add(m, n);
  }

  // ----- the action of an element -----

  /** m is the reduced matrix of the order element alpha. */
  ghost predicate IsAction(g: Generators, alpha: Element, f: nat, m: Mat2) {
    Reduced2(m, Pow2(f)) && exists c: Vec :: ActionAt(g, alpha, f, m, c)
  }

  ghost predicate ActionAt(g: Generators, alpha: Element, f: nat, m: Mat2, c: Vec) {
    Coordinates(O0, alpha, c) && Cong2(m, Rho(g, c), Pow2(f))
  }

  /** Adds one reduced coordinate times one generator. */
  method AddScaled(m: Mat2, s: nat, n: Mat2, f: nat, ghost e: Mat2, ghost c: int) returns (r: Mat2)
    requires Reduced2(m, Pow2(f)) && 0 <= n.a && 0 <= n.b && 0 <= n.c && 0 <= n.d
    requires Cong2(m, e, Pow2(f)) && Cong(s, c, Pow2(f))
    ensures Reduced2(r, Pow2(f)) && Cong2(r, Plus(e, ScaleBy(c, n)), Pow2(f))
  {
    AddScaledEntry(m.a, e.a, s, c, n.a, f);
    AddScaledEntry(m.b, e.b, s, c, n.b, f);
    AddScaledEntry(m.c, e.c, s, c, n.c, f);
    AddScaledEntry(m.d, e.d, s, c, n.d, f);
    r := Mat2(AddMod2k(m.a, MulMod2k(s, n.a, f), f), AddMod2k(m.b, MulMod2k(s, n.b, f), f),
              AddMod2k(m.c, MulMod2k(s, n.c, f), f), AddMod2k(m.d, MulMod2k(s, n.d, f), f));
  }

  lemma AddScaledEntry(x: nat, e: int, s: nat, c: int, n: nat, f: nat)
    requires Cong(x, e, Pow2(f)) && Cong(s, c, Pow2(f))
    ensures Cong(AddMod2k(x, MulMod2k(s, n, f), f), e + c * n, Pow2(f))
  {
    var d, sn := Pow2(f), MulMod2k(s, n, f);
    CongRefl(n, d);
    CongMul(s, c, n, n, d);
    CongTrans(sn, s * n, c * n, d);
    CongAdd(x, e, sn, c * n, d);
    CongTrans(AddMod2k(x, sn, f), x + sn, e + c * n, d);
  }

  function Generator(g: Generators, k: nat): Mat2 {
    if k == 0 then g.g2 else if k == 1 then g.g3 else g.g4
  }

  /** The combination of the identity and the first k generators. */
  function Partial(g: Generators, c: Vec, k: nat): Mat2 {
    if k == 0 then ScaleBy(c.a, I2) else Plus(Partial(g, c, k - 1), ScaleBy(At(c, if k > 3 then 3 else k), Generator(g, k - 1)))
  }

  lemma PartialIsRho(g: Generators, c: Vec)
    ensures Partial(g, c, 3) == Rho(g, c)
  {
    assert Partial(g, c, 0) == Mat2(c.a, c.a * 0, c.a * 0, c.a);
    assert Partial(g, c, 1) == Plus(Partial(g, c, 0), ScaleBy(c.b, g.g2));
    assert Partial(g, c, 2) == Plus(Partial(g, c, 1), ScaleBy(c.c, g.g3));
  }

  predicate NonNegative(g: Generators) {
    Reduced2(g.g2, N) && Reduced2(g.g3, N) && Reduced2(g.g4, N)
  }

  /** The matrix of an element of the order modulo 2^f, or nothing when the element is not in the order. */
  method Apply(g: Generators, alpha: Element, f: nat) returns (r: Option<Mat2>)
    requires alpha.denom != 0 && NonNegative(g)
    ensures r.None? <==> !Member(O0, alpha)
    ensures r.Some? ==> IsAction(g, alpha, f, r.value)
  {
    var coords := OrderCoordinates(O0, alpha);
    if coords.None? {
      return None;
    }
    var c := coords.value;
    assert Coordinates(O0, alpha, c);
    var result := Assemble(g, c, f);
    assert ActionAt(g, alpha, f, result, c);
    r := Some(result);
  }

  method Assemble(g: Generators, c: Vec, f: nat) returns (r: Mat2)
    requires NonNegative(g)
    ensures Reduced2(r, Pow2(f)) && Cong2(r, Rho(g, c), Pow2(f))
  {
    var modulus := Pow2(f);
    var c0 := c.a % modulus;
    r := Mat2(c0, 0, 0, c0);
    CongMod(c.a, modulus);
    CongRefl(0, modulus);
    assert ScaleBy(c.a, I2) == Mat2(c.a, 0, 0, c.a);
    var k := 0;
    while k < 3
      invariant 0 <= k <= 3
      invariant Reduced2(r, Pow2(f)) && Cong2(r, Partial(g, c, k), Pow2(f))
    {
      var s := At(c, k + 1) % modulus;
      CongMod(At(c, k + 1), modulus);
      r := AddScaled(r, s, Generator(g, k), f, Partial(g, c, k), At(c, k + 1));
      k := k + 1;
    }
    PartialIsRho(g, c);
  }

  /** The action does not depend on how the element is written. */
  lemma ActionUnique(g: Generators, alpha: Element, f: nat, m: Mat2, m': Mat2)
    requires alpha.denom != 0 && IsAction(g, alpha, f, m) && IsAction(g, alpha, f, m')
    ensures m == m'
  {
    var c :| ActionAt(g, alpha, f, m, c);
    var c' :| ActionAt(g, alpha, f, m', c');
    OrderUnique(alpha, c, c');
    Cong2Sym(m', Rho(g, c), Pow2(f));
    Cong2Trans(m, Rho(g, c), m', Pow2(f));
    Cong2Equal(m, m', Pow2(f));
  }

  /** The matrix of a product is the product of the matrices, for every f up to 248. */
  lemma ActionOfProduct(quart: int, g: Generators, alpha: Element, beta: Element, f: nat, m: Mat2, n: Mat2)
    requires Acts(quart, g) && f <= 248 && IsAction(g, alpha, f, m) && IsAction(g, beta, f, n)
    ensures IsAction(g, Multiply(quart, alpha, beta), f, MatMulMod(m, n, f))
  {
    var x :| ActionAt(g, alpha, f, m, x);
    var y :| ActionAt(g, beta, f, n, y);
    ProductCoordinates(quart, alpha, beta, x, y);
    RhoMul(quart, g, x, y);
    SmallerPower(f);
    var d := Pow2(f);
    Cong2Divisor(Times(Rho(g, x), Rho(g, y)), Rho(g, OrderMul(quart, x, y)), d, Pow2(248 - f));
    Cong2Times(m, Rho(g, x), n, Rho(g, y), d);
    Cong2Trans(MatMulMod(m, n, f), Times(m, n), Times(Rho(g, x), Rho(g, y)), d);
    Cong2Trans(MatMulMod(m, n, f), Times(Rho(g, x), Rho(g, y)), Rho(g, OrderMul(quart, x, y)), d);
    assert ActionAt(g, Multiply(quart, alpha, beta), f, MatMulMod(m, n, f), OrderMul(quart, x, y));
  }

  /** The matrix of the conjugate is the adjugate. */
  lemma ActionOfConjugate(quart: int, g: Generators, alpha: Element, f: nat, m: Mat2)
    requires Acts(quart, g) && f <= 248 && IsAction(g, alpha, f, m)
    ensures IsAction(g, Conjugate(alpha), f, AdjugateMod(m, f))
  {
    var x :| ActionAt(g, alpha, f, m, x);
    ConjugateCoordinates(alpha, x);
    RhoConj(quart, g, x);
    SmallerPower(f);
    var d := Pow2(f);
    Cong2Divisor(Adj2(Rho(g, x)), Rho(g, OrderConj(x)), d, Pow2(248 - f));
    Cong2Adj(m, Rho(g, x), d);
    Cong2Trans(AdjugateMod(m, f), Adj2(m), Adj2(Rho(g, x)), d);
    Cong2Trans(AdjugateMod(m, f), Adj2(Rho(g, x)), Rho(g, OrderConj(x)), d);
    assert ActionAt(g, Conjugate(alpha), f, AdjugateMod(m, f), OrderConj(x));
  }

  /** n is the reduced norm of alpha. */
  predicate HasNorm(quart: int, alpha: Element, n: int) {
    alpha.denom != 0 && NormNumerator(quart, alpha.coords) == alpha.denom * alpha.denom * n
  }

  /** The determinant of the matrix is the reduced norm. */
  lemma ActionDeterminant(quart: int, g: Generators, alpha: Element, f: nat, m: Mat2, n: int)
    requires Acts(quart, g) && f <= 248 && IsAction(g, alpha, f, m) && HasNorm(quart, alpha, n)
    ensures Cong(Det2(m), n, Pow2(f))
  {
    var x :| ActionAt(g, alpha, f, m, x);
    NormOfCoordinates(quart, alpha, x);
    ProductNonZero(alpha.denom, alpha.denom);
    CancelFactor(alpha.denom * alpha.denom, n, OrderNorm(quart, x));
    RhoDet(quart, g, x);
    SmallerPower(f);
    CongDivisor(Det2(Rho(g, x)), n, Pow2(f), Pow2(248 - f));
    Cong2Det(m, Rho(g, x), Pow2(f));
    CongTrans(Det2(m), Det2(Rho(g, x)), n, Pow2(f));
  }

  // ----- degrees in the isogeny computation -----

  /** The determinant of a scaled matrix, when the scale inverts s. */
  lemma ScaledDeterminant(m: Mat2, n: int, t: int, s: int, d: int)
    requires Cong(Det2(m), n, d) && Cong(t * s, 1, d)
    ensures Cong(s * s * Det2(ScaleBy(t, m)), n, d)
  {
    DetScale(t, m);
    CongMul(t * s, 1, t * s, 1, d);
    CongMul((t * s) * (t * s), 1, Det2(m), n, d);
    assert s * s * (t * t * Det2(m)) == (t * s) * (t * s) * Det2(m);
  }

  /** The output basis: the chain contributes degree d1*u^2 and the matrix 1/(u*d1) of beta1, whose norm is d1
      times that of the ideal. In total that is the norm of the ideal. */
  lemma TotalDeterminant(quart: int, g: Generators, beta1: Element, f: nat, m: Mat2, d1: int, u: int, norm: int, t: int)
    requires Acts(quart, g) && f <= 248 && IsAction(g, beta1, f, m) && HasNorm(quart, beta1, d1 * norm)
    requires Cong(t * (u * d1), 1, Pow2(f))
    ensures Cong(d1 * (u * u) * Det2(ScaleBy(t, m)), norm, Pow2(f))
  {
    var d := Pow2(f);
    ActionDeterminant(quart, g, beta1, f, m, d1 * norm);
    ScaledDeterminant(m, d1 * norm, t, u * d1, d);
    OneDegree(d1, u, t, Det2(ScaleBy(t, m)), norm, d);
  }

  lemma OneDegree(d1: int, u: int, t: int, x: int, norm: int, d: int)
    requires Cong((u * d1) * (u * d1) * x, d1 * norm, d) && Cong(t * (u * d1), 1, d)
    ensures Cong(d1 * (u * u) * x, norm, d)
  {
    SquareOut(d1, u, x);
    TimesAssoc(t, u, d1);
    CancelUnit(d1, t * u, d1 * (u * u) * x, norm, d);
  }

  lemma SquareOut(a: int, b: int, x: int)
    ensures (b * a) * (b * a) * x == a * (a * (b * b) * x)
  {
    assert (b * a) * (b * a) == a * (a * (b * b));
  }

  /** A factor that has an inverse may be cancelled. */
  lemma CancelUnit(a: int, inverse: int, x: int, y: int, d: int)
    requires Cong(inverse * a, 1, d) && Cong(a * x, a * y, d)
    ensures Cong(x, y, d)
  {
    CongRefl(inverse, d);
    CongRefl(x, d);
    CongRefl(y, d);
    CongMul(inverse, inverse, a * x, a * y, d);
    CongMul(inverse * a, 1, x, x, d);
    CongMul(inverse * a, 1, y, y, d);
    assert inverse * (a * x) == (inverse * a) * x && inverse * (a * y) == (inverse * a) * y;
    CongSym((inverse * a) * x, x, d);
    CongTrans(x, (inverse * a) * x, (inverse * a) * y, d);
    CongTrans(x, (inverse * a) * y, y, d);
  }

  /** The kernel of the outer chain. The norms of beta1 and beta2 and the pairings of the bases of their curves carry the
      connecting norms cs and ct of those curves (one for the first curve). So the first component has degree u*cs, and the
      second one v*ct times the determinant of beta2*conj(beta1) scaled by 1/(norm*d1*ct). Since u*d1 + v*d2 = 2^e these
      cancel on the 2^e-torsion. */
  lemma OuterKernelIsotropic(quart: int, g: Generators, beta1: Element, beta2: Element, f: nat, e: nat, m1: Mat2, m2: Mat2,
                             d1: int, d2: int, u: int, v: int, norm: int, cs: int, ct: int, t: int)
    requires Acts(quart, g) && e <= f <= 248 && IsAction(g, beta1, f, m1) && IsAction(g, beta2, f, m2)
    requires HasNorm(quart, beta1, d1 * norm * cs) && HasNorm(quart, beta2, d2 * norm * ct)
    requires u * d1 + v * d2 == Pow2(e) && Cong(t * (norm * d1 * ct), 1, Pow2(f))
    ensures var theta := MatMulMod(m2, AdjugateMod(m1, f), f); Cong(u * cs + v * ct * Det2(ScaleBy(t, theta)), 0, Pow2(e))
  {
    var d, adj := Pow2(f), AdjugateMod(m1, f);
    var theta := MatMulMod(m2, adj, f);
    ActionDeterminant(quart, g, beta1, f, m1, d1 * norm * cs);
    ActionDeterminant(quart, g, beta2, f, m2, d2 * norm * ct);
    ThetaDeterminant(m1, m2, adj, theta, d1 * norm * cs, d2 * norm * ct, d);
    ScaledDeterminant(theta, (d2 * norm * ct) * (d1 * norm * cs), t, norm * d1 * ct, d);
    var x := Det2(ScaleBy(t, theta));
    SecondDegree(d1, d2, t, x, norm, cs, ct, d);
    UnitOfFirst(t, norm, d1, ct);
    ConnectedDegrees(u, d1, v, d2, cs);
    Degrees(d1, d2 * cs, u * cs, v, ct * x, t * norm * ct, e, f, cs);
    TimesAssoc(v, ct, x);
  }

  lemma ConnectedDegrees(u: int, d1: int, v: int, d2: int, c: int)
    ensures u * c * d1 + v * (d2 * c) == c * (u * d1 + v * d2)
  {
    assert u * c * d1 == c * (u * d1) && v * (d2 * c) == c * (v * d2);
  }

  lemma UnitOfFirst(t: int, norm: int, d1: int, ct: int)
    ensures t * norm * ct * d1 == t * (norm * d1 * ct)
  {
    TimesAssoc(t, norm, d1 * ct);
    assert norm * d1 * ct == norm * (d1 * ct) && t * norm * ct * d1 == t * norm * (d1 * ct);
  }

  lemma SecondDegree(d1: int, d2: int, t: int, x: int, norm: int, cs: int, ct: int, d: int)
    requires Cong((norm * d1 * ct) * (norm * d1 * ct) * x, (d2 * norm * ct) * (d1 * norm * cs), d)
    requires Cong(t * (norm * d1 * ct), 1, d)
    ensures Cong(d1 * (ct * x), d2 * cs, d)
  {
    var w, k := norm * norm * d1 * ct, d1 * ct;
    WeightOut(norm, d1, d2, cs, ct, x);
    UnitTwice(t, norm, d1, ct, d);
    CancelUnit(w, t * t * k, d1 * (ct * x), d2 * cs, d);
  }

  lemma WeightOut(n: int, d1: int, d2: int, cs: int, ct: int, x: int)
    ensures (n * d1 * ct) * (n * d1 * ct) * x == (n * n * d1 * ct) * (d1 * (ct * x))
    ensures (d2 * n * ct) * (d1 * n * cs) == (n * n * d1 * ct) * (d2 * cs)
  {
    var k := d1 * ct;
    assert n * d1 * ct == n * k && n * n * d1 * ct == n * n * k && d1 * (ct * x) == k * x;
    WeightSquared(n, k, x);
    FactorsOut(n, d1, d2, cs, ct);
  }

  lemma WeightSquared(n: int, k: int, x: int)
    ensures (n * k) * (n * k) * x == (n * n * k) * (k * x)
  {
    assert (n * k) * (n * k) == (n * n * k) * k;
    TimesAssoc(n * n * k, k, x);
  }

  lemma FactorsOut(n: int, d1: int, d2: int, cs: int, ct: int)
    ensures (d2 * n * ct) * (d1 * n * cs) == (n * n * d1 * ct) * (d2 * cs)
  {
    var p, q := n * ct, d1 * n;
    assert d2 * n * ct == d2 * p && d1 * n * cs == q * cs;
    assert (d2 * p) * (q * cs) == (p * q) * (d2 * cs);
    assert p * q == n * n * d1 * ct;
  }

  lemma ThetaDeterminant(m1: Mat2, m2: Mat2, adj: Mat2, theta: Mat2, n1: int, n2: int, d: int)
    requires Cong(Det2(m1), n1, d) && Cong(Det2(m2), n2, d) && Cong2(adj, Adj2(m1), d) && Cong2(theta, Times(m2, adj), d)
    ensures Cong(Det2(theta), n2 * n1, d)
  {
    Cong2Det(theta, Times(m2, adj), d);
    DetTimes(m2, adj);
    Cong2Det(adj, Adj2(m1), d);
    AdjugateDet(m1);
    ProductCong(Det2(theta), Det2(m2), Det2(adj), Det2(m1), n1, n2, d);
  }

  lemma AdjugateDet(m: Mat2)
    ensures Det2(Adj2(m)) == Det2(m)
  {
  }

  lemma ProductCong(theta: int, x: int, y: int, z: int, n1: int, n2: int, d: int)
    requires Cong(theta, x * y, d) && Cong(y, z, d) && Cong(z, n1, d) && Cong(x, n2, d)
    ensures Cong(theta, n2 * n1, d)
  {
    CongTrans(y, z, n1, d);
    CongMul(x, n2, y, n1, d);
    CongTrans(theta, x * y, n2 * n1, d);
  }

  lemma UnitTwice(t: int, norm: int, d1: int, ct: int, d: int)
    requires Cong(t * (norm * d1 * ct), 1, d)
    ensures Cong((t * t * (d1 * ct)) * (norm * norm * d1 * ct), 1, d)
  {
    var y := t * (norm * d1 * ct);
    CongMul(y, 1, y, 1, d);
    var k := d1 * ct;
    assert norm * d1 * ct == norm * k && norm * norm * d1 * ct == norm * norm * k;
    UnitSquares(t, norm, k);
  }

  lemma UnitSquares(t: int, n: int, k: int)
    ensures (t * (n * k)) * (t * (n * k)) == (t * t * k) * (n * n * k)
  {
    var w := n * k;
    assert (t * w) * (t * w) == (t * t) * (w * w);
    assert w * w == k * (n * n * k);
    TimesAssoc(t * t, k, n * n * k);
  }

  lemma Degrees(d1: int, d2: int, u: int, v: int, x: int, inverse: int, e: nat, f: nat, c: int)
    requires e <= f && Cong(d1 * x, d2, Pow2(f)) && Cong(inverse * d1, 1, Pow2(f)) && u * d1 + v * d2 == c * Pow2(e)
    ensures Cong(u + v * x, 0, Pow2(e))
  {
    Pow2Add(e, f - e);
    CongDivisor(d1 * x, d2, Pow2(e), Pow2(f - e));
    CongDivisor(inverse * d1, 1, Pow2(e), Pow2(f - e));
    var k := CongElim(d1 * x, d2, Pow2(e));
    CombineDegrees(d1, d2, u, v, x, Pow2(e), k, c);
    CongIntro(d1 * (u + v * x), d1 * 0, Pow2(e), c + v * k);
    CancelUnit(d1, inverse, u + v * x, 0, Pow2(e));
  }

  lemma CombineDegrees(d1: int, d2: int, u: int, v: int, x: int, n: int, k: int, c: int)
    requires d1 * x == d2 + n * k && u * d1 + v * d2 == c * n
    ensures d1 * (u + v * x) == 0 + n * (c + v * k)
  {
    assert d1 * (u + v * x) == u * d1 + v * (d1 * x);
    assert v * (d2 + n * k) == v * d2 + n * (v * k);
    assert n * (c + v * k) == c * n + n * (v * k);
  }
}
