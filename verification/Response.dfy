/** The response phase: backtracking, degrees, and the exponents that signer and verifier share. */
module Response {
  import opened Arith
  import opened Options
  import opened Gcds
  import opened Linear4
  import opened Lattices
  import opened Quaternions

  // ----- parameters -----

  /** The torsion exponent, and the bit length of the response degree. */
  const F: nat := 248
  const E_RSP: nat := 126

  // ----- two-adic valuation -----

  function Val2(n: nat): nat
    requires n > 0
  {
    if n % 2 == 1 then 0 else 1 + Val2(n / 2)
  }

  function OddPart(n: nat): nat
    requires n > 0
  {
    if n % 2 == 1 then n else OddPart(n / 2)
  }

  lemma {:induction false} SplitOdd(n: nat)
    requires n > 0
    ensures n == Pow2(Val2(n)) * OddPart(n) && OddPart(n) % 2 == 1
  {
    if n % 2 == 0 {
      SplitOdd(n / 2);
    }
  }

  /** Shifts out the trailing zeros one at a time. */
  method TrailingZeros(n: nat) returns (r: nat, q: nat)
    requires n > 0
    ensures r == Val2(n) && q == OddPart(n)
  {
    r, q := 0, n;
    while q % 2 == 0
      invariant q > 0 && Val2(n) == r + Val2(q) && OddPart(n) == OddPart(q)
      decreases q
    {
      r, q := r + 1, q / 2;
    }
  }

  // ----- content of order coordinates -----

  function Content(x: Vec): nat {
    Gcd(Gcd(Gcd(Abs(x.a), Abs(x.b)), Abs(x.c)), Abs(x.d))
  }

  lemma {:induction false} GcdScales(r: nat, a: nat, b: nat)
    requires r > 0
    ensures Gcd(r * a, r * b) == r * Gcd(a, b)
    decreases b
  {
    if b > 0 {
      DivisionLaw(a, b);
      var q, m := a / b, a % b;
      assert r * a == (r * b) * q + r * m;
      Grow(r, m + 1, b);
      Grow(b, 1, r);
      QuotientUnique(r * b, q, r * m, r * a);
      GcdScales(r, b, m);
    } else {
      assert r * b == 0;
    }
  }

  lemma AbsScales(r: nat, x: int)
    ensures Abs(r * x) == r * Abs(x)
  {
    if x >= 0 { Grow(r, 0, x); } else { Grow(r, 0, -x); }
  }

  lemma ContentScales(r: nat, x: Vec)
    requires r > 0
    ensures Content(Scale(r, x)) == r * Content(x)
  {
    AbsScales(r, x.a);
    AbsScales(r, x.b);
    AbsScales(r, x.c);
    AbsScales(r, x.d);
    GcdScales(r, Abs(x.a), Abs(x.b));
    GcdScales(r, Gcd(Abs(x.a), Abs(x.b)), Abs(x.c));
    GcdScales(r, Gcd(Gcd(Abs(x.a), Abs(x.b)), Abs(x.c)), Abs(x.d));
  }

  /** The content divides every coordinate and vanishes only for the zero vector. */
  lemma ContentDivides(x: Vec)
    ensures Content(x) == 0 <==> x == ZERO
    ensures Divides(Content(x), x.a) && Divides(Content(x), x.b) && Divides(Content(x), x.c) && Divides(Content(x), x.d)
  {
    var ab := Gcd(Abs(x.a), Abs(x.b));
    var abc := Gcd(ab, Abs(x.c));
    var _, _ := GcdLaw(Abs(x.a), Abs(x.b));
    var _, _ := GcdLaw(ab, Abs(x.c));
    var _, _ := GcdLaw(abc, Abs(x.d));
    DividesTrans(Content(x), abc, ab);
    DividesTrans(Content(x), ab, Abs(x.a));
    DividesTrans(Content(x), ab, Abs(x.b));
    DividesTrans(Content(x), abc, Abs(x.c));
    DividesAbs(Content(x), x.a);
    DividesAbs(Content(x), x.b);
    DividesAbs(Content(x), x.c);
    DividesAbs(Content(x), x.d);
  }

  // ----- normalising an element -----

  function FifthContent(e: Element): nat {
    Gcd(Content(e.coords), Abs(e.denom))
  }

  /** Divides the common factor out and makes the denominator positive; the element stays the same. */
  method Normalize(e: Element) returns (r: Element)
    requires e.denom != 0
    ensures r.denom > 0
    ensures forall x: Vec :: Coordinates(O0, e, x) ==> Coordinates(O0, r, x)
  {
    var g := FifthContent(e);
    CommonFactor(e);
    r := e;
    if g != 1 {
      r := Element(Vec(e.coords.a / g, e.coords.b / g, e.coords.c / g, e.coords.d / g), e.denom / g);
      QuotientBy(g, e.coords.a);
      QuotientBy(g, e.coords.b);
      QuotientBy(g, e.coords.c);
      QuotientBy(g, e.coords.d);
      QuotientBy(g, e.denom);
    }
    assert e == Element(Scale(g, r.coords), g * r.denom);
    ghost var half := r;
    if r.denom < 0 {
      r := Element(Neg(r.coords), -r.denom);
    }
    forall x: Vec | Coordinates(O0, e, x) ensures Coordinates(O0, r, x) {
      SameValue(half, g, x);
      NegatedValue(half, x);
    }
  }

  lemma CommonFactor(e: Element)
    requires e.denom != 0
    ensures FifthContent(e) > 0 && Divides(FifthContent(e), e.denom)
    ensures Divides(FifthContent(e), e.coords.a) && Divides(FifthContent(e), e.coords.b)
    ensures Divides(FifthContent(e), e.coords.c) && Divides(FifthContent(e), e.coords.d)
  {
    var g, c := FifthContent(e), Content(e.coords);
    ContentDivides(e.coords);
    var _, _ := GcdLaw(c, Abs(e.denom));
    DividesAbs(g, e.denom);
    DividesTrans(g, c, e.coords.a);
    DividesTrans(g, c, e.coords.b);
    DividesTrans(g, c, e.coords.c);
    DividesTrans(g, c, e.coords.d);
  }

  lemma QuotientBy(g: nat, x: int)
    requires g > 0 && Divides(g, x)
    ensures x == g * (x / g)
  {
    var k: int :| x == g * k;
    ExactQuotient(g, k);
  }

  lemma SameValue(e: Element, g: int, x: Vec)
    requires g != 0 && Coordinates(O0, Element(Scale(g, e.coords), g * e.denom), x)
    ensures Coordinates(O0, e, x)
  {
    OrderBasis(x);
    ScaleTwice(2, g, e.coords);
    assert 2 * g == g * 2;
    ScaleTwice(g, 2, e.coords);
    ScaleTwice(g, e.denom, Numerators(x));
    ScaleCancels(g, Scale(2, e.coords), Scale(e.denom, Numerators(x)));
  }

  lemma NegatedValue(e: Element, x: Vec)
    requires Coordinates(O0, e, x)
    ensures Coordinates(O0, Element(Neg(e.coords), -e.denom), x)
  {
    OrderBasis(x);
    NegProduct(e.denom, Numerators(x));
  }

  lemma NegProduct(k: int, v: Vec)
    ensures Scale(-k, v) == Neg(Scale(k, v))
  {
  }

  // ----- backtracking -----

  /** r times the order coordinates, from the standard coordinates over r. */
  function ScaledCoordinates(v: Vec): Vec {
    Vec(v.a - v.d, v.b - v.c, v.c + v.c, v.d + v.d)
  }

  lemma ScaledAreScaled(e: Element, x: Vec)
    requires Coordinates(O0, e, x)
    ensures ScaledCoordinates(e.coords) == Scale(e.denom, x)
  {
    OrderBasis(x);
    HalfEntry(e.denom, x.a, x.d, e.coords.a, e.coords.d);
    HalfEntry(e.denom, x.b, x.c, e.coords.b, e.coords.c);
  }

  lemma HalfEntry(r: int, x: int, y: int, u: int, v: int)
    requires 2 * u == r * (2 * x + y) && 2 * v == r * y
    ensures u - v == r * x && v + v == r * y
  {
    assert r * (2 * x + y) == 2 * (r * x) + r * y;
  }

  /** Divides the whole content t out and reports how often two divides t. */
  method ComputeBacktracking(alpha: Element) returns (r: Element, n: nat, ghost t: nat)
    requires alpha.denom != 0
    ensures r.denom > 0
    ensures forall x: Vec :: Coordinates(O0, alpha, x) && x != ZERO ==> Divided(r, n, t, x)
  {
    r := Normalize(alpha);
    var denom := r.denom;
    var scaled := Content(ScaledCoordinates(r.coords));
    var tmp := if scaled == 0 then 0 else scaled / denom;
    n, t := 0, tmp;
    if tmp != 0 {
      var odd: nat;
      n, odd := TrailingZeros(tmp);
    }
    ghost var before := r;
    if tmp != 0 && tmp != 1 {
      ProductNonZero(r.denom, tmp);
      r := Normalize(Element(r.coords, r.denom * tmp));
    }
    forall x: Vec | Coordinates(O0, alpha, x) && x != ZERO ensures Divided(r, n, t, x) {
      ContentFound(before, x, scaled, tmp);
      if tmp == 1 {
        Undivided(r, x);
      } else {
        var y := DivideOut(before, x, tmp);
        assert DividedAt(r, tmp, x, y);
      }
    }
  }

  /** x is t times the coordinates of r, which have content one, and n is the valuation of t. */
  ghost predicate Divided(r: Element, n: nat, t: nat, x: Vec) {
    t > 0 && n == Val2(t) && exists y: Vec :: DividedAt(r, t, x, y)
  }

  ghost predicate DividedAt(r: Element, t: nat, x: Vec, y: Vec) {
    x == Scale(t, y) && Coordinates(O0, r, y) && Content(y) == 1
  }

  lemma ContentFound(e: Element, x: Vec, scaled: nat, tmp: nat)
    requires e.denom > 0 && Coordinates(O0, e, x) && x != ZERO
    requires scaled == Content(ScaledCoordinates(e.coords)) && tmp == if scaled == 0 then 0 else scaled / e.denom
    ensures tmp == Content(x) && tmp > 0
  {
    ScaledAreScaled(e, x);
    ContentScales(e.denom, x);
    ContentNonZero(x);
    QuotientFound(e.denom, Content(x), scaled, tmp);
  }

  lemma ContentNonZero(x: Vec)
    requires x != ZERO
    ensures Content(x) > 0
  {
    ContentDivides(x);
  }

  lemma QuotientFound(r: int, k: nat, scaled: nat, tmp: nat)
    requires r > 0 && k > 0 && scaled == r * k && tmp == if scaled == 0 then 0 else scaled / r
    ensures tmp == k
  {
    ExactQuotient(r, k);
    Grow(r, 1, k);
  }

  lemma Undivided(e: Element, x: Vec)
    requires Coordinates(O0, e, x) && Content(x) == 1
    ensures DividedAt(e, 1, x, x)
  {
  }

  lemma DivideOut(e: Element, x: Vec, t: nat) returns (y: Vec)
    requires t > 0 && Coordinates(O0, e, x) && Content(x) == t
    ensures x == Scale(t, y) && Content(y) == 1 && Coordinates(O0, Element(e.coords, e.denom * t), y)
  {
    y := QuotientVec(t, x);
    ContentScales(t, y);
    CancelFactor(t, Content(y), 1);
    CoordinatesDivide(e, x, y, t);
  }

  lemma QuotientVec(t: nat, x: Vec) returns (y: Vec)
    requires t > 0 && Content(x) == t
    ensures x == Scale(t, y)
  {
    ContentDivides(x);
    QuotientBy(t, x.a);
    QuotientBy(t, x.b);
    QuotientBy(t, x.c);
    QuotientBy(t, x.d);
    y := Vec(x.a / t, x.b / t, x.c / t, x.d / t);
  }

  lemma CoordinatesDivide(e: Element, x: Vec, y: Vec, t: nat)
    requires Coordinates(O0, e, x) && x == Scale(t, y)
    ensures Coordinates(O0, Element(e.coords, e.denom * t), y)
  {
    OrderBasis(x);
    OrderBasis(y);
    NumeratorsScale(t, y);
    ScaleTwice(e.denom, t, Numerators(y));
  }

  lemma NumeratorsScale(t: int, y: Vec)
    ensures Numerators(Scale(t, y)) == Scale(t, Numerators(y))
  {
    assert 2 * (t * y.a) + t * y.d == t * (2 * y.a + y.d);
    assert 2 * (t * y.b) + t * y.c == t * (2 * y.b + y.c);
  }

  // ----- degrees -----

  lemma NormScales(quart: int, t: int, y: Vec)
    ensures OrderNorm(quart, Scale(t, y)) == t * t * OrderNorm(quart, y)
  {
    OrderNormIsNorm(quart, y);
    OrderNormIsNorm(quart, Scale(t, y));
    NumeratorsScale(t, y);
    NormScaled(quart, t, Numerators(y));
    QuarterOut(OrderNorm(quart, Scale(t, y)), t * t, OrderNorm(quart, y));
  }

  lemma QuarterOut(u: int, k: int, v: int)
    requires 4 * u == k * (4 * v)
    ensures u == k * v
  {
    assert k * (4 * v) == 4 * (k * v);
  }

  lemma NormPositive(quart: int, x: Vec)
    requires quart >= 1 && x != ZERO
    ensures OrderNorm(quart, x) >= 1
  {
    OrderNormIsNorm(quart, x);
    var v := Numerators(x);
    assert v != ZERO;
    NumeratorPositive(quart, v);
  }

  lemma NumeratorPositive(quart: int, v: Vec)
    requires quart >= 1 && v != ZERO
    ensures NormNumerator(quart, v) >= 1
  {
    NonNegativeSquare(v.a);
    NonNegativeSquare(v.b);
    NonNegativeSquare(v.c);
    NonNegativeSquare(v.d);
    PositiveWeight(4 * quart - 1, v.c * v.c + v.d * v.d);
  }

  lemma PositiveWeight(p: int, w: int)
    requires p >= 1 && w >= 0
    ensures p * w >= w
  {
    Grow(w, 1, p);
  }

  lemma NonNegativeSquare(x: int)
    ensures x * x >= 0 && (x != 0 ==> x * x >= 1)
  {
    if x >= 1 { Grow(x, 1, x); } else if x <= -1 { Grow(-x, 1, -x); }
  }

  lemma {:induction false} Pow2Increases(m: nat, n: nat)
    requires m <= n
    ensures Pow2(m) <= Pow2(n)
    decreases n - m
  {
    if m < n {
      Pow2Increases(m, n - 1);
    }
  }

  /** The shifted content is not zero, so the second division is defined. */
  lemma ShiftedPositive(l: nat, t: nat, n: nat, m: nat, e: nat)
    requires Pow2(e) <= l && t >= Pow2(n) && m >= 1 && t * t * m <= (Pow2(e) - 1) * l
    ensures l / Pow2(n) >= 1
  {
    var p := Pow2(n);
    DivisionLaw(l, p);
    if l < p {
      SquaredBelow(p, t, m);
      Grow(p * p, 1, m);
      Grow(Pow2(e) - 1, l, p);
      SquareTooBig(p, Pow2(e));
    } else {
      Positive(p, l / p, l % p);
    }
  }

  lemma SquareTooBig(p: nat, b: nat)
    requires p > b >= 1
    ensures p * p > (b - 1) * p
  {
    Grow(p, b, p);
    assert (b - 1) * p == p * b - p;
  }

  lemma Positive(p: nat, q: int, r: int)
    requires p * q + r >= p && r < p
    ensures q >= 1
  {
    if q <= 0 {
      Grow(p, q, 0);
    }
  }

  /** A response that passes both divisibility checks: 2^n * d stays below 2^e, whatever n came out. */
  lemma DegreeBound(k: nat, f: nat, t: nat, n: nat, m: nat, d: nat, e: nat)
    requires k >= 1 && e < f && t >= Pow2(n) && m >= 1 && t * t * m <= (Pow2(e) - 1) * (Pow2(f) * k)
    requires m == (Pow2(f) * k / Pow2(n)) * d
    ensures n <= f && Pow2(n) * d <= Pow2(e) - 1
  {
    var p, l := Pow2(n), Pow2(f) * k;
    var q := l / p;
    Pow2Increases(e, f);
    Grow(Pow2(f), 1, k);
    ShiftedPositive(l, t, n, m, e);
    SquaredBelow(p, t, m);
    DivisionLaw(l, p);
    BoundedBy(p, q, d, l, Pow2(e) - 1);
    FactorPositive(q, d, m);
    SmallLength(n, d, e);
    Pow2Add(n, f - n);
    ExactShift(p, Pow2(f - n), k);
    TightBound(p, q, d, Pow2(e) - 1);
  }

  lemma SmallLength(n: nat, d: nat, e: nat)
    requires d >= 1 && Pow2(n) * d <= 2 * (Pow2(e) - 1)
    ensures n <= e
  {
    Grow(Pow2(n), 1, d);
    if n > e {
      Pow2Increases(e + 1, n);
    }
  }

  lemma FactorPositive(q: nat, d: nat, m: nat)
    requires m == q * d && m >= 1
    ensures d >= 1
  {
  }

  lemma ExactShift(p: int, x: int, k: int)
    requires p > 0
    ensures p * (p * x * k / p) == p * x * k
  {
    assert p * x * k == p * (x * k);
    ExactQuotient(p, x * k);
  }

  lemma TightBound(p: nat, q: nat, d: nat, b: nat)
    requires p >= 1 && q >= 1 && p * p * (q * d) <= b * (p * q)
    ensures p * d <= b
  {
    var pq := p * q;
    Grow(p, 1, q);
    assert p * p * (q * d) == pq * (p * d) && b * (p * q) == pq * b;
    if p * d > b {
      Grow(pq, b + 1, p * d);
      OneMore(pq, b);
    }
  }

  lemma OneMore(x: int, b: int)
    ensures x * (b + 1) == x * b + x
  {
  }

  lemma SquaredBelow(p: nat, t: nat, m: nat)
    requires p <= t
    ensures p * p * m <= t * t * m
  {
    Grow(p, p, t);
    Grow(t, p, t);
    Grow(m, p * p, t * t);
  }

  lemma BoundedBy(p: nat, q: nat, d: nat, l: nat, b: nat)
    requires p >= 1 && q >= 1 && l < p * q + p && p * p * (q * d) <= b * l
    ensures p * d <= 2 * b
  {
    var pq := p * q;
    Grow(p, 1, q);
    assert l <= 2 * pq;
    Grow(b, l, 2 * pq);
    assert p * p * (q * d) == pq * (p * d);
    assert b * (2 * pq) == pq * (2 * b);
    if p * d > 2 * b {
      Grow(pq, 2 * b + 1, p * d);
      OneMore(pq, 2 * b);
    }
  }

  /** What a bounded odd degree means for the exponents. */
  lemma ExponentBounds(n: nat, d: nat, e: nat)
    requires d >= 1 && Pow2(n) * d <= Pow2(e) - 1
    ensures n + Val2(d) < e && OddPart(d) < Pow2(e - n - Val2(d))
  {
    var r, q := Val2(d), OddPart(d);
    SplitOdd(d);
    Pow2Add(n, r);
    TimesAssoc(Pow2(n), Pow2(r), q);
    Grow(Pow2(n + r), 1, q);
    if n + r >= e {
      Pow2Increases(e, n + r);
    }
    Pow2Add(n + r, e - n - r);
    if q >= Pow2(e - n - r) {
      Grow(Pow2(n + r), Pow2(e - n - r), q);
    }
  }

  // ----- one sampled quaternion -----

  /** The response degree split as 2^r * q, the backtracking length n, the rest e', and the auxiliary norm. */
  datatype Degrees = Degrees(alpha: Element, n: nat, r: nat, q: nat, e: nat, auxNorm: int)

  /** What the later steps rely on. */
  ghost predicate Sound(s: Degrees) {
    SoundExponents(Exponents(s.r, s.q, s.e, s.auxNorm), s.n)
  }

  /** The response degree times the lattice content is the norm of the reduced quaternion; the content has lost one
      factor of two for each step of backtracking. */
  ghost predicate DegreeOf(quart: int, s: Degrees, k: nat) {
    s.n <= F && NormNumerator(quart, s.alpha.coords) == s.alpha.denom * s.alpha.denom * (Pow2(F - s.n) * k * (Pow2(s.r) * s.q))
  }

  lemma Val2Divides(t: nat)
    requires t > 0
    ensures t >= Pow2(Val2(t))
  {
    SplitOdd(t);
    Grow(Pow2(Val2(t)), 1, OddPart(t));
  }

  lemma DividedParts(r: Element, n: nat, t: nat, x: Vec) returns (y: Vec)
    requires Divided(r, n, t, x)
    ensures DividedAt(r, t, x, y) && t == Content(x) > 0 && n == Val2(t)
  {
    y :| DividedAt(r, t, x, y);
    ContentScales(t, y);
  }

  /** The norm before and after taking the content out. */
  lemma NormBeforeAfter(quart: int, alpha: Element, r: Element, t: nat, x: Vec, y: Vec, bound: int) returns (m: nat)
    requires quart >= 1 && alpha.denom != 0 && r.denom > 0 && Coordinates(O0, alpha, x) && x != ZERO
    requires DividedAt(r, t, x, y) && NormNumerator(quart, alpha.coords) <= bound * (alpha.denom * alpha.denom)
    ensures m >= 1 && NormNumerator(quart, r.coords) == r.denom * r.denom * m && t * t * m <= bound
    ensures t * t * m == OrderNorm(quart, x)
  {
    NormOfCoordinates(quart, alpha, x);
    NormOfCoordinates(quart, r, y);
    NormScales(quart, t, y);
    NormPositive(quart, x);
    var v := OrderNorm(quart, y);
    BoundCancels(alpha.denom, OrderNorm(quart, x), bound);
    PositiveCofactor(t, v);
    m := v;
  }

  lemma PositiveCofactor(t: int, v: int)
    requires t * t * v >= 1
    ensures v >= 1
  {
    NonNegativeSquare(t);
    if v <= 0 {
      Grow(t * t, v, 0);
    }
  }

  lemma BoundCancels(d: int, v: int, b: int)
    requires d != 0 && d * d * v <= b * (d * d)
    ensures v <= b
  {
    NonNegativeSquare(d);
    if v > b {
      Grow(d * d, b + 1, v);
      OneMore(d * d, b);
    }
  }

  lemma NonZeroCoordinates(alpha: Element, x: Vec)
    requires alpha.coords != ZERO && alpha.denom != 0 && Coordinates(O0, alpha, x)
    ensures x != ZERO
  {
    OrderBasis(x);
    if x == ZERO {
      ZeroScaled(alpha.denom, alpha.coords);
    }
  }

  lemma ZeroScaled(d: int, v: Vec)
    requires Scale(2, v) == Scale(d, Numerators(ZERO))
    ensures v == ZERO
  {
    ZeroNumerators(d);
    HalfZero(v);
  }

  lemma ZeroNumerators(d: int)
    ensures Scale(d, Numerators(ZERO)) == ZERO
  {
  }

  lemma HalfZero(v: Vec)
    requires Scale(2, v) == ZERO
    ensures v == ZERO
  {
  }

  /** Both divisions come out: the first always does for an order element, the second one when the content, halved once
      for each step of backtracking, divides the norm of the element with its own content taken out. */
  ghost predicate DividesOut(quart: int, x: Vec, k: nat) {
    var t := Content(x);
    exists m: nat :: t > 0 && t * t * m == OrderNorm(quart, x) && Divides(Pow2(F) * k / Pow2(Val2(t)), m)
  }

  lemma DividesOutIff(quart: int, x: Vec, k: nat, t: nat, m: nat)
    requires t == Content(x) > 0 && t * t * m == OrderNorm(quart, x)
    ensures DividesOut(quart, x, k) <==> Divides(Pow2(F) * k / Pow2(Val2(t)), m)
  {
    if m': nat :| t * t * m' == OrderNorm(quart, x) && Divides(Pow2(F) * k / Pow2(Val2(t)), m') {
      NonNegativeSquare(t);
      CancelFactor(t * t, m, m');
    }
  }

  /** The returned quaternion is the sample with its whole content taken out, and n is the two-adic valuation of the content. */
  ghost predicate Primitive(s: Degrees, x: Vec) {
    Content(x) > 0 && s.n == Val2(Content(x)) &&
    exists y: Vec :: Content(y) == 1 && x == Scale(Content(x), y) && Coordinates(O0, s.alpha, y)
  }

  lemma PrimitiveResponse(alpha: Element, s: Degrees, x: Vec, y: Vec)
    requires alpha.denom != 0 && Coordinates(O0, alpha, x) && Content(x) > 0 && s.n == Val2(Content(x))
    requires DividedAt(s.alpha, Content(x), x, y)
    ensures forall x': Vec :: Coordinates(O0, alpha, x') ==> Primitive(s, x')
  {
    forall x': Vec | Coordinates(O0, alpha, x') ensures Primitive(s, x') {
      OrderUnique(alpha, x, x');
    }
  }

  lemma ResponseExact(quart: int, alpha: Element, x: Vec, k: nat, t: nat, m: nat)
    requires alpha.denom != 0 && Coordinates(O0, alpha, x) && t == Content(x) > 0 && t * t * m == OrderNorm(quart, x)
    ensures forall x': Vec :: Coordinates(O0, alpha, x') ==>
              (DividesOut(quart, x', k) <==> Divides(Pow2(F) * k / Pow2(Val2(t)), m))
  {
    DividesOutIff(quart, x, k, t, m);
    forall x': Vec | Coordinates(O0, alpha, x') ensures x' == x {
      OrderUnique(alpha, x, x');
    }
  }

  /** One pass of the sampling loop after the sample: nothing when a division leaves a remainder. The content is
      2^f times k, the product of the two odd ideal norms. */
  method TryResponse(alpha: Element, f: nat, eRsp: nat, k: nat) returns (s: Option<Degrees>)
    requires f == F && eRsp == E_RSP && k >= 1
    requires alpha.denom != 0 && alpha.coords != ZERO && Member(O0, alpha)
    requires NormNumerator(QUARTER, alpha.coords) <= (Pow2(eRsp) - 1) * (Pow2(f) * k) * (alpha.denom * alpha.denom)
    ensures s.Some? ==> Sound(s.value) && DegreeOf(QUARTER, s.value, k)
    ensures forall x: Vec :: Coordinates(O0, alpha, x) ==> (s.Some? <==> DividesOut(QUARTER, x, k))
    ensures forall x: Vec :: s.Some? && Coordinates(O0, alpha, x) ==> Primitive(s.value, x)
  {
    var content := Pow2(f) * k;
    ghost var x: Vec :| Coordinates(O0, alpha, x);
    NonZeroCoordinates(alpha, x);
    var reduced, n, t := ComputeBacktracking(alpha);
    ghost var y := DividedParts(reduced, n, t, x);
    ghost var m := NormBeforeAfter(QUARTER, alpha, reduced, t, x, y, (Pow2(eRsp) - 1) * content);
    ResponseExact(QUARTER, alpha, x, k, t, m);
    var num, den := NormNumerator(QUARTER, reduced.coords), reduced.denom * reduced.denom;
    NonNegativeSquare(reduced.denom);
    ExactQuotient(den, m);
    if num % den != 0 {
      return None;
    }
    var e := FromNorm(num / den, f, eRsp, k, n, t);
    if e.Some? {
      s := Some(Degrees(reduced, n, e.value.r, e.value.q, e.value.e, e.value.auxNorm));
      PrimitiveResponse(alpha, s.value, x, y);
    } else {
      s := None;
    }
  }

  /** The exponents alone. */
  datatype Exponents = Exponents(r: nat, q: nat, e: nat, auxNorm: int)

  ghost predicate SoundExponents(x: Exponents, n: nat) {
    && n + x.r + x.e == E_RSP && x.e >= 1
    && x.q % 2 == 1 && 0 < x.q < Pow2(x.e)
    && x.auxNorm == Pow2(x.e) - x.q && x.auxNorm > 0 && x.auxNorm % 2 == 1
  }

  /** The second division and the exponents. */
  method FromNorm(m: nat, f: nat, eRsp: nat, k: nat, n: nat, ghost t: nat) returns (s: Option<Exponents>)
    requires f == F && eRsp == E_RSP && k >= 1 && m >= 1 && t > 0 && n == Val2(t)
    requires t * t * m <= (Pow2(eRsp) - 1) * (Pow2(f) * k)
    ensures s.Some? <==> Divides(Pow2(f) * k / Pow2(n), m)
    ensures s.Some? ==> SoundExponents(s.value, n) && n <= f && m == Pow2(f - n) * k * (Pow2(s.value.r) * s.value.q)
  {
    var content := Pow2(f) * k;
    ContentShifts(k, f, t, n, m, eRsp);
    var d := ExactlyDivide(m, content / Pow2(n));
    if d.None? {
      return None;
    }
    DegreeBound(k, f, t, n, m, d.value, eRsp);
    ShiftExact(f, n, k, content / Pow2(n));
    var x := SplitDegree(d.value, n, eRsp);
    s := Some(x);
  }

  method ExactlyDivide(m: nat, shifted: nat) returns (d: Option<nat>)
    requires shifted >= 1 && m >= 1
    ensures d.Some? <==> Divides(shifted, m)
    ensures d.Some? ==> m == shifted * d.value && d.value >= 1
  {
    if m % shifted != 0 {
      if q: int :| m == shifted * q {
        ExactQuotient(shifted, q);
      }
      return None;
    }
    DivisionLaw(m, shifted);
    FactorPositive(shifted, m / shifted, m);
    d := Some(m / shifted);
  }

  method SplitDegree(d: nat, n: nat, eRsp: nat) returns (x: Exponents)
    requires d >= 1 && eRsp == E_RSP && Pow2(n) * d <= Pow2(eRsp) - 1
    ensures SoundExponents(x, n) && d == Pow2(x.r) * x.q
  {
    ExponentBounds(n, d, eRsp);
    SplitOdd(d);
    var r, q := TrailingZeros(d);
    var e := eRsp - r - n;
    EvenPower(e);
    OddDifference(Pow2(e), q);
    x := Exponents(r, q, e, Pow2(e) - q);
  }

  lemma ContentShifts(k: nat, f: nat, t: nat, n: nat, m: nat, e: nat)
    requires e <= f && k >= 1 && m >= 1 && t > 0 && n == Val2(t) && t * t * m <= (Pow2(e) - 1) * (Pow2(f) * k)
    ensures t >= Pow2(n) && Pow2(f) * k / Pow2(n) >= 1
  {
    Val2Divides(t);
    Pow2Increases(e, f);
    Grow(Pow2(f), 1, k);
    ShiftedPositive(Pow2(f) * k, t, n, m, e);
  }

  lemma ShiftExact(f: nat, n: nat, k: nat, shifted: nat)
    requires n <= f && shifted == Pow2(f) * k / Pow2(n)
    ensures shifted == Pow2(f - n) * k
  {
    Pow2Add(n, f - n);
    ShiftedQuotient(Pow2(n), Pow2(f - n), k);
  }

  lemma ShiftedQuotient(p: int, x: int, k: int)
    requires p > 0
    ensures p * x * k / p == x * k
  {
    assert p * x * k == p * (x * k);
    ExactQuotient(p, x * k);
  }

  lemma EvenPower(e: nat)
    requires e >= 1
    ensures Pow2(e) % 2 == 0
  {
    TwiceIsEven(Pow2(e - 1));
  }

  lemma TwiceIsEven(x: int)
    ensures (2 * x) % 2 == 0
  {
  }

  lemma OddDifference(x: int, y: int)
    requires x % 2 == 0 && y % 2 == 1
    ensures (x - y) % 2 == 1
  {
  }

  // ----- exponents on the verifier's side -----

  /** How often each basis and kernel is doubled, and the length of the challenge isogeny. */
  datatype Counts = Counts(e: nat, challenge: int, aux: int, chl: int, even: int, matrix: int)

  /** The exponent bookkeeping of verification; nothing when the lengths exceed the response length. */
  method VerifyCounts(n: nat, r: nat) returns (c: Option<Counts>)
    ensures c.None? <==> n + r > E_RSP
    ensures c.Some? ==> c.value.e + r + n == E_RSP
    ensures c.Some? ==> c.value.challenge == F - n >= 122 && c.value.aux == F - c.value.e - 2 >= 120
    ensures c.Some? ==> c.value.chl == F - c.value.e - r - 2 >= 120 && c.value.even == c.value.e + 2
    ensures c.Some? ==> c.value.matrix == c.value.e + r + 2 == E_RSP + 2 - n <= F
  {
    if n > E_RSP {
      return None;
    }
    var afterBacktracking := E_RSP - n;
    if r > afterBacktracking {
      return None;
    }
    var e := afterBacktracking - r;
    c := Some(Counts(e, F - n, F - e - 2, F - e - r - 2, e + 2, e + r + 2));
  }
}
