/** Left ideals of the standard order, and the reduction of a response quaternion modulo a power of two. */
module EvenResponse {
  import opened Arith
  import opened Options
  import opened Linear4
  import opened Lattices
  import opened Modular
  import opened Matrices2
  import opened Quaternions
  import opened Deuring
  import opened Actions
  import opened KernelToIdeal

  // ----- left ideals, in order coordinates -----

  /** g = o1*x + m*o2. */
  ghost predicate Combines(quart: int, g: Vec, x: Vec, m: int, o1: Vec, o2: Vec) {
    g == Add(OrderMul(quart, o1, x), Scale(m, o2))
  }

  /** g lies in the left ideal generated by x and m. */
  ghost predicate InIdeal(quart: int, g: Vec, x: Vec, m: int) {
    exists o1: Vec, o2: Vec :: Combines(quart, g, x, m, o1, o2)
  }

  lemma Left1Linear(k: int, x: Vec, y: Vec)
    ensures Left1(Add(x, Scale(k, y))) == Add(Left1(x), Scale(k, Left1(y)))
  {
  }

  lemma Left2Linear(quart: int, k: int, x: Vec, y: Vec)
    ensures Left2(quart, Add(x, Scale(k, y))) == Add(Left2(quart, x), Scale(k, Left2(quart, y)))
  {
    QuarterEntry(k, x.c, y.c, quart);
    QuarterEntry(k, x.d, y.d, quart);
  }

  lemma Left3Linear(quart: int, k: int, x: Vec, y: Vec)
    ensures Left3(quart, Add(x, Scale(k, y))) == Add(Left3(quart, x), Scale(k, Left3(quart, y)))
  {
    QuarterEntry(k, x.c, y.c, quart);
    QuarterEntry(k, x.d, y.d, quart);
  }

  lemma QuarterEntry(k: int, x: int, y: int, q: int)
    ensures q * (x + k * y) == q * x + k * (q * y) && -q * (x + k * y) == -q * x + k * (-q * y)
  {
    assert q * (k * y) == k * (q * y);
  }

  lemma ScaleShift(j: int, k: int, x: Vec, y: Vec)
    ensures Scale(j, Add(x, Scale(k, y))) == Add(Scale(j, x), Scale(k, Scale(j, y)))
  {
    ShiftTerm(j, k, x.a, y.a);
    ShiftTerm(j, k, x.b, y.b);
    ShiftTerm(j, k, x.c, y.c);
    ShiftTerm(j, k, x.d, y.d);
  }

  lemma ShiftTerm(j: int, k: int, x: int, y: int)
    ensures j * (x + k * y) == j * x + k * (j * y)
  {
    assert j * (k * y) == k * (j * y);
  }

  lemma AddShift(k: int, x: Vec, x': Vec, y: Vec, y': Vec)
    ensures Add(Add(x, Scale(k, x')), Add(y, Scale(k, y'))) == Add(Add(x, y), Scale(k, Add(x', y')))
  {
    assert k * (x'.a + y'.a) == k * x'.a + k * y'.a && k * (x'.b + y'.b) == k * x'.b + k * y'.b;
    assert k * (x'.c + y'.c) == k * x'.c + k * y'.c && k * (x'.d + y'.d) == k * x'.d + k * y'.d;
  }

  /** Multiplication is linear in its right factor. */
  lemma OrderMulShift(quart: int, o: Vec, x: Vec, k: int, y: Vec)
    ensures OrderMul(quart, o, Add(x, Scale(k, y))) == Add(OrderMul(quart, o, x), Scale(k, OrderMul(quart, o, y)))
  {
    Left1Linear(k, x, y);
    Left2Linear(quart, k, x, y);
    Left3Linear(quart, k, x, y);
    ScaleShift(o.a, k, x, y);
    ScaleShift(o.b, k, Left1(x), Left1(y));
    ScaleShift(o.c, k, Left2(quart, x), Left2(quart, y));
    ScaleShift(o.d, k, Left3(quart, x), Left3(quart, y));
    AddShift(k, Scale(o.a, x), Scale(o.a, y), Scale(o.b, Left1(x)), Scale(o.b, Left1(y)));
    AddShift(k, Scale(o.c, Left2(quart, x)), Scale(o.c, Left2(quart, y)), Scale(o.d, Left3(quart, x)), Scale(o.d, Left3(quart, y)));
    AddShift(k, Add(Scale(o.a, x), Scale(o.b, Left1(x))), Add(Scale(o.a, y), Scale(o.b, Left1(y))),
             Add(Scale(o.c, Left2(quart, x)), Scale(o.d, Left3(quart, x))), Add(Scale(o.c, Left2(quart, y)), Scale(o.d, Left3(quart, y))));
  }

  lemma MoveShift(m: int, p: Vec, q: Vec, o: Vec)
    ensures Add(Add(p, Scale(m, q)), Scale(m, o)) == Add(p, Scale(m, Add(q, o)))
  {
  }

  /** A generator may be changed by a multiple of m. */
  lemma ShiftedGenerator(quart: int, g: Vec, x: Vec, w: Vec, m: int)
    requires InIdeal(quart, g, Add(x, Scale(m, w)), m)
    ensures InIdeal(quart, g, x, m)
  {
    var o1, o2 :| Combines(quart, g, Add(x, Scale(m, w)), m, o1, o2);
    OrderMulShift(quart, o1, x, m, w);
    MoveShift(m, OrderMul(quart, o1, x), OrderMul(quart, o1, w), o2);
    assert Combines(quart, g, x, m, o1, Add(OrderMul(quart, o1, w), o2));
  }

  /** x and x' differ by m times an order element. */
  ghost predicate SameClass(x: Vec, x': Vec, m: int) {
    Cong(x.a, x'.a, m) && Cong(x.b, x'.b, m) && Cong(x.c, x'.c, m) && Cong(x.d, x'.d, m)
  }

  lemma ClassShift(x: Vec, x': Vec, m: int) returns (w: Vec)
    requires SameClass(x, x', m)
    ensures x == Add(x', Scale(m, w)) && x' == Add(x, Scale(m, Neg(w)))
  {
    var a := CongElim(x.a, x'.a, m);
    var b := CongElim(x.b, x'.b, m);
    var c := CongElim(x.c, x'.c, m);
    var d := CongElim(x.d, x'.d, m);
    w := Vec(a, b, c, d);
    NegTerms(m, w);
  }

  lemma NegTerms(m: int, w: Vec)
    ensures Scale(m, Neg(w)) == Neg(Scale(m, w))
  {
  }

  /** Generators of the same class generate the same left ideal together with m. */
  lemma SameIdeal(quart: int, x: Vec, x': Vec, m: int, g: Vec)
    requires SameClass(x, x', m)
    ensures InIdeal(quart, g, x, m) <==> InIdeal(quart, g, x', m)
  {
    var w := ClassShift(x, x', m);
    if InIdeal(quart, g, x, m) {
      ShiftedGenerator(quart, g, x', w, m);
    }
    if InIdeal(quart, g, x', m) {
      ShiftedGenerator(quart, g, x, Neg(w), m);
    }
  }

  lemma SameClassConj(x: Vec, x': Vec, m: int)
    requires SameClass(x, x', m)
    ensures SameClass(OrderConj(x), OrderConj(x'), m)
  {
    CongRefl(0, m);
    CongAdd(x.a, x'.a, x.d, x'.d, m);
    CongAdd(0, 0, x.b, x'.b, m);
    CongAdd(0, 0, x.c, x'.c, m);
    CongAdd(0, 0, x.d, x'.d, m);
  }

  // ----- the reduction -----

  predicate InBox(c: Vec, n: int) {
    0 <= c.a < n && 0 <= c.b < n && 0 <= c.c < n && 0 <= c.d < n
  }

  /** Rebuilds the element of the order whose coordinates are those of alpha modulo 2^r. */
  method ReduceResponse(alpha: Element, r: nat) returns (out: Option<Element>, ghost x: Vec, ghost x': Vec)
    requires alpha.denom != 0
    ensures out.None? <==> !Member(O0, alpha)
    ensures out.Some? ==> Coordinates(O0, alpha, x) && Coordinates(O0, out.value, x') && out.value.denom == 2
    ensures out.Some? ==> InBox(x', Pow2(r)) && SameClass(x, x', Pow2(r))
  {
    x, x' := ZERO, ZERO;
    var coords := OrderCoordinates(O0, alpha);
    if coords.None? {
      return None, x, x';
    }
    x := coords.value;
    x' := ReducedBy(x, Pow2(r));
    ReducedClass(x, Pow2(r));
    assert Coordinates(O0, alpha, x);
    var num := Rebuild(coords.value, Pow2(r));
    OrderBasis(x');
    out := Some(Element(num, 2));
  }

  function ReducedBy(c: Vec, n: int): Vec
    requires n > 0
  {
    Vec(c.a % n, c.b % n, c.c % n, c.d % n)
  }

  lemma ReducedClass(x: Vec, n: int)
    requires n > 0
    ensures InBox(ReducedBy(x, n), n) && SameClass(x, ReducedBy(x, n), n)
  {
    CongMod(x.a, n);
    CongMod(x.b, n);
    CongMod(x.c, n);
    CongMod(x.d, n);
  }

  /** Sums the basis columns times the reduced coordinates. */
  method Rebuild(c: Vec, n: int) returns (num: Vec)
    requires n > 0
    ensures num == Numerators(ReducedBy(c, n))
  {
    ghost var x' := ReducedBy(c, n);
    num := ZERO;
    var j := 0;
    while j < 4
      invariant 0 <= j <= 4
      invariant num == Prefix(x', j)
    {
      var reduced := At(c, j) % n;
      assert reduced == At(x', j);
      num := Add(num, Scale(reduced, Column(O0.basis, j)));
      j := j + 1;
    }
    PrefixWhole(x');
  }

  /** The first j basis columns combined. */
  function Prefix(c: Vec, j: nat): Vec
    requires j <= 4
  {
    if j == 0 then ZERO else Add(Prefix(c, j - 1), Scale(At(c, j - 1), Column(O0.basis, j - 1)))
  }

  lemma OrderColumns()
    ensures Column(O0.basis, 0) == Vec(2, 0, 0, 0) && Column(O0.basis, 1) == Vec(0, 2, 0, 0)
    ensures Column(O0.basis, 2) == Vec(0, 1, 1, 0) && Column(O0.basis, 3) == Vec(1, 0, 0, 1)
  {
  }

  lemma PrefixWhole(c: Vec)
    ensures Prefix(c, 4) == Numerators(c)
  {
    OrderColumns();
    assert Prefix(c, 1) == Vec(2 * c.a, 0, 0, 0);
    assert Prefix(c, 2) == Vec(2 * c.a, 2 * c.b, 0, 0);
    assert Prefix(c, 3) == Vec(2 * c.a, 2 * c.b + c.c, c.c, 0);
  }

  /** The reduced response generates the same ideal: its conjugate and 2^r give the members that the conjugate of
      the response and 2^r give. */
  lemma ReducedGeneratesSame(quart: int, x: Vec, x': Vec, r: nat, g: Vec)
    requires SameClass(x, x', Pow2(r))
    ensures InIdeal(quart, g, OrderConj(x), Pow2(r)) <==> InIdeal(quart, g, OrderConj(x'), Pow2(r))
  {
    SameClassConj(x, x', Pow2(r));
    SameIdeal(quart, OrderConj(x), OrderConj(x'), Pow2(r), g);
  }

  /** The reduced response acts like the response on the 2^r-torsion. */
  lemma ReducedActsSame(g: Generators, x: Vec, x': Vec, r: nat)
    requires SameClass(x, x', Pow2(r))
    ensures Cong2(Rho(g, x), Rho(g, x'), Pow2(r))
  {
    var n := Pow2(r);
    DotClass(x, x', Vec(1, g.g2.a, g.g3.a, g.g4.a), n);
    DotClass(x, x', Vec(0, g.g2.b, g.g3.b, g.g4.b), n);
    DotClass(x, x', Vec(0, g.g2.c, g.g3.c, g.g4.c), n);
    DotClass(x, x', Vec(1, g.g2.d, g.g3.d, g.g4.d), n);
  }

  lemma DotClass(x: Vec, x': Vec, v: Vec, n: int)
    requires SameClass(x, x', n)
    ensures Cong(Dot(x, v), Dot(x', v), n)
  {
    DotCong(v, x, x', n);
    assert Dot(v, x) == Dot(x, v) && Dot(v, x') == Dot(x', v);
  }

  // ----- what the ideal of a kernel quaternion kills -----

  /** Every member of the ideal generated by a quaternion that kills a point, and by 2^f, kills the point. */
  lemma IdealKills(quart: int, g: Generators, x: Vec, f: nat, c1: int, c2: int, member: Vec)
    requires Acts(quart, g) && f <= 248 && Kills(Rho(g, x), c1, c2, f) && InIdeal(quart, member, x, Pow2(f))
    ensures Kills(Rho(g, member), c1, c2, f)
  {
    var n := Pow2(f);
    var o1, o2 :| Combines(quart, member, x, n, o1, o2);
    RhoMul(quart, g, o1, x);
    SmallerPower(f);
    var p := Times(Rho(g, o1), Rho(g, x));
    Cong2Divisor(p, Rho(g, OrderMul(quart, o1, x)), n, Pow2(248 - f));
    MemberClass(member, OrderMul(quart, o1, x), o2, n);
    ReducedActsSame(g, member, OrderMul(quart, o1, x), f);
    Cong2Sym(p, Rho(g, OrderMul(quart, o1, x)), n);
    Cong2Trans(Rho(g, member), Rho(g, OrderMul(quart, o1, x)), p, n);
    KilledProduct(Rho(g, o1), Rho(g, x), Rho(g, member), c1, c2, n);
  }

  lemma MemberClass(member: Vec, y: Vec, o: Vec, n: int)
    requires member == Add(y, Scale(n, o))
    ensures SameClass(member, y, n)
  {
    CongIntro(member.a, y.a, n, o.a);
    CongIntro(member.b, y.b, n, o.b);
    CongIntro(member.c, y.c, n, o.c);
    CongIntro(member.d, y.d, n, o.d);
  }

  lemma KilledProduct(l: Mat2, m: Mat2, p: Mat2, c1: int, c2: int, n: int)
    requires Cong2(p, Times(l, m), n) && Cong(Row1(m, c1, c2), 0, n) && Cong(Row2(m, c1, c2), 0, n)
    ensures Cong(Row1(p, c1, c2), 0, n) && Cong(Row2(p, c1, c2), 0, n)
  {
    var t, r1, r2 := Times(l, m), Row1(m, c1, c2), Row2(m, c1, c2);
    CongRefl(c1, n);
    CongRefl(c2, n);
    CongDot(p.a, t.a, c1, c1, p.b, t.b, c2, c2, n);
    CongDot(p.c, t.c, c1, c1, p.d, t.d, c2, c2, n);
    EntryAssoc(l.a, l.b, m, c1, c2);
    EntryAssoc(l.c, l.d, m, c1, c2);
    CombinationOfZeros(l.a, l.b, r1, r2, n);
    CombinationOfZeros(l.c, l.d, r1, r2, n);
    CongTrans(Row1(p, c1, c2), l.a * r1 + l.b * r2, 0, n);
    CongTrans(Row2(p, c1, c2), l.c * r1 + l.d * r2, 0, n);
  }

  lemma CombinationOfZeros(a: int, b: int, x: int, y: int, n: int)
    requires Cong(x, 0, n) && Cong(y, 0, n)
    ensures Cong(a * x + b * y, 0, n)
  {
    CongRefl(a, n);
    CongRefl(b, n);
    CongDot(a, a, x, 0, b, b, y, 0, n);
  }

  // ----- the ideal of a kernel quaternion is the whole annihilator -----

  /** Five times any v is an integer combination of 1, i, theta and theta*i; with i = a + b*theta - alpha it is a
      combination of 1, theta and left multiples of alpha. */
  lemma FiveTimes(quart: int, v: Vec, a: int, b: int) returns (x: int, y: int, o: Vec)
    ensures Scale(5, v) == Add(Vec(x, -y, 2 * y, y), OrderMul(quart, o, Kernel(a, b)))
  {
    var z, w := 2 * v.c + v.d, v.c - 2 * v.d;
    var u := 5 * v.b + z;
    x := 5 * v.a - w + u * a - w * b * (5 * quart - 1);
    y := z + u * b + w * a + w * b;
    o := Vec(-u, w, -2 * w, -w);
    var m := Kernel(a, b);
    LeftRowsOfKernel(quart, a, b);
    FirstEntry(u, w, a, b, quart);
    SecondEntry(u, w, a, b, quart);
    ThirdEntry(u, w, a, b);
    FourthEntry(u, w, a, b);
    assert OrderMul(quart, o, m) == Vec(5 * v.a - x, 5 * v.b + y, 5 * v.c - 2 * y, 5 * v.d - y);
  }

  lemma LeftRowsOfKernel(quart: int, a: int, b: int)
    ensures Left1(Kernel(a, b)) == Vec(1 - b, a + b, -b, 2 * b)
    ensures Left2(quart, Kernel(a, b)) == Vec(-quart * (2 * b), quart * b, a, 1 + b)
    ensures Left3(quart, Kernel(a, b)) == Vec(-quart * b, -quart * (2 * b), b - 1, a + b)
  {
  }

  lemma FirstEntry(u: int, w: int, a: int, b: int, q: int)
    ensures -u * a + w * (1 - b) + -2 * w * (-q * (2 * b)) + -w * (-q * b) == -(u * a) + w + w * b * (5 * q - 1)
  {
    var z := w * b;
    assert -2 * w * (-q * (2 * b)) == 4 * (z * q) && -w * (-q * b) == z * q && z * (5 * q - 1) == 5 * (z * q) - z;
  }

  lemma SecondEntry(u: int, w: int, a: int, b: int, q: int)
    ensures -u * (-1 - b) + w * (a + b) + -2 * w * (q * b) + -w * (-q * (2 * b)) == u + u * b + w * a + w * b
  {
    var z := w * b;
    assert -2 * w * (q * b) == -2 * (z * q) && -w * (-q * (2 * b)) == 2 * (z * q);
  }

  lemma ThirdEntry(u: int, w: int, a: int, b: int)
    ensures -u * (2 * b) + w * -b + -2 * w * a + -w * (b - 1) == w - 2 * (u * b + w * a + w * b)
  {
  }

  lemma FourthEntry(u: int, w: int, a: int, b: int)
    ensures -u * b + w * (2 * b) + -2 * w * (1 + b) + -w * (a + b) == -2 * w - (u * b + w * a + w * b)
  {
  }

  /** A matrix row times the point is linear in the order element. */
  lemma RowsLinear(g: Generators, u: Vec, v: Vec, k: int, c1: int, c2: int)
    ensures Row1(Rho(g, Add(u, v)), c1, c2) == Row1(Rho(g, u), c1, c2) + Row1(Rho(g, v), c1, c2)
    ensures Row2(Rho(g, Add(u, v)), c1, c2) == Row2(Rho(g, u), c1, c2) + Row2(Rho(g, v), c1, c2)
    ensures Row1(Rho(g, Scale(k, u)), c1, c2) == k * Row1(Rho(g, u), c1, c2)
    ensures Row2(Rho(g, Scale(k, u)), c1, c2) == k * Row2(Rho(g, u), c1, c2)
  {
    RowLinear(u, v, k, Vec(1, g.g2.a, g.g3.a, g.g4.a), Vec(0, g.g2.b, g.g3.b, g.g4.b), c1, c2);
    RowLinear(u, v, k, Vec(0, g.g2.c, g.g3.c, g.g4.c), Vec(1, g.g2.d, g.g3.d, g.g4.d), c1, c2);
  }

  lemma RowLinear(u: Vec, v: Vec, k: int, p: Vec, q: Vec, c1: int, c2: int)
    ensures Dot(Add(u, v), p) * c1 + Dot(Add(u, v), q) * c2
         == Dot(u, p) * c1 + Dot(u, q) * c2 + (Dot(v, p) * c1 + Dot(v, q) * c2)
    ensures Dot(Scale(k, u), p) * c1 + Dot(Scale(k, u), q) * c2 == k * (Dot(u, p) * c1 + Dot(u, q) * c2)
  {
    DotLinear(u, v, p, 0);
    DotLinear(u, v, q, 0);
    DotLinear(u, p, p, k);
    DotLinear(u, q, q, k);
    SumTimes(Dot(u, p), Dot(v, p), Dot(u, q), Dot(v, q), k, c1, c2);
  }

  lemma SumTimes(x: int, y: int, z: int, w: int, k: int, c1: int, c2: int)
    ensures (x + y) * c1 + (z + w) * c2 == x * c1 + z * c2 + (y * c1 + w * c2)
    ensures (k * x) * c1 + (k * z) * c2 == k * (x * c1 + z * c2)
  {
  }

  /** x + y*theta sends the point to x times the point plus y times its image under theta. */
  lemma ThetaRows(s: Stored, x: int, y: int, c1: int, c2: int)
    ensures var t := Rho(s.g, THETA);
            && Row1(Rho(s.g, Vec(x, -y, 2 * y, y)), c1, c2) == x * c1 + y * Row1(t, c1, c2)
            && Row2(Rho(s.g, Vec(x, -y, 2 * y, y)), c1, c2) == x * c2 + y * Row2(t, c1, c2)
  {
    ThetaCombination(x, y);
    TwoTermRows(s.g, Unit(0), THETA, x, y, c1, c2);
    RhoUnits(s.g);
    UnitRows(c1, c2);
  }

  lemma ThetaCombination(x: int, y: int)
    ensures Vec(x, -y, 2 * y, y) == Add(Scale(x, Unit(0)), Scale(y, THETA)) && Unit(0) == Vec(1, 0, 0, 0)
  {
  }

  lemma TwoTermRows(g: Generators, u: Vec, v: Vec, x: int, y: int, c1: int, c2: int)
    ensures var m := Rho(g, Add(Scale(x, u), Scale(y, v)));
            && Row1(m, c1, c2) == x * Row1(Rho(g, u), c1, c2) + y * Row1(Rho(g, v), c1, c2)
            && Row2(m, c1, c2) == x * Row2(Rho(g, u), c1, c2) + y * Row2(Rho(g, v), c1, c2)
  {
    RowsLinear(g, Scale(x, u), Scale(y, v), 0, c1, c2);
    RowsLinear(g, u, u, x, c1, c2);
    RowsLinear(g, v, v, y, c1, c2);
  }

  lemma UnitRows(c1: int, c2: int)
    ensures Row1(I2, c1, c2) == c1 && Row2(I2, c1, c2) == c2
  {
  }

  lemma RhoOfTheta(g: Generators)
    ensures Rho(g, THETA) == Plus(Plus(ScaleBy(2, g.g3), ScaleBy(-1, g.g2)), g.g4)
  {
    ThetaEntry(1, g.g2.a, g.g3.a, g.g4.a);
    ThetaEntry(0, g.g2.b, g.g3.b, g.g4.b);
    ThetaEntry(0, g.g2.c, g.g3.c, g.g4.c);
    ThetaEntry(1, g.g2.d, g.g3.d, g.g4.d);
  }

  lemma ThetaEntry(o: int, i: int, g: int, h: int)
    ensures Dot(THETA, Vec(o, i, g, h)) == 2 * g + -1 * i + h
  {
  }

  /** The determinant of the point and its image is a unit, for the stored rows and for the order's theta alike. */
  lemma WronskianUnit(s: Stored, c1: int, c2: int, f: nat) returns (h: int)
    requires Related(s) && f <= 248 && (f == 0 || Wronskian(s, c1, c2) % 2 == 1)
    ensures var t := Rho(s.g, THETA); Cong((c1 * Row2(t, c1, c2) - Row1(t, c1, c2) * c2) * h, 1, Pow2(f))
  {
    var n, t := Pow2(f), Rho(s.g, THETA);
    var w := c1 * Row2(t, c1, c2) - Row1(t, c1, c2) * c2;
    h := OddHasInverse(Wronskian(s, c1, c2), f);
    RhoOfTheta(s.g);
    ThetaForm(s, f);
    RowsCong(Theta(s), t, c1, c2, n);
    var t1, t2 := Row1(Theta(s), c1, c2), Row2(Theta(s), c1, c2);
    CongRefl(c1, n);
    CongRefl(c2, n);
    CongDot(c1, c1, t2, Row2(t, c1, c2), t1, Row1(t, c1, c2), c2, c2, n);
    CongSym(Wronskian(s, c1, c2), w, n);
    CongRefl(h, n);
    CongMul(w, Wronskian(s, c1, c2), h, h, n);
    CongTrans(w * h, Wronskian(s, c1, c2) * h, 1, n);
  }

  lemma RowsCong(m: Mat2, t: Mat2, c1: int, c2: int, n: int)
    requires Cong2(m, t, n)
    ensures Cong(Row1(m, c1, c2), Row1(t, c1, c2), n) && Cong(Row2(m, c1, c2), Row2(t, c1, c2), n)
  {
    CongRefl(c1, n);
    CongRefl(c2, n);
    CongDot(m.a, t.a, c1, c1, m.b, t.b, c2, c2, n);
    CongDot(m.c, t.c, c1, c1, m.d, t.d, c2, c2, n);
  }

  /** If the point and its image are independent, only multiples of n combine them to zero. */
  lemma OnlyZeros(x: int, y: int, c1: int, c2: int, t1: int, t2: int, h: int, n: int)
    requires Cong(x * c1 + y * t1, 0, n) && Cong(x * c2 + y * t2, 0, n) && Cong((c1 * t2 - t1 * c2) * h, 1, n)
    ensures Cong(x, 0, n) && Cong(y, 0, n)
  {
    var u, v, w := x * c1 + y * t1, x * c2 + y * t2, c1 * t2 - t1 * c2;
    CombinationOfZeros(t2, -t1, u, v, n);
    CombinationOfZeros(-c2, c1, u, v, n);
    EliminateOne(x, y, c1, c2, t1, t2);
    UnitCancels(x, w, h, n);
    UnitCancels(y, w, h, n);
  }

  lemma EliminateOne(x: int, y: int, c1: int, c2: int, t1: int, t2: int)
    ensures t2 * (x * c1 + y * t1) + -t1 * (x * c2 + y * t2) == (c1 * t2 - t1 * c2) * x
    ensures -c2 * (x * c1 + y * t1) + c1 * (x * c2 + y * t2) == (c1 * t2 - t1 * c2) * y
  {
    assert t2 * (x * c1) == c1 * t2 * x && t2 * (y * t1) == t1 * (y * t2) && t1 * (x * c2) == t1 * c2 * x;
    assert c2 * (x * c1) == c1 * (x * c2) && c2 * (y * t1) == t1 * c2 * y && c1 * (y * t2) == c1 * t2 * y;
  }

  lemma UnitCancels(x: int, w: int, h: int, n: int)
    requires Cong(w * x, 0, n) && Cong(w * h, 1, n)
    ensures Cong(x, 0, n)
  {
    CongRefl(h, n);
    CongRefl(x, n);
    CongMul(w * x, 0, h, h, n);
    CongMul(w * h, 1, x, x, n);
    assert w * h * x == w * x * h;
    CongSym(w * h * x, x, n);
    CongTrans(x, w * h * x, 0, n);
  }

  lemma LeftScale(quart: int, u: int, o: Vec, x: Vec)
    ensures OrderMul(quart, Scale(u, o), x) == Scale(u, OrderMul(quart, o, x))
  {
    ScaleTwice(u, o.a, x);
    ScaleTwice(u, o.b, Left1(x));
    ScaleTwice(u, o.c, Left2(quart, x));
    ScaleTwice(u, o.d, Left3(quart, x));
    ScaleFour(u, Scale(o.a, x), Scale(o.b, Left1(x)), Scale(o.c, Left2(quart, x)), Scale(o.d, Left3(quart, x)));
  }

  lemma ScaleFour(u: int, p: Vec, q: Vec, r: Vec, s: Vec)
    ensures Scale(u, Add(Add(p, q), Add(r, s))) == Add(Add(Scale(u, p), Scale(u, q)), Add(Scale(u, r), Scale(u, s)))
  {
    FourFactor(u, p.a, q.a, r.a, s.a);
    FourFactor(u, p.b, q.b, r.b, s.b);
    FourFactor(u, p.c, q.c, r.c, s.c);
    FourFactor(u, p.d, q.d, r.d, s.d);
  }

  lemma FourFactor(u: int, p: int, q: int, r: int, s: int)
    ensures u * (p + q + (r + s)) == u * p + u * q + (u * r + u * s)
  {
  }

  /** From five times v back to v, as five is a unit. */
  lemma FifthInIdeal(quart: int, v: Vec, t: Vec, o: Vec, k: Vec, f: nat)
    requires Scale(5, v) == Add(Scale(Pow2(f), t), OrderMul(quart, o, k))
    ensures InIdeal(quart, v, k, Pow2(f))
  {
    var n := Pow2(f);
    var u := OddHasInverse(5, f);
    var w := CongElim(5 * u, 1, n);
    var r := Add(Scale(u, t), Scale(-w, v));
    LeftScale(quart, u, o, k);
    var p := OrderMul(quart, o, k);
    FifthEntry(v.a, t.a, p.a, u, w, n);
    FifthEntry(v.b, t.b, p.b, u, w, n);
    FifthEntry(v.c, t.c, p.c, u, w, n);
    FifthEntry(v.d, t.d, p.d, u, w, n);
    assert Combines(quart, v, k, n, Scale(u, o), r);
  }

  lemma FifthEntry(v: int, t: int, p: int, u: int, w: int, n: int)
    requires 5 * v == n * t + p && 5 * u == 1 + n * w
    ensures v == u * p + n * (u * t + -w * v)
  {
    assert u * (5 * v) == u * (n * t) + u * p;
    assert u * (5 * v) == 5 * u * v == v + n * w * v;
    assert n * (u * t + -w * v) == u * (n * t) - n * w * v;
  }

  lemma LeftMultiple(quart: int, o: Vec, k: Vec, n: int)
    ensures InIdeal(quart, OrderMul(quart, o, k), k, n)
  {
    assert Combines(quart, OrderMul(quart, o, k), k, n, o, ZERO);
  }

  lemma MultipleOf(x: int, y: int, n: int) returns (t: Vec)
    requires Cong(x, 0, n) && Cong(y, 0, n)
    ensures Vec(x, -y, 2 * y, y) == Scale(n, t)
  {
    var p := CongElim(x, 0, n);
    var q := CongElim(y, 0, n);
    t := Vec(p, -q, 2 * q, q);
    assert n * -q == -(n * q) && n * (2 * q) == 2 * (n * q);
  }

  /** What is left of five times a killer after a left multiple of another killer is a killer. */
  lemma RemainderKills(s: Stored, v: Vec, x: int, y: int, p: Vec, c1: int, c2: int, f: nat)
    requires Scale(5, v) == Add(Vec(x, -y, 2 * y, y), p)
    requires Kills(Rho(s.g, v), c1, c2, f) && Kills(Rho(s.g, p), c1, c2, f)
    ensures var t := Rho(s.g, THETA);
            Cong(x * c1 + y * Row1(t, c1, c2), 0, Pow2(f)) && Cong(x * c2 + y * Row2(t, c1, c2), 0, Pow2(f))
  {
    var g, n := s.g, Pow2(f);
    RowsLinear(g, v, v, 5, c1, c2);
    RowsLinear(g, Vec(x, -y, 2 * y, y), p, 0, c1, c2);
    ThetaRows(s, x, y, c1, c2);
    CombinationOfZeros(5, -1, Row1(Rho(g, v), c1, c2), Row1(Rho(g, p), c1, c2), n);
    CombinationOfZeros(5, -1, Row2(Rho(g, v), c1, c2), Row2(Rho(g, p), c1, c2), n);
  }

  /** Whatever kills the point lies in the ideal of its kernel quaternion and 2^f, and nothing else does: with an odd
      determinant, which makes the point primitive, the ideal is the whole annihilator of the point. */
  lemma IdealIsAnnihilator(quart: int, s: Stored, f: nat, c1: int, c2: int, a: int, b: int, member: Vec)
    requires Acts(quart, s.g) && Related(s) && f <= 248 && (f == 0 || Wronskian(s, c1, c2) % 2 == 1)
    requires Kills(Rho(s.g, Kernel(a, b)), c1, c2, f)
    ensures InIdeal(quart, member, Kernel(a, b), Pow2(f)) <==> Kills(Rho(s.g, member), c1, c2, f)
  {
    var n, k := Pow2(f), Kernel(a, b);
    if InIdeal(quart, member, k, n) {
      IdealKills(quart, s.g, k, f, c1, c2, member);
    }
    if Kills(Rho(s.g, member), c1, c2, f) {
      var x, y, o := FiveTimes(quart, member, a, b);
      LeftMultiple(quart, o, k, n);
      IdealKills(quart, s.g, k, f, c1, c2, OrderMul(quart, o, k));
      RemainderKills(s, member, x, y, OrderMul(quart, o, k), c1, c2, f);
      var h := WronskianUnit(s, c1, c2, f);
      OnlyZeros(x, y, c1, c2, Row1(Rho(s.g, THETA), c1, c2), Row2(Rho(s.g, THETA), c1, c2), h, n);
      var t := MultipleOf(x, y, n);
      FifthInIdeal(quart, member, t, o, k, f);
    }
  }
}
