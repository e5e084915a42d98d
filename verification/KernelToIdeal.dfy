/** From a kernel point to a quaternion that kills it, with 256-bit sign-and-magnitude arithmetic in between. */
module KernelToIdeal {
  import opened Arith
  import opened Options
  import opened Gcds
  import opened Linear4
  import opened Lattices
  import opened Modular
  import opened Matrices2
  import opened Quaternions
  import opened Deuring
  import opened Actions

  // ----- sign and magnitude -----

  /** 2^256, the range of a magnitude. */
  const W: int := 256 * N

  /** Overflow drops the magnitude's bits from the width w up and keeps the sign. */
  function Wrap(w: int, x: int): int
    requires w > 0
  {
    if x >= 0 then x % w else -(-x % w)
  }

  /** The width is a multiple of 2^f. */
  ghost predicate Wide(w: int, f: nat) {
    w > 0 && Cong(w, 0, Pow2(f))
  }

  lemma FullWidth(f: nat)
    requires f <= 248
    ensures Wide(W, f)
  {
    SmallerPower(f);
    Product256(Pow2(f), Pow2(248 - f));
    CongIntro(W, 0, Pow2(f), 256 * Pow2(248 - f));
  }

  lemma Product256(x: int, y: int)
    ensures 256 * (x * y) == x * (256 * y)
  {
  }

  /** Wrapping around changes nothing modulo 2^f. */
  lemma WrapCong(w: int, x: int, f: nat)
    requires Wide(w, f)
    ensures Cong(Wrap(w, x), x, Pow2(f))
  {
    var k := CongElim(w, 0, Pow2(f));
    CongMod(x, w);
    CongMod(-x, w);
    if x < 0 {
      CongRefl(0, w);
      CongAdd(0, 0, -x % w, -x, w);
    }
    CongDivisor(Wrap(w, x), x, Pow2(f), k);
  }

  // ----- modular inverses -----

  ghost predicate InverseOf(a: int, x: int, m: int) {
    Cong(a * x, 1, m)
  }

  /** The inverse of a modulo m, if a has one. */
  method InvertMod(a: int, m: int) returns (r: Option<int>)
    requires m > 0
    ensures r.None? ==> forall x: int :: !InverseOf(a, x, m)
    ensures r.Some? ==> 0 <= r.value < m && InverseOf(a, r.value, m)
  {
    var g, u, v := Xgcd(a, m);
    if g != 1 {
      forall x: int ensures !InverseOf(a, x, m) {
        if InverseOf(a, x, m) {
          InverseMeansCoprime(g, a, m, x);
        }
      }
      return None;
    }
    CongIntro(u * a, 1, m, -v);
    CongMod(u, m);
    CongRefl(a, m);
    CongMul(u % m, u, a, a, m);
    CongTrans(u % m * a, u * a, 1, m);
    assert u % m * a == a * (u % m);
    r := Some(u % m);
  }

  lemma InverseMeansCoprime(g: int, a: int, m: int, x: int)
    requires Divides(g, a) && Divides(g, m) && g >= 0 && Cong(a * x, 1, m)
    ensures g == 1
  {
    var t := CongElim(a * x, 1, m);
    DividesLinear(g, a, m, x, -t);
    assert x * a + -t * m == 1;
    var k: int :| 1 == g * k;
    UnitFactor(g, k);
  }

  lemma UnitFactor(g: int, k: int)
    requires g >= 0 && 1 == g * k
    ensures g == 1
  {
    if g >= 2 {
      if k >= 1 { Grow(g, 1, k); } else { Grow(g, k, 0); }
    }
  }

  /** Odd numbers are the units modulo 2^k. */
  lemma {:induction false} OddHasInverse(a: int, k: nat) returns (x: int)
    requires a % 2 == 1 || k == 0
    ensures Cong(a * x, 1, Pow2(k))
  {
    if k == 0 {
      x := 0;
      CongIntro(a * 0, 1, Pow2(k), -1);
    } else {
      x := OddHasInverse(a, k - 1);
      x := LiftInverse(a, x, Pow2(k - 1), Pow2(k));
    }
  }

  /** An inverse of an odd number modulo n gives one modulo 2n. */
  lemma LiftInverse(a: int, x: int, n: int, m: int) returns (y: int)
    requires a % 2 == 1 && m == 2 * n && Cong(a * x, 1, n)
    ensures Cong(a * y, 1, m)
  {
    var t := CongElim(a * x, 1, n);
    if t % 2 == 0 {
      LiftEven(a, x, n, t);
      y := x;
    } else {
      LiftOdd(a, x, n, t);
      y := x + n;
    }
  }

  lemma LiftEven(a: int, x: int, n: int, t: int)
    requires a * x == 1 + n * t && t % 2 == 0
    ensures Cong(a * x, 1, 2 * n)
  {
    assert n * t == 2 * n * (t / 2);
    CongIntro(a * x, 1, 2 * n, t / 2);
  }

  lemma LiftOdd(a: int, x: int, n: int, t: int)
    requires a * x == 1 + n * t && (t + a) % 2 == 0
    ensures Cong(a * (x + n), 1, 2 * n)
  {
    var h := (t + a) / 2;
    assert a * (x + n) == 1 + n * (t + a);
    assert n * (2 * h) == 2 * n * h;
    CongIntro(a * (x + n), 1, 2 * n, h);
  }

  lemma UnitsModPow2(a: int, f: nat) returns (x: int)
    ensures f == 0 || a % 2 == 1 ==> InverseOf(a, x, Pow2(f))
    ensures f >= 1 && a % 2 == 0 ==> forall y: int :: !InverseOf(a, y, Pow2(f))
  {
    if f == 0 || a % 2 == 1 {
      x := OddHasInverse(a, f);
    } else {
      x := 0;
      forall y: int ensures !InverseOf(a, y, Pow2(f)) {
        if InverseOf(a, y, Pow2(f)) {
          InvertibleIsOdd(a, y, f);
        }
      }
    }
  }

  // ----- matrix times vector -----

  /** Both coordinates of m times (c1, c2). */
  function Row1(m: Mat2, c1: int, c2: int): int { m.a * c1 + m.b * c2 }
  function Row2(m: Mat2, c1: int, c2: int): int { m.c * c1 + m.d * c2 }

  /** A signed number as an unsigned one of the same width. */
  function ToScalar(w: int, c: int): (s: nat)
    requires -w < c < w
    ensures s < w && Cong(s, c, w)
  {
    CongRefl(c, w);
    CongIntro(c + w, c, w, 1);
    if c >= 0 then c else c + w
  }

  method EvalMod(w: int, m: Mat2, c1: int, c2: int, f: nat) returns (r1: int, r2: int)
    requires Wide(w, f) && NonNegative2(m) && -w < c1 < w && -w < c2 < w
    ensures 0 <= r1 < Pow2(f) && Cong(r1, Row1(m, c1, c2), Pow2(f))
    ensures 0 <= r2 < Pow2(f) && Cong(r2, Row2(m, c1, c2), Pow2(f))
  {
    var s1, s2 := ToScalar(w, c1), ToScalar(w, c2);
    ScalarCong(w, s1, c1, f);
    ScalarCong(w, s2, c2, f);
    r1 := DotMod(m.a, s1, m.b, s2, f);
    r2 := DotMod(m.c, s1, m.d, s2, f);
    RowCong(m.a, m.b, s1, s2, c1, c2, f);
    RowCong(m.c, m.d, s1, s2, c1, c2, f);
  }

  lemma ScalarCong(w: int, s: int, c: int, f: nat)
    requires Wide(w, f) && Cong(s, c, w)
    ensures Cong(s, c, Pow2(f))
  {
    var k := CongElim(w, 0, Pow2(f));
    CongDivisor(s, c, Pow2(f), k);
  }

  lemma RowCong(a: nat, b: nat, s1: nat, s2: nat, c1: int, c2: int, f: nat)
    requires Cong(s1, c1, Pow2(f)) && Cong(s2, c2, Pow2(f))
    ensures 0 <= DotMod(a, s1, b, s2, f) < Pow2(f)
    ensures Cong(DotMod(a, s1, b, s2, f), a * c1 + b * c2, Pow2(f))
  {
    DotModCong(a, s1, b, s2, f);
    CongRefl(a, Pow2(f));
    CongRefl(b, Pow2(f));
    CongDot(a, a, s1, c1, b, b, s2, c2, Pow2(f));
    CongTrans(DotMod(a, s1, b, s2, f), a * s1 + b * s2, a * c1 + b * c2, Pow2(f));
  }

  // ----- the quaternion -----

  /** The stored matrices of one curve that the conversion uses: the order's generators and j. */
  datatype Stored = Stored(g: Generators, j: Mat2)

  const CURVE0_ROWS := Stored(CURVE0, MJ)

  predicate Entries(s: Stored) {
    NonNegative2(s.g.g2) && NonNegative2(s.g.g4) && NonNegative2(s.j)
  }

  /** j is twice the third generator minus the second. */
  ghost predicate Related(s: Stored) {
    Cong2(s.j, Plus(ScaleBy(2, s.g.g3), ScaleBy(-1, s.g.g2)), N)
  }

  lemma Curve0Rows()
    ensures Entries(CURVE0_ROWS) && Related(CURVE0_ROWS)
  {
    StoredJ();
  }

  /** The matrix of j + (1 + k)/2. */
  function Theta(s: Stored): Mat2 { Plus(s.j, s.g.g4) }

  /** The determinant of (c, theta(c)). */
  function Wronskian(s: Stored, c1: int, c2: int): int {
    c1 * Row2(Theta(s), c1, c2) - Row1(Theta(s), c1, c2) * c2
  }

  /** One wrapped product difference. */
  lemma WrappedCross(w: int, x: int, y: int, z: int, v: int, f: nat)
    requires Wide(w, f)
    ensures Cong(Wrap(w, Wrap(w, x * y) - Wrap(w, z * v)), x * y - z * v, Pow2(f))
  {
    var d := Pow2(f);
    var p, q := Wrap(w, x * y), Wrap(w, z * v);
    WrapCong(w, x * y, f);
    WrapCong(w, z * v, f);
    WrapCong(w, p - q, f);
    CongAdd(p, x * y, q, z * v, d);
    CongTrans(Wrap(w, p - q), p - q, x * y - z * v, d);
  }

  /** theta(c) from the two stored matrices. */
  method ThetaMod(w: int, s: Stored, c1: int, c2: int, f: nat) returns (d1: int, d2: int)
    requires Wide(w, f) && Entries(s) && -w < c1 < w && -w < c2 < w
    ensures 0 <= d1 < Pow2(f) && 0 <= d2 < Pow2(f)
    ensures Cong(d1, Row1(Theta(s), c1, c2), Pow2(f)) && Cong(d2, Row2(Theta(s), c1, c2), Pow2(f))
  {
    var modulus := Pow2(f);
    var jc1, jc2 := EvalMod(w, s.j, c1, c2, f);
    var gc1, gc2 := EvalMod(w, s.g.g4, c1, c2, f);
    d1 := Wrap(w, jc1 + gc1) % modulus;
    d2 := Wrap(w, jc2 + gc2) % modulus;
    WrappedSum(w, jc1, gc1, Row1(s.j, c1, c2), Row1(s.g.g4, c1, c2), f);
    WrappedSum(w, jc2, gc2, Row2(s.j, c1, c2), Row2(s.g.g4, c1, c2), f);
    PlusRows(s.j, s.g.g4, c1, c2);
  }

  lemma WrappedSum(w: int, x: int, y: int, x': int, y': int, f: nat)
    requires Wide(w, f) && Cong(x, x', Pow2(f)) && Cong(y, y', Pow2(f))
    ensures Cong(Wrap(w, x + y) % Pow2(f), x' + y', Pow2(f))
  {
    var d := Pow2(f);
    WrapCong(w, x + y, f);
    CongMod(Wrap(w, x + y), d);
    CongTrans(Wrap(w, x + y) % d, Wrap(w, x + y), x + y, d);
    CongAdd(x, x', y, y', d);
    CongTrans(Wrap(w, x + y) % d, x + y, x' + y', d);
  }

  lemma PlusRows(m: Mat2, n: Mat2, c1: int, c2: int)
    ensures Row1(Plus(m, n), c1, c2) == Row1(m, c1, c2) + Row1(n, c1, c2)
    ensures Row2(Plus(m, n), c1, c2) == Row2(m, c1, c2) + Row2(n, c1, c2)
  {
    assert (m.a + n.a) * c1 == m.a * c1 + n.a * c1 && (m.b + n.b) * c2 == m.b * c2 + n.b * c2;
    assert (m.c + n.c) * c1 == m.c * c1 + n.c * c1 && (m.d + n.d) * c2 == m.d * c2 + n.d * c2;
  }

  /** m kills the vector (c1, c2) modulo 2^f. */
  ghost predicate Kills(m: Mat2, c1: int, c2: int, f: nat) {
    Cong(Row1(m, c1, c2), 0, Pow2(f)) && Cong(Row2(m, c1, c2), 0, Pow2(f))
  }

  /** theta = j + (1 + k)/2 in order coordinates. */
  const THETA := Vec(0, -1, 2, 1)

  /** Coordinates of the quaternion a + b*theta - i. */
  function Kernel(a: int, b: int): Vec {
    Vec(a, -1 - b, 2 * b, b)
  }

  ghost predicate KernelForm(alpha: Element, a: int, b: int) {
    Coordinates(O0, alpha, Kernel(a, b))
  }

  /** alpha = a + b*(j + (1+k)/2) - i, which kills the point; nothing when the determinant is even. The source calls
      it with the first curve's rows and the width 2^256. */
  method KernelQuaternion(s: Stored, w: int, c1: int, c2: int, f: nat) returns (r: Option<Element>)
    requires Entries(s) && Related(s) && Wide(w, f) && f <= 248 && -w < c1 < w && -w < c2 < w
    ensures r.None? <==> f >= 1 && Wronskian(s, c1, c2) % 2 == 0
    ensures r.Some? ==> Member(O0, r.value) && r.value.denom == 2 && exists a: int, b: int :: KernelForm(r.value, a, b)
    ensures r.Some? ==> forall m: Mat2 :: IsAction(s.g, r.value, f, m) ==> Kills(m, c1, c2, f)
  {
    var modulus := Pow2(f);
    var d1, d2 := ThetaMod(w, s, c1, c2, f);
    var e1, e2 := EvalMod(w, s.g.g2, c1, c2, f);
    var det := CrossMod(w, c1, d2, d1, c2, f);
    DeterminantCong(c1, c2, d1, d2, Row1(Theta(s), c1, c2), Row2(Theta(s), c1, c2), det, modulus);
    var detInv := InvertMod(det, modulus);
    ghost var inverse := Invertible(det, Wronskian(s, c1, c2), f);
    if detInv.None? {
      return None;
    }
    var a := ScaledCross(w, detInv.value, d2, e1, d1, e2, f);
    var b := ScaledCross(w, detInv.value, c1, e2, c2, e1, f);
    var alpha := Element(Vec(2 * a + b, -2, 2 * b, b), 2);
    ghost var coords := Vec(a, -1 - b, 2 * b, b);
    OrderBasis(coords);
    assert Coordinates(O0, alpha, coords);
    assert KernelForm(alpha, a, b);
    Cramer(c1, c2, d1, d2, e1, e2, det, detInv.value, a, b, modulus);
    forall m: Mat2 | IsAction(s.g, alpha, f, m) ensures Kills(m, c1, c2, f) {
      KillsByAction(s, alpha, coords, m, a, b, c1, c2, d1, d2, e1, e2, f);
    }
    r := Some(alpha);
  }

  lemma DeterminantCong(c1: int, c2: int, d1: int, d2: int, t1: int, t2: int, det: int, n: int)
    requires Cong(det, c1 * d2 - d1 * c2, n) && Cong(d1, t1, n) && Cong(d2, t2, n)
    ensures Cong(det, c1 * t2 - t1 * c2, n)
  {
    CongRefl(c1, n);
    CongRefl(c2, n);
    CongDot(c1, c1, d2, t2, d1, t1, c2, c2, n);
    CongTrans(det, c1 * d2 - d1 * c2, c1 * t2 - t1 * c2, n);
  }

  /** The wrapped cross difference, reduced. */
  method CrossMod(w: int, x: int, y: int, z: int, v: int, f: nat) returns (r: int)
    requires Wide(w, f)
    ensures 0 <= r < Pow2(f) && Cong(r, x * y - z * v, Pow2(f))
  {
    var d := Wrap(w, Wrap(w, x * y) - Wrap(w, z * v));
    WrappedCross(w, x, y, z, v, f);
    CongMod(d, Pow2(f));
    CongTrans(d % Pow2(f), d, x * y - z * v, Pow2(f));
    r := d % Pow2(f);
  }

  lemma Invertible(det: int, w: int, f: nat) returns (x: int)
    requires Cong(det, w, Pow2(f))
    ensures f == 0 || w % 2 == 1 ==> InverseOf(det, x, Pow2(f))
    ensures f >= 1 && w % 2 == 0 ==> forall y: int :: !InverseOf(det, y, Pow2(f))
  {
    x := UnitsModPow2(det, f);
    if f >= 1 {
      CongDivisor(det, w, 2, Pow2(f - 1));
      ModEqual(det, w, 2);
    }
  }

  /** The inverse times a wrapped cross difference, reduced. */
  method ScaledCross(w: int, inverse: int, x: int, y: int, z: int, v: int, f: nat) returns (r: int)
    requires Wide(w, f)
    ensures 0 <= r < Pow2(f) && Cong(r, inverse * (x * y - z * v), Pow2(f))
  {
    var p := Wrap(w, Wrap(w, x * y) - Wrap(w, z * v));
    WrappedCross(w, x, y, z, v, f);
    r := Wrap(w, inverse * p) % Pow2(f);
    WrapCong(w, inverse * p, f);
    ScaledCong(inverse, p, x * y - z * v, Wrap(w, inverse * p), Pow2(f));
  }

  lemma ScaledCong(inverse: int, p: int, v: int, wrapped: int, n: int)
    requires n > 0 && Cong(p, v, n) && Cong(wrapped, inverse * p, n)
    ensures Cong(wrapped % n, inverse * v, n)
  {
    CongMod(wrapped, n);
    CongTrans(wrapped % n, wrapped, inverse * p, n);
    CongRefl(inverse, n);
    CongMul(inverse, inverse, p, v, n);
    CongTrans(wrapped % n, inverse * p, inverse * v, n);
  }

  /** a and b solve a*c + b*d = e. */
  lemma Cramer(c1: int, c2: int, d1: int, d2: int, e1: int, e2: int, det: int, inverse: int, a: int, b: int, n: int)
    requires Cong(det, c1 * d2 - d1 * c2, n) && InverseOf(det, inverse, n)
    requires Cong(a, inverse * (d2 * e1 - d1 * e2), n) && Cong(b, inverse * (c1 * e2 - c2 * e1), n)
    ensures Cong(a * c1 + b * d1, e1, n) && Cong(a * c2 + b * d2, e2, n)
  {
    var a', b', w := inverse * (d2 * e1 - d1 * e2), inverse * (c1 * e2 - c2 * e1), c1 * d2 - d1 * c2;
    CongRefl(inverse, n);
    CongMul(inverse, inverse, det, w, n);
    CongSym(inverse * det, inverse * w, n);
    assert det * inverse == inverse * det;
    CongTrans(inverse * w, inverse * det, 1, n);
    CramerIdentity(c1, c2, d1, d2, e1, e2, inverse);
    CramerSolve(a, a', b, b', c1, d1, inverse * w, e1, n);
    CramerSolve(a, a', b, b', c2, d2, inverse * w, e2, n);
  }

  lemma CramerIdentity(c1: int, c2: int, d1: int, d2: int, e1: int, e2: int, v: int)
    ensures v * (d2 * e1 - d1 * e2) * c1 + v * (c1 * e2 - c2 * e1) * d1 == v * (c1 * d2 - d1 * c2) * e1
    ensures v * (d2 * e1 - d1 * e2) * c2 + v * (c1 * e2 - c2 * e1) * d2 == v * (c1 * d2 - d1 * c2) * e2
  {
    CrossIdentity(c1, c2, d1, d2, e1, e2);
    Factor3(v, d2 * e1 - d1 * e2, c1, c1 * e2 - c2 * e1, d1, c1 * d2 - d1 * c2, e1);
    Factor3(v, d2 * e1 - d1 * e2, c2, c1 * e2 - c2 * e1, d2, c1 * d2 - d1 * c2, e2);
  }

  lemma CrossIdentity(c1: int, c2: int, d1: int, d2: int, e1: int, e2: int)
    ensures (d2 * e1 - d1 * e2) * c1 + (c1 * e2 - c2 * e1) * d1 == (c1 * d2 - d1 * c2) * e1
    ensures (d2 * e1 - d1 * e2) * c2 + (c1 * e2 - c2 * e1) * d2 == (c1 * d2 - d1 * c2) * e2
  {
    assert (d1 * e2) * c1 == (c1 * e2) * d1 && (d2 * e1) * c1 == (c1 * d2) * e1 && (c2 * e1) * d1 == (d1 * c2) * e1;
    assert (d2 * e1) * c2 == (c2 * e1) * d2 && (d1 * e2) * c2 == (d1 * c2) * e2 && (c1 * e2) * d2 == (c1 * d2) * e2;
  }

  lemma Factor3(v: int, x: int, s: int, y: int, t: int, z: int, u: int)
    requires x * s + y * t == z * u
    ensures v * x * s + v * y * t == v * z * u
  {
    assert v * x * s == v * (x * s) && v * y * t == v * (y * t) && v * z * u == v * (z * u);
    assert v * (x * s) + v * (y * t) == v * (x * s + y * t);
  }

  lemma CramerSolve(a: int, a': int, b: int, b': int, c: int, d: int, unit: int, e: int, n: int)
    requires Cong(a, a', n) && Cong(b, b', n) && a' * c + b' * d == unit * e && Cong(unit, 1, n)
    ensures Cong(a * c + b * d, e, n)
  {
    CongRefl(c, n);
    CongRefl(d, n);
    CongRefl(e, n);
    CongDot(a, a', c, c, b, b', d, d, n);
    CongMul(unit, 1, e, e, n);
    CongTrans(a * c + b * d, unit * e, e, n);
  }

  /** The matrix of a + b*theta - i. */
  lemma RhoOfAlpha(g: Generators, a: int, b: int)
    ensures var m, t := Rho(g, Vec(a, -1 - b, 2 * b, b)), Plus(Plus(ScaleBy(2, g.g3), ScaleBy(-1, g.g2)), g.g4);
            m == Plus(Plus(ScaleBy(a, I2), ScaleBy(b, t)), ScaleBy(-1, g.g2))
  {
    AlphaEntry(a, b, 1, g.g2.a, g.g3.a, g.g4.a);
    AlphaEntry(a, b, 0, g.g2.b, g.g3.b, g.g4.b);
    AlphaEntry(a, b, 0, g.g2.c, g.g3.c, g.g4.c);
    AlphaEntry(a, b, 1, g.g2.d, g.g3.d, g.g4.d);
  }

  lemma AlphaEntry(a: int, b: int, o: int, i: int, g: int, h: int)
    ensures a * o + (-1 - b) * i + 2 * b * g + b * h == a * o + b * (2 * g + -1 * i + h) + -1 * i
  {
    assert b * (2 * g + -1 * i + h) == 2 * b * g - b * i + b * h;
  }

  lemma KillsByAction(s: Stored, alpha: Element, coords: Vec, m: Mat2, a: int, b: int, c1: int, c2: int,
                      d1: int, d2: int, e1: int, e2: int, f: nat)
    requires f <= 248 && alpha.denom != 0 && Coordinates(O0, alpha, coords) && coords == Vec(a, -1 - b, 2 * b, b)
    requires IsAction(s.g, alpha, f, m) && Related(s)
    requires Cong(d1, Row1(Theta(s), c1, c2), Pow2(f)) && Cong(d2, Row2(Theta(s), c1, c2), Pow2(f))
    requires Cong(e1, Row1(s.g.g2, c1, c2), Pow2(f)) && Cong(e2, Row2(s.g.g2, c1, c2), Pow2(f))
    requires Cong(a * c1 + b * d1, e1, Pow2(f)) && Cong(a * c2 + b * d2, e2, Pow2(f))
    ensures Kills(m, c1, c2, f)
  {
    ActionIsRho(s.g, alpha, coords, f, m);
    RhoOfAlpha(s.g, a, b);
    ThetaForm(s, f);
    var t := Plus(Plus(ScaleBy(2, s.g.g3), ScaleBy(-1, s.g.g2)), s.g.g4);
    KilledRows(m, t, Theta(s), s.g.g2, a, b, c1, c2, d1, d2, e1, e2, Pow2(f));
  }

  lemma ActionIsRho(g: Generators, alpha: Element, coords: Vec, f: nat, m: Mat2)
    requires alpha.denom != 0 && Coordinates(O0, alpha, coords) && IsAction(g, alpha, f, m)
    ensures Cong2(m, Rho(g, coords), Pow2(f))
  {
    var c' :| ActionAt(g, alpha, f, m, c');
    OrderUnique(alpha, coords, c');
  }

  lemma ThetaForm(s: Stored, f: nat)
    requires f <= 248 && Related(s)
    ensures Cong2(Theta(s), Plus(Plus(ScaleBy(2, s.g.g3), ScaleBy(-1, s.g.g2)), s.g.g4), Pow2(f))
  {
    var n, j := Pow2(f), Plus(ScaleBy(2, s.g.g3), ScaleBy(-1, s.g.g2));
    SmallerPower(f);
    Cong2Divisor(s.j, j, n, Pow2(248 - f));
    Cong2Refl(s.g.g4, n);
    Cong2Plus(s.j, j, s.g.g4, s.g.g4, n);
  }

  lemma KilledRows(m: Mat2, t: Mat2, h: Mat2, i: Mat2, a: int, b: int, c1: int, c2: int, d1: int, d2: int, e1: int, e2: int, n: int)
    requires Cong2(m, Plus(Plus(ScaleBy(a, I2), ScaleBy(b, t)), ScaleBy(-1, i)), n) && Cong2(h, t, n)
    requires Cong(d1, Row1(h, c1, c2), n) && Cong(d2, Row2(h, c1, c2), n)
    requires Cong(e1, Row1(i, c1, c2), n) && Cong(e2, Row2(i, c1, c2), n)
    requires Cong(a * c1 + b * d1, e1, n) && Cong(a * c2 + b * d2, e2, n)
    ensures Cong(Row1(m, c1, c2), 0, n) && Cong(Row2(m, c1, c2), 0, n)
  {
    KilledRow(m.a, m.b, a, b, 1, 0, t.a, t.b, h.a, h.b, i.a, i.b, c1, c2, c1, d1, e1, n);
    KilledRow(m.c, m.d, a, b, 0, 1, t.c, t.d, h.c, h.d, i.c, i.d, c1, c2, c2, d2, e2, n);
  }

  /** One row of the matrix of alpha applied to the point. */
  lemma KilledRow(p: int, q: int, a: int, b: int, o1: int, o2: int, t1: int, t2: int, h1: int, h2: int, i1: int, i2: int,
                  c1: int, c2: int, c: int, d: int, e: int, n: int)
    requires Cong(p, a * o1 + b * t1 + -1 * i1, n) && Cong(q, a * o2 + b * t2 + -1 * i2, n)
    requires Cong(h1, t1, n) && Cong(h2, t2, n) && c == o1 * c1 + o2 * c2
    requires Cong(d, h1 * c1 + h2 * c2, n) && Cong(e, i1 * c1 + i2 * c2, n) && Cong(a * c + b * d, e, n)
    ensures Cong(p * c1 + q * c2, 0, n)
  {
    CongRefl(c1, n);
    CongRefl(c2, n);
    CongDot(p, a * o1 + b * t1 + -1 * i1, c1, c1, q, a * o2 + b * t2 + -1 * i2, c2, c2, n);
    RowIdentity(a, b, o1, o2, t1, t2, i1, i2, c1, c2);
    CongDot(h1, t1, c1, c1, h2, t2, c2, c2, n);
    CongTrans(d, h1 * c1 + h2 * c2, t1 * c1 + t2 * c2, n);
    SubstituteRow(a, b, c, d, t1 * c1 + t2 * c2, e, i1 * c1 + i2 * c2, n);
    CongTrans(p * c1 + q * c2, a * c + b * (t1 * c1 + t2 * c2) - (i1 * c1 + i2 * c2), 0, n);
  }

  lemma RowIdentity(a: int, b: int, o1: int, o2: int, t1: int, t2: int, i1: int, i2: int, c1: int, c2: int)
    ensures (a * o1 + b * t1 + -1 * i1) * c1 + (a * o2 + b * t2 + -1 * i2) * c2
         == a * (o1 * c1 + o2 * c2) + b * (t1 * c1 + t2 * c2) - (i1 * c1 + i2 * c2)
  {
    Spread(a * o1, b * t1, i1, c1);
    Spread(a * o2, b * t2, i2, c2);
    assert a * (o1 * c1 + o2 * c2) == a * o1 * c1 + a * o2 * c2;
    assert b * (t1 * c1 + t2 * c2) == b * t1 * c1 + b * t2 * c2;
  }

  lemma Spread(x: int, y: int, z: int, c: int)
    ensures (x + y + -1 * z) * c == x * c + y * c - z * c
  {
  }

  lemma SubstituteRow(a: int, b: int, c: int, d: int, d': int, e: int, e': int, n: int)
    requires Cong(d, d', n) && Cong(e, e', n) && Cong(a * c + b * d, e, n)
    ensures Cong(a * c + b * d' - e', 0, n)
  {
    CongRefl(a, n);
    CongRefl(b, n);
    CongRefl(c, n);
    CongSym(d, d', n);
    CongDot(a, a, c, c, b, b, d', d, n);
    CongTrans(a * c + b * d', a * c + b * d, e, n);
    CongTrans(a * c + b * d', e, e', n);
    CongRefl(e', n);
    CongAdd(a * c + b * d', e', e', e', n);
  }
}
