/** Comparing lattices by their triangular bases: when equality of entries is equality of lattices,
    for full-rank and rank-deficient lattices and denominators of either sign. */
module HnfEquality {
  import opened Arith
  import opened Gcds
  import opened Linear4
  import opened Lattices
  import opened Duals
  import opened Intersections
  import opened HermiteForm
  import opened KernelIntersection

  /** The comparison: entries over equal denominators, or entries scaled to a common one. */
  predicate SameEntries(l1: Lattice, l2: Lattice)
    requires l1.denom != 0 && l2.denom != 0
  {
    if l1.denom == l2.denom then l1.basis == l2.basis
    else
      var g := Gcd(Abs(l1.denom), Abs(l2.denom));
      g != 0 && ScaleMat(l2.denom / g, l1.basis) == ScaleMat(l1.denom / g, l2.basis)
  }

  lemma CommonGcd(x: int, y: int)
    requires x != 0 && y != 0
    ensures var g := Gcd(Abs(x), Abs(y)); g > 0 && x == g * (x / g) && y == g * (y / g)
  {
    var g := Gcd(Abs(x), Abs(y));
    var _, _ := GcdLaw(Abs(x), Abs(y));
    DividesAbs(g, x);
    DividesAbs(g, y);
    QuotientLaw(g, x);
    QuotientLaw(g, y);
  }

  method Equals(l1: Lattice, l2: Lattice) returns (equal: bool)
    requires l1.denom != 0 && l2.denom != 0
    ensures equal == SameEntries(l1, l2)
  {
    if l1.denom == l2.denom {
      return l1.basis == l2.basis;
    }
    CommonGcd(l1.denom, l2.denom);
    var g := Gcd(Abs(l1.denom), Abs(l2.denom));
    var a, b := ScaleMat(l2.denom / g, l1.basis), ScaleMat(l1.denom / g, l2.basis);
    equal := true;
    var row := 0;
    while row < 4
      invariant 0 <= row <= 4
      invariant equal <==> RowsAgree(a, b, row)
    {
      var same := RowsEqual(a, b, row);
      equal := equal && same;
      row := row + 1;
    }
    assert RowsAgree(a, b, 4) <==> a == b;
  }

  predicate RowsAgree(a: Mat, b: Mat, n: nat) {
    (n > 0 ==> a.r0 == b.r0) && (n > 1 ==> a.r1 == b.r1) && (n > 2 ==> a.r2 == b.r2) && (n > 3 ==> a.r3 == b.r3)
  }

  predicate PrefixAgrees(u: Vec, v: Vec, n: nat) {
    (n > 0 ==> u.a == v.a) && (n > 1 ==> u.b == v.b) && (n > 2 ==> u.c == v.c) && (n > 3 ==> u.d == v.d)
  }

  /** Compares one row entry by entry. */
  method RowsEqual(a: Mat, b: Mat, row: nat) returns (equal: bool)
    requires row < 4
    ensures equal <==> Row(a, row) == Row(b, row)
  {
    equal := true;
    var col := 0;
    while col < 4
      invariant 0 <= col <= 4
      invariant equal <==> PrefixAgrees(Row(a, row), Row(b, row), col)
    {
      if Entry(a, row, col) != Entry(b, row, col) {
        equal := false;
      }
      col := col + 1;
    }
  }

  // ----- equal entries mean equal lattices -----

  lemma EqualIsSame(l1: Lattice, l2: Lattice)
    requires l1.denom != 0 && l2.denom != 0 && SameEntries(l1, l2)
    ensures SameLattice(l1, l2)
  {
    if l1.denom != l2.denom {
      CommonGcd(l1.denom, l2.denom);
      var g := Gcd(Abs(l1.denom), Abs(l2.denom));
      forall e: Element | e.denom != 0 ensures Member(l1, e) <==> Member(l2, e) {
        ScaledMembers(l1, l2, g, l2.denom / g, l1.denom / g, e);
        ScaledMembers(l2, l1, g, l1.denom / g, l2.denom / g, e);
      }
    }
  }

  lemma ScaledMembers(l1: Lattice, l2: Lattice, g: int, s: int, t: int, e: Element)
    requires g != 0 && l2.denom == g * s && l1.denom == g * t && s != 0 && t != 0
    requires ScaleMat(s, l1.basis) == ScaleMat(t, l2.basis)
    ensures Member(l1, e) ==> Member(l2, e)
  {
    if Member(l1, e) {
      var c :| Coordinates(l1, e, c);
      EvalScaleMat(s, l1.basis, c);
      EvalScaleMat(t, l2.basis, c);
      MoveScale(g, s, t, e.denom, e.coords, Eval(l1.basis, c), Eval(l2.basis, c));
      assert Coordinates(l2, e, c);
    }
  }

  lemma MoveScale(g: int, s: int, t: int, d: int, x: Vec, u: Vec, v: Vec)
    requires t != 0 && Scale(g * t, x) == Scale(d, u) && Scale(s, u) == Scale(t, v)
    ensures Scale(g * s, x) == Scale(d, v)
  {
    MoveEntry(g, s, t, d, x.a, u.a, v.a);
    MoveEntry(g, s, t, d, x.b, u.b, v.b);
    MoveEntry(g, s, t, d, x.c, u.c, v.c);
    MoveEntry(g, s, t, d, x.d, u.d, v.d);
  }

  lemma MoveEntry(g: int, s: int, t: int, d: int, x: int, u: int, v: int)
    requires t != 0 && g * t * x == d * u && s * u == t * v
    ensures g * s * x == d * v
  {
    assert t * (g * s * x) == s * (g * t * x);
    assert s * (d * u) == d * (s * u);
    assert d * (t * v) == t * (d * v);
    CancelFactor(t, g * s * x, d * v);
  }

  // ----- one span, one Hermite form -----

  /** The first k columns are zero and the other pivots positive: the forms that their span determines. */
  predicate StartsAt(m: Mat, k: nat) {
    && k <= 4 && Hermite(m)
    && (forall c: nat | c < k :: Column(m, c) == ZERO)
    && (forall c: nat | k <= c < 4 :: At(Row(m, c), c) > 0)
  }

  ghost predicate PivotsLast(m: Mat) {
    exists k: nat :: StartsAt(m, k)
  }

  lemma ReducedStarts(m: Mat)
    requires Reduced(m)
    ensures StartsAt(m, 0) && PivotsLast(m)
  {
    assert StartsAt(m, 0);
  }

  lemma NonZeroFactor(p: int, x: int)
    requires p != 0 && p * x == 0
    ensures x == 0
  {
  }

  lemma PivotsAgree(p: int, q: int, u: int, v: int)
    requires p > 0 && q > 0 && p * u == q && q * v == p
    ensures p == q && u == 1
  {
    if u <= 0 { Grow(p, u, 0); }
    if v <= 0 { Grow(q, v, 0); }
    Grow(p, 1, u);
    Grow(q, 1, v);
    CancelFactor(p, u, 1);
  }

  /** Two residues of the same pivot that differ by a multiple of it. */
  lemma SameRemainder(p: int, x: int, y: int, u: int)
    requires 0 <= x < p && 0 <= y < p && p * u + x == y
    ensures u == 0 && x == y
  {
    QuotientUnique(p, u, x, y);
    QuotientUnique(p, 0, y, y);
  }

  /** The entries of a triangular basis times a vector. */
  lemma EvalTriangular(m: Mat, u: Vec)
    requires UpperTriangular(m)
    ensures Eval(m, u).d == m.r3.d * u.d && Eval(m, u).c == m.r2.c * u.c + m.r2.d * u.d
    ensures Eval(m, u).b == m.r1.b * u.b + m.r1.c * u.c + m.r1.d * u.d
    ensures Eval(m, u).a == m.r0.a * u.a + m.r0.b * u.b + m.r0.c * u.c + m.r0.d * u.d
  {
  }

  /** The rows below row c have positive pivots and v vanishes on them. */
  predicate ZeroBelow(m: Mat, v: Vec, c: nat) {
    forall r: nat | c < r < 4 :: At(Row(m, r), r) > 0 && At(v, r) == 0
  }

  /** Coordinates below row c vanish when the entries below row c do. */
  lemma TailZero(m: Mat, u: Vec, c: nat)
    requires UpperTriangular(m) && c < 4 && ZeroBelow(m, Eval(m, u), c)
    ensures forall r: nat | c < r < 4 :: At(u, r) == 0
    ensures At(Eval(m, u), c) == At(Row(m, c), c) * At(u, c)
  {
    var v := Eval(m, u);
    EvalTriangular(m, u);
    if c < 3 {
      assert At(Row(m, 3), 3) > 0 && At(v, 3) == 0;
      NonZeroFactor(m.r3.d, u.d);
    }
    if c < 2 {
      assert At(Row(m, 2), 2) > 0 && At(v, 2) == 0;
      NonZeroFactor(m.r2.c, u.c);
    }
    if c < 1 {
      assert At(Row(m, 1), 1) > 0 && At(v, 1) == 0;
      NonZeroFactor(m.r1.b, u.b);
    }
  }

  lemma ColumnTail(m: Mat, c: nat)
    requires UpperTriangular(m) && c < 4
    ensures forall r: nat | c < r < 4 :: At(Column(m, c), r) == 0
    ensures At(Column(m, c), c) == At(Row(m, c), c)
  {
  }

  predicate PositiveBelow(m: Mat, c: nat) {
    forall r: nat | c < r < 4 :: At(Row(m, r), r) > 0
  }

  /** A positive pivot of one basis is a pivot of the other, whose column has coordinate one there and zeros after. */
  lemma SamePivot(m: Mat, n: Mat, c: nat, u: Vec, v: Vec)
    requires Hermite(m) && Hermite(n) && c < 4 && Eval(m, u) == Column(n, c) && Eval(n, v) == Column(m, c)
    requires PositiveBelow(m, c) && PositiveBelow(n, c) && At(Row(m, c), c) > 0
    ensures At(Row(m, c), c) == At(Row(n, c), c) && At(u, c) == 1
    ensures forall r: nat | c < r < 4 :: At(u, r) == 0
  {
    ColumnTail(m, c);
    ColumnTail(n, c);
    TailZero(m, u, c);
    TailZero(n, v, c);
    NonZeroPivot(At(Row(n, c), c), At(v, c), At(Row(m, c), c));
    PivotsAgree(At(Row(m, c), c), At(Row(n, c), c), At(u, c), At(v, c));
  }

  lemma NonZeroPivot(q: int, v: int, p: int)
    requires q >= 0 && p > 0 && q * v == p
    ensures q > 0
  {
  }

  /** A column in front of the pivots is zero in both. */
  lemma ZeroInFront(m: Mat, n: Mat, k: nat, c: nat, u: Vec)
    requires StartsAt(m, k) && Hermite(n) && c < k && Eval(m, u) == Column(n, c)
    ensures Column(n, c) == ZERO
  {
    ColumnTail(n, c);
    forall r: nat | k - 1 < r < 4 ensures At(Row(m, r), r) > 0 && At(Eval(m, u), r) == 0 {
    }
    TailZero(m, u, k - 1);
    ZeroCoordinates(m, u, k);
  }

  lemma ZeroCoordinates(m: Mat, u: Vec, k: nat)
    requires k <= 4 && (forall c: nat | c < k :: Column(m, c) == ZERO) && forall r: nat | k <= r < 4 :: At(u, r) == 0
    ensures Eval(m, u) == ZERO
  {
    forall c: nat | c < 4 ensures Scale(At(u, c), Column(m, c)) == ZERO {
      if c < k { ScaleOfZero(At(u, c)); }
    }
    assert Scale(u.a, Column(m, 0)) == ZERO && Scale(u.b, Column(m, 1)) == ZERO by {
      assert At(u, 0) == u.a && At(u, 1) == u.b;
    }
    assert Scale(u.c, Column(m, 2)) == ZERO && Scale(u.d, Column(m, 3)) == ZERO by {
      assert At(u, 2) == u.c && At(u, 3) == u.d;
    }
    ColumnCombination(m, u);
  }

  lemma ScaleOfZero(k: int)
    ensures Scale(k, ZERO) == ZERO
  {
  }

  /** A column whose pivot is zero is zero. */
  predicate NoStrayColumn(m: Mat) {
    (m.r1.b == 0 ==> m.r0.b == 0) && (m.r2.c == 0 ==> m.r0.c == m.r1.c == 0)
  }

  lemma StrayColumns(m: Mat, k: nat)
    requires StartsAt(m, k)
    ensures NoStrayColumn(m)
  {
    if m.r1.b == 0 {
      assert At(Row(m, 1), 1) == 0;
      assert Column(m, 1) == ZERO;
    }
    if m.r2.c == 0 {
      assert At(Row(m, 2), 2) == 0;
      assert Column(m, 2) == ZERO;
    }
  }

  /** One entry right of a pivot: residues of the same pivot differ by no multiple of it. */
  lemma SameEntry(p: int, x: int, y: int, u: int)
    requires p >= 0 && (p > 0 ==> 0 <= x < p && 0 <= y < p) && p * u + x == y
    ensures x == y && (p > 0 ==> u == 0)
  {
    if p > 0 {
      SameRemainder(p, x, y, u);
    }
  }

  lemma SecondColumn(m: Mat, n: Mat, u: Vec)
    requires Hermite(m) && Hermite(n) && m.r0.a == n.r0.a && Eval(m, u) == Column(n, 1) && m.r1.b == n.r1.b && u.b == 1 && u.c == u.d == 0
    ensures Column(m, 1) == Column(n, 1)
  {
    EvalTriangular(m, u);
    SameEntry(m.r0.a, m.r0.b, n.r0.b, u.a);
  }

  lemma ThirdColumn(m: Mat, n: Mat, u: Vec)
    requires Hermite(m) && NoStrayColumn(m) && Hermite(n) && m.r0.a == n.r0.a && m.r1.b == n.r1.b && m.r2.c == n.r2.c
    requires Eval(m, u) == Column(n, 2) && u.c == 1 && u.d == 0
    ensures Column(m, 2) == Column(n, 2)
  {
    EvalTriangular(m, u);
    SameEntry(m.r1.b, m.r1.c, n.r1.c, u.b);
    assert m.r0.b * u.b == 0;
    SameEntry(m.r0.a, m.r0.c, n.r0.c, u.a);
  }

  lemma FourthColumn(m: Mat, n: Mat, u: Vec)
    requires Hermite(m) && NoStrayColumn(m) && Hermite(n) && m.r0.a == n.r0.a && m.r1.b == n.r1.b && m.r2.c == n.r2.c && m.r3.d == n.r3.d
    requires Eval(m, u) == Column(n, 3) && u.d == 1
    ensures Column(m, 3) == Column(n, 3)
  {
    EvalTriangular(m, u);
    SameEntry(m.r2.c, m.r2.d, n.r2.d, u.c);
    assert m.r1.c * u.c == 0 && m.r0.c * u.c == 0;
    SameEntry(m.r1.b, m.r1.d, n.r1.d, u.b);
    assert m.r0.b * u.b == 0;
    SameEntry(m.r0.a, m.r0.d, n.r0.d, u.a);
  }

  ghost predicate ColumnsInSpan(m: Mat, n: Mat) {
    InColumnSpan(m, Column(n, 0)) && InColumnSpan(m, Column(n, 1)) && InColumnSpan(m, Column(n, 2)) && InColumnSpan(m, Column(n, 3))
  }

  /** Column c of n in coordinates over m, which are one at c and zero after it unless the columns agree already. */
  predicate Aligned(m: Mat, n: Mat, c: nat, u: Vec)
    requires c < 4
  {
    && Eval(m, u) == Column(n, c)
    && (Column(m, c) == Column(n, c) || (At(u, c) == 1 && forall r: nat | c < r < 4 :: At(u, r) == 0))
  }

  lemma Align(m: Mat, n: Mat, k: nat, c: nat) returns (u: Vec)
    requires StartsAt(m, k) && Hermite(n) && c < 4 && InColumnSpan(m, Column(n, c)) && InColumnSpan(n, Column(m, c))
    requires k <= c ==> PositiveBelow(n, c)
    ensures Aligned(m, n, c, u) && At(Row(m, c), c) == At(Row(n, c), c)
  {
    u :| Column(n, c) == Eval(m, u);
    var v :| Column(m, c) == Eval(n, v);
    ColumnTail(m, c);
    ColumnTail(n, c);
    if c < k {
      ZeroInFront(m, n, k, c, u);
    } else {
      SamePivot(m, n, c, u, v);
    }
  }

  predicate SamePivots(m: Mat, n: Mat) {
    forall c: nat | c < 4 :: At(Row(m, c), c) == At(Row(n, c), c)
  }

  /** No other Hermite form has the same span. */
  lemma FormUnique(m: Mat, n: Mat, k: nat)
    requires StartsAt(m, k) && Hermite(n) && ColumnsInSpan(m, n) && ColumnsInSpan(n, m)
    ensures m == n
  {
    StrayColumns(m, k);
    var u3 := Align(m, n, k, 3);
    var u2 := Align(m, n, k, 2);
    var u1 := Align(m, n, k, 1);
    var u0 := Align(m, n, k, 0);
    assert SamePivots(m, n);
    SameRest(m, n, u1, u2, u3);
    SameByColumns(m, n);
  }

  /** With the pivots the columns agree. */
  lemma SameRest(m: Mat, n: Mat, u1: Vec, u2: Vec, u3: Vec)
    requires Hermite(m) && NoStrayColumn(m) && Hermite(n) && SamePivots(m, n)
    requires Aligned(m, n, 1, u1) && Aligned(m, n, 2, u2) && Aligned(m, n, 3, u3)
    ensures forall c: nat | c < 4 :: Column(m, c) == Column(n, c)
  {
    PivotEntries(m, n);
    if Column(m, 1) != Column(n, 1) {
      assert At(u1, 1) == 1 && At(u1, 2) == 0 && At(u1, 3) == 0;
      SecondColumn(m, n, u1);
    }
    if Column(m, 2) != Column(n, 2) {
      assert At(u2, 2) == 1 && At(u2, 3) == 0;
      ThirdColumn(m, n, u2);
    }
    if Column(m, 3) != Column(n, 3) {
      FourthColumn(m, n, u3);
    }
  }

  lemma PivotEntries(m: Mat, n: Mat)
    requires SamePivots(m, n)
    ensures m.r0.a == n.r0.a && m.r1.b == n.r1.b && m.r2.c == n.r2.c && m.r3.d == n.r3.d
  {
    assert At(Row(m, 0), 0) == At(Row(n, 0), 0) && At(Row(m, 1), 1) == At(Row(n, 1), 1);
    assert At(Row(m, 2), 2) == At(Row(n, 2), 2) && At(Row(m, 3), 3) == At(Row(n, 3), 3);
  }

  lemma SameByColumns(m: Mat, n: Mat)
    requires forall c: nat | c < 4 :: Column(m, c) == Column(n, c)
    ensures m == n
  {
    assert Column(m, 0) == Column(n, 0) && Column(m, 1) == Column(n, 1) && Column(m, 2) == Column(n, 2) && Column(m, 3) == Column(n, 3);
    TransposeTwice(m);
    TransposeTwice(n);
  }

  /** A column span has one reduced triangular basis. */
  lemma ReducedUnique(m: Mat, n: Mat)
    requires Reduced(m) && Hermite(n) && ColumnsInSpan(m, n) && ColumnsInSpan(n, m)
    ensures m == n
  {
    ReducedStarts(m);
    FormUnique(m, n, 0);
  }

  // ----- scaling to a common denominator -----

  lemma ScaledBound(k: int, x: int, p: int)
    requires k > 0 && 0 <= x < p
    ensures 0 <= k * x < k * p
  {
    Grow(k, x + 1, p);
    Grow(k, 0, x);
  }

  lemma ScaledHermite(k: int, m: Mat)
    requires k > 0 && Hermite(m)
    ensures Hermite(ScaleMat(k, m))
  {
    ScaledPivot(k, m.r0.a, m.r0.b, m.r0.c, m.r0.d);
    ScaledPivot(k, m.r1.b, m.r1.c, m.r1.d, 0);
    ScaledPivot(k, m.r2.c, m.r2.d, 0, 0);
    ScaledPivot(k, m.r3.d, 0, 0, 0);
  }

  lemma ScaledPivot(k: int, p: int, x: int, y: int, z: int)
    requires k > 0 && p >= 0 && (p > 0 ==> 0 <= x < p && 0 <= y < p && 0 <= z < p)
    ensures k * p >= 0 && (k * p > 0 ==> 0 <= k * x < k * p && 0 <= k * y < k * p && 0 <= k * z < k * p)
  {
    if p > 0 {
      ScaledBound(k, x, p);
      ScaledBound(k, y, p);
      ScaledBound(k, z, p);
    }
  }

  lemma ScaledStarts(k: int, m: Mat, c: nat)
    requires k > 0 && StartsAt(m, c)
    ensures StartsAt(ScaleMat(k, m), c)
  {
    ScaledHermite(k, m);
    var n := ScaleMat(k, m);
    forall i: nat | i < 4 ensures Column(n, i) == Scale(k, Column(m, i)) && At(Row(n, i), i) == k * At(Row(m, i), i) {
      ColumnScale(k, m, i);
    }
    ScaleOfZero(k);
    forall i: nat | c <= i < 4 ensures At(Row(n, i), i) > 0 {
      ScaledBound(k, 0, At(Row(m, i), i));
    }
  }

  /** A basis vector of one lattice in the span of the other, over the common denominator. */
  lemma ScaledColumn(l1: Lattice, l2: Lattice, g: int, s: int, t: int, c: nat)
    requires c < 4 && g != 0 && l1.denom == g * t && l2.denom == g * s && l2.denom != 0 && SameLattice(l1, l2)
    ensures InColumnSpan(ScaleMat(s, l1.basis), Column(ScaleMat(t, l2.basis), c))
  {
    var e := Element(Column(l2.basis, c), l2.denom);
    EvalUnit(l2.basis, c);
    assert Coordinates(l2, e, Unit(c));
    var u :| Coordinates(l1, e, u);
    EvalScaleMat(s, l1.basis, u);
    DropFactor(g, t, s, Column(l2.basis, c), Eval(l1.basis, u));
    ColumnScale(t, l2.basis, c);
    assert Eval(ScaleMat(s, l1.basis), u) == Column(ScaleMat(t, l2.basis), c);
  }

  lemma DropFactor(g: int, t: int, s: int, x: Vec, y: Vec)
    requires g != 0 && Scale(g * t, x) == Scale(g * s, y)
    ensures Scale(t, x) == Scale(s, y)
  {
    ScaleTwice(g, t, x);
    ScaleTwice(g, s, y);
    ScaleCancels(g, Scale(t, x), Scale(s, y));
  }

  lemma ColumnScale(k: int, m: Mat, c: nat)
    requires c < 4
    ensures Column(ScaleMat(k, m), c) == Scale(k, Column(m, c))
  {
  }

  // ----- equal lattices over denominators of one sign have equal entries -----

  predicate SameSign(x: int, y: int) {
    (x > 0 && y > 0) || (x < 0 && y < 0)
  }

  /** When its span has one Hermite form, a basis compares equal to every basis of the lattice over a denominator of
      the same sign. */
  lemma SameIsEqual(l1: Lattice, l2: Lattice)
    requires PivotsLast(l1.basis) && Hermite(l2.basis) && SameSign(l1.denom, l2.denom) && SameLattice(l1, l2)
    ensures SameEntries(l1, l2)
  {
    var k: nat :| StartsAt(l1.basis, k);
    CommonGcd(l1.denom, l2.denom);
    var g: int := Gcd(Abs(l1.denom), Abs(l2.denom));
    var t, s := l1.denom / g, l2.denom / g;
    QuotientSign(g, t, l1.denom);
    QuotientSign(g, s, l2.denom);
    SameQuotients(l1, l2, k, g, s, t);
    if l1.denom == l2.denom {
      SameScale(s, l1.basis, l2.basis);
    }
  }

  lemma SameQuotients(l1: Lattice, l2: Lattice, k: nat, g: int, s: int, t: int)
    requires StartsAt(l1.basis, k) && Hermite(l2.basis) && SameLattice(l1, l2)
    requires g != 0 && SameSign(t, s) && l1.denom == g * t && l2.denom == g * s && l1.denom != 0 && l2.denom != 0
    ensures ScaleMat(s, l1.basis) == ScaleMat(t, l2.basis)
  {
    if t > 0 {
      SameScaled(l1, l2, k, g, s, t);
    } else {
      assert g * t == -g * -t && g * s == -g * -s;
      SameScaled(l1, l2, k, -g, -s, -t);
      NegatedScale(-s, l1.basis);
      NegatedScale(-t, l2.basis);
    }
  }

  /** Over the common denominator the two bases are one. */
  lemma SameScaled(l1: Lattice, l2: Lattice, k: nat, g: int, s: int, t: int)
    requires StartsAt(l1.basis, k) && Hermite(l2.basis) && SameLattice(l1, l2)
    requires g != 0 && s > 0 && t > 0 && l1.denom == g * t && l2.denom == g * s && l1.denom != 0 && l2.denom != 0
    ensures ScaleMat(s, l1.basis) == ScaleMat(t, l2.basis)
  {
    ScaledStarts(s, l1.basis, k);
    ScaledHermite(t, l2.basis);
    AllScaledColumns(l1, l2, g, s, t);
    SameLatticeSym(l1, l2);
    AllScaledColumns(l2, l1, g, t, s);
    FormUnique(ScaleMat(s, l1.basis), ScaleMat(t, l2.basis), k);
  }

  lemma NegatedScale(k: int, m: Mat)
    ensures ScaleMat(-k, m) == ScaleMat(-1, ScaleMat(k, m))
  {
    ScaleTwice(-1, k, m.r0);
    ScaleTwice(-1, k, m.r1);
    ScaleTwice(-1, k, m.r2);
    ScaleTwice(-1, k, m.r3);
    assert -1 * k == -k;
  }

  lemma QuotientSign(g: int, q: int, x: int)
    requires g > 0 && x != 0 && x == g * q
    ensures q != 0 && (q > 0 <==> x > 0)
  {
    if q <= 0 { Grow(g, q, 0); } else { Grow(g, 0, q); }
  }

  lemma AllScaledColumns(l1: Lattice, l2: Lattice, g: int, s: int, t: int)
    requires g != 0 && l1.denom == g * t && l2.denom == g * s && l2.denom != 0 && SameLattice(l1, l2)
    ensures ColumnsInSpan(ScaleMat(s, l1.basis), ScaleMat(t, l2.basis))
  {
    ScaledColumn(l1, l2, g, s, t, 0);
    ScaledColumn(l1, l2, g, s, t, 1);
    ScaledColumn(l1, l2, g, s, t, 2);
    ScaledColumn(l1, l2, g, s, t, 3);
  }

  lemma SameLatticeSym(l1: Lattice, l2: Lattice)
    requires SameLattice(l1, l2)
    ensures SameLattice(l2, l1)
  {
  }

  lemma SameScale(k: int, m: Mat, n: Mat)
    requires k != 0 && ScaleMat(k, m) == ScaleMat(k, n)
    ensures m == n
  {
    ScaleCancels(k, m.r0, n.r0);
    ScaleCancels(k, m.r1, n.r1);
    ScaleCancels(k, m.r2, n.r2);
    ScaleCancels(k, m.r3, n.r3);
  }

  // ----- denominators of opposite signs -----

  const NULL := Mat(ZERO, ZERO, ZERO, ZERO)

  /** The last non-zero row of a Hermite form that is not zero shows its sign in some entry. */
  lemma OppositeSignsDiffer(l1: Lattice, l2: Lattice)
    requires Hermite(l1.basis) && Hermite(l2.basis) && l1.denom != 0 && l2.denom != 0
    requires StartsAt(l1.basis, 3) || l1.basis.r3.d > 0
    requires SameEntries(l1, l2)
    ensures SameSign(l1.denom, l2.denom)
  {
    if l1.denom != l2.denom {
      CommonGcd(l1.denom, l2.denom);
      var g := Gcd(Abs(l1.denom), Abs(l2.denom));
      var t, s := l1.denom / g, l2.denom / g;
      QuotientSign(g, t, l1.denom);
      QuotientSign(g, s, l2.denom);
      assert l1.basis.r3.d > 0 by { if StartsAt(l1.basis, 3) { assert At(Row(l1.basis, 3), 3) > 0; } }
      PivotSigns(s, l1.basis.r3.d, t, l2.basis.r3.d);
    }
  }

  lemma PivotSigns(s: int, p: int, t: int, q: int)
    requires p > 0 && q >= 0 && s != 0 && t != 0 && s * p == t * q
    ensures SameSign(s, t)
  {
  }

  /** The comparison of two Hermite forms, the first one determined by its span: equal lattices over denominators of one
      sign. The zero lattice compares equal over any two. */
  lemma EqualityExact(l1: Lattice, l2: Lattice)
    requires PivotsLast(l1.basis) && Hermite(l2.basis) && l1.denom != 0 && l2.denom != 0
    ensures SameEntries(l1, l2) <==> SameLattice(l1, l2) && (SameSign(l1.denom, l2.denom) || l1.basis == NULL)
  {
    var k: nat :| StartsAt(l1.basis, k);
    if k < 4 {
      assert At(Row(l1.basis, 3), 3) > 0;
      assert l1.basis != NULL;
      if SameEntries(l1, l2) {
        EqualIsSame(l1, l2);
        OppositeSignsDiffer(l1, l2);
      }
      if SameLattice(l1, l2) && SameSign(l1.denom, l2.denom) {
        SameIsEqual(l1, l2);
      }
    } else {
      AllColumnsZero(l1.basis);
      if SameEntries(l1, l2) {
        EqualIsSame(l1, l2);
      }
      if SameLattice(l1, l2) {
        ZeroLattice(l1, l2, k);
      }
    }
  }

  lemma AllColumnsZero(m: Mat)
    requires forall c: nat | c < 4 :: Column(m, c) == ZERO
    ensures m == NULL
  {
    assert Column(m, 0) == ZERO && Column(m, 1) == ZERO && Column(m, 2) == ZERO && Column(m, 3) == ZERO;
    TransposeTwice(m);
  }

  lemma ZeroLattice(l1: Lattice, l2: Lattice, k: nat)
    requires l1.basis == NULL && StartsAt(l1.basis, k) && Hermite(l2.basis) && l1.denom != 0 && l2.denom != 0 && SameLattice(l1, l2)
    ensures SameEntries(l1, l2)
  {
    SameLatticeSym(l1, l2);
    assert l1.denom == 1 * l1.denom && l2.denom == 1 * l2.denom;
    AllScaledColumns(l1, l2, 1, l2.denom, l1.denom);
    ScaledNull(l2.denom);
    NullSpan(ScaleMat(l1.denom, l2.basis));
    ScaledNull(l1.denom);
    SameScale(l1.denom, l2.basis, NULL);
    CommonGcd(l1.denom, l2.denom);
    var g := Gcd(Abs(l1.denom), Abs(l2.denom));
    ScaledNull(l1.denom / g);
    ScaledNull(l2.denom / g);
  }

  lemma ScaledNull(k: int)
    ensures ScaleMat(k, NULL) == NULL
  {
    ScaleOfZero(k);
  }

  lemma NullSpan(n: Mat)
    requires ColumnsInSpan(NULL, n)
    ensures n == NULL
  {
    forall u: Vec ensures Eval(NULL, u) == ZERO {
    }
    forall c: nat | c < 4 ensures Column(n, c) == ZERO {
    }
    AllColumnsZero(n);
  }

  /** A lattice written over the negated denominator. */
  lemma NegatedDenominator(l: Lattice)
    requires l.denom != 0
    ensures SameLattice(l, Lattice(l.basis, -l.denom))
  {
    var l2 := Lattice(l.basis, -l.denom);
    forall e: Element | e.denom != 0 ensures Member(l, e) <==> Member(l2, e) {
      if c: Vec :| Coordinates(l, e, c) {
        NegatedCoordinates(l, e, c);
      }
      if c: Vec :| Coordinates(l2, e, c) {
        NegatedCoordinates(l2, e, c);
      }
    }
  }

  lemma NegatedCoordinates(l: Lattice, e: Element, c: Vec)
    requires Coordinates(l, e, c)
    ensures Coordinates(Lattice(l.basis, -l.denom), e, Scale(-1, c))
  {
    EvalLinear(l.basis, c, c, -1);
    ScaleTwice(e.denom, -1, Eval(l.basis, c));
    ScaleTwice(-1, e.denom, Eval(l.basis, c));
    ScaleTwice(-1, l.denom, e.coords);
    assert e.denom * -1 == -1 * e.denom && -1 * l.denom == -l.denom;
  }

  const IDENTITY := Mat(Vec(1, 0, 0, 0), Vec(0, 1, 0, 0), Vec(0, 0, 1, 0), Vec(0, 0, 0, 1))

  /** The integer lattice over one and over minus one: the same lattice, both reduced, and the comparison tells them apart. */
  lemma SignComparesWrongly()
    ensures Reduced(IDENTITY) && SameLattice(Lattice(IDENTITY, 1), Lattice(IDENTITY, -1))
    ensures !SameEntries(Lattice(IDENTITY, 1), Lattice(IDENTITY, -1))
  {
    NegatedDenominator(Lattice(IDENTITY, 1));
    ReducedStarts(IDENTITY);
    EqualityExact(Lattice(IDENTITY, 1), Lattice(IDENTITY, -1));
  }

  // ----- other Hermite forms of the same span -----

  function SetColumn(m: Mat, p: nat, v: Vec): (n: Mat)
    requires p < 4
    ensures Columns(n) == Columns(m)[p := v]
  {
    FromColumns(Columns(m)[p := v])
  }

  function With(u: Vec, j: nat, x: int): (v: Vec)
    requires j < 4
    ensures forall i: nat | i < 4 :: At(v, i) == if i == j then x else At(u, i)
  {
    if j == 0 then u.(a := x) else if j == 1 then u.(b := x) else if j == 2 then u.(c := x) else u.(d := x)
  }

  lemma EvalSetColumn(m: Mat, p: nat, v: Vec, d: Vec)
    requires p < 4
    ensures Eval(SetColumn(m, p, v), d) == Add(Eval(m, With(d, p, 0)), Scale(At(d, p), v))
  {
    var n, z := SetColumn(m, p, v), With(d, p, 0);
    ColumnCombination(n, d);
    ColumnCombination(m, z);
    assert forall c: nat | c < 4 :: Column(n, c) == Columns(n)[c] && Column(m, c) == Columns(m)[c];
    ZeroScale(Columns(m)[p]);
    RotateTerms(Scale(d.a, Column(n, 0)), Scale(d.b, Column(n, 1)), Scale(d.c, Column(n, 2)), Scale(d.d, Column(n, 3)));
  }

  lemma ZeroScale(v: Vec)
    ensures Scale(0, v) == ZERO
  {
  }

  lemma RotateTerms(p: Vec, q: Vec, r: Vec, s: Vec)
    ensures Add(Add(p, q), Add(r, s)) == Add(Add(Add(ZERO, q), Add(r, s)), p)
    ensures Add(Add(p, q), Add(r, s)) == Add(Add(Add(p, ZERO), Add(r, s)), q)
    ensures Add(Add(p, q), Add(r, s)) == Add(Add(Add(p, q), Add(ZERO, s)), r)
    ensures Add(Add(p, q), Add(r, s)) == Add(Add(Add(p, q), Add(r, ZERO)), s)
  {
  }

  ghost predicate SameColumns(m: Mat, n: Mat) {
    forall v: Vec :: InColumnSpan(m, v) <==> InColumnSpan(n, v)
  }

  /** Column p replaced by a combination that uses it with coefficient minus one. */
  lemma FlipSpan(h: Mat, p: nat, x: Vec)
    requires p < 4 && At(x, p) == -1
    ensures SameColumns(h, SetColumn(h, p, Eval(h, x)))
  {
    var m := SetColumn(h, p, Eval(h, x));
    forall v: Vec ensures InColumnSpan(h, v) <==> InColumnSpan(m, v) {
      if d: Vec :| v == Eval(m, d) {
        FlipEval(h, p, x, d);
        assert v == Eval(h, Add(With(d, p, 0), Scale(At(d, p), x)));
      }
      if c: Vec :| v == Eval(h, c) {
        var d := With(Add(c, Scale(At(c, p), x)), p, -At(c, p));
        FlipEval(h, p, x, d);
        FlipBack(c, x, p);
        assert v == Eval(m, d);
      }
    }
  }

  lemma FlipEval(h: Mat, p: nat, x: Vec, d: Vec)
    requires p < 4
    ensures Eval(SetColumn(h, p, Eval(h, x)), d) == Eval(h, Add(With(d, p, 0), Scale(At(d, p), x)))
  {
    EvalSetColumn(h, p, Eval(h, x), d);
    EvalLinear(h, With(d, p, 0), Scale(At(d, p), x), 0);
    EvalLinear(h, x, x, At(d, p));
  }

  lemma Cancelling(k: int, x: int)
    ensures -k * x == -(k * x) && (x == -1 ==> k * x == -k)
  {
  }

  lemma FlipBack(c: Vec, x: Vec, p: nat)
    requires p < 4 && At(x, p) == -1
    ensures var d := With(Add(c, Scale(At(c, p), x)), p, -At(c, p)); Add(With(d, p, 0), Scale(At(d, p), x)) == c
  {
    var k := At(c, p);
    var d := With(Add(c, Scale(k, x)), p, -k);
    forall i: nat | i < 4 ensures At(Add(With(d, p, 0), Scale(-k, x)), i) == At(c, i) {
      AtShift(c, k, x, i);
      AtShift(With(d, p, 0), -k, x, i);
      Cancelling(k, At(x, i));
    }
    Extensional(Add(With(d, p, 0), Scale(-k, x)), c);
  }

  /** Column q multiplied by k and t times it added to column p. */
  function Stretched(h: Mat, p: nat, q: nat, k: int, t: int): Mat
    requires p < 4 && q < 4
  {
    SetColumn(SetColumn(h, q, Scale(k, Column(h, q))), p, Add(Column(h, p), Scale(t, Column(h, q))))
  }

  lemma StretchEval(h: Mat, p: nat, q: nat, k: int, t: int, d: Vec)
    requires p < 4 && q < 4 && p != q
    ensures Eval(Stretched(h, p, q, k, t), d) == Eval(h, With(d, q, k * At(d, q) + t * At(d, p)))
  {
    var v, w, z := Column(h, q), Column(h, p), With(With(d, p, 0), q, 0);
    var x, y := At(d, p), At(d, q);
    EvalSetColumn(SetColumn(h, q, Scale(k, v)), p, Add(w, Scale(t, v)), d);
    EvalSetColumn(h, q, Scale(k, v), With(d, p, 0));
    TwoUnits(h, z, p, q, x, k * y + t * x);
    TwoColumns(d, z, p, q, x, k * y + t * x);
    RegroupColumns(Eval(h, z), v, w, x, y, k, t);
  }

  lemma TwoUnits(h: Mat, z: Vec, p: nat, q: nat, x: int, y: int)
    requires p < 4 && q < 4
    ensures Eval(h, Add(Add(z, Scale(x, Unit(p))), Scale(y, Unit(q)))) == Add(Add(Eval(h, z), Scale(x, Column(h, p))), Scale(y, Column(h, q)))
  {
    EvalLinear(h, Add(z, Scale(x, Unit(p))), Scale(y, Unit(q)), 0);
    EvalLinear(h, z, Scale(x, Unit(p)), 0);
    EvalLinear(h, Unit(p), Unit(p), x);
    EvalLinear(h, Unit(q), Unit(q), y);
    EvalUnit(h, p);
    EvalUnit(h, q);
  }

  lemma TwoColumns(d: Vec, z: Vec, p: nat, q: nat, x: int, y: int)
    requires p < 4 && q < 4 && p != q && z == With(With(d, p, 0), q, 0) && x == At(d, p)
    ensures With(d, q, y) == Add(Add(z, Scale(x, Unit(p))), Scale(y, Unit(q)))
  {
    var u := Add(Add(z, Scale(x, Unit(p))), Scale(y, Unit(q)));
    forall i: nat | i < 4 ensures At(u, i) == At(With(d, q, y), i) {
      UnitTimes(x, p, i);
      UnitTimes(y, q, i);
    }
    Extensional(u, With(d, q, y));
  }

  lemma UnitTimes(x: int, p: nat, i: nat)
    requires p < 4 && i < 4
    ensures At(Scale(x, Unit(p)), i) == if i == p then x else 0
  {
  }

  lemma RegroupColumns(z: Vec, v: Vec, w: Vec, x: int, y: int, k: int, t: int)
    ensures Add(Add(z, Scale(y, Scale(k, v))), Scale(x, Add(w, Scale(t, v)))) == Add(Add(z, Scale(x, w)), Scale(k * y + t * x, v))
  {
    RegroupEntry(z.a, v.a, w.a, x, y, k, t);
    RegroupEntry(z.b, v.b, w.b, x, y, k, t);
    RegroupEntry(z.c, v.c, w.c, x, y, k, t);
    RegroupEntry(z.d, v.d, w.d, x, y, k, t);
  }

  lemma RegroupEntry(z: int, v: int, w: int, x: int, y: int, k: int, t: int)
    ensures z + y * (k * v) + x * (w + t * v) == z + x * w + (k * y + t * x) * v
  {
    assert (k * y + t * x) * v == y * (k * v) + x * (t * v);
  }

  /** The factors that keep the span when n times column p is a combination of the other columns, column q with
      coefficient c. */
  function StretchBy(c: int, n: int): (t: int)
    requires n >= 1
    ensures 0 <= t <= n
  {
    (c - 1) % (n + 1)
  }

  lemma StretchUnit(c: int, n: int) returns (s: int)
    requires n >= 1
    ensures c + n * StretchBy(c, n) == 1 + s * (n + 1)
  {
    var k, t := n + 1, StretchBy(c, n);
    DivisionLaw(c - 1, k);
    s := (c - 1) / k + t;
    assert n * t == k * t - t;
    assert s * k == k * ((c - 1) / k) + k * t;
  }

  lemma StretchSpan(h: Mat, p: nat, q: nat, c: Vec, n: int)
    requires p < 4 && q < 4 && p != q && Eval(h, c) == ZERO && At(c, p) == -n && n >= 1
    ensures SameColumns(h, Stretched(h, p, q, n + 1, StretchBy(At(c, q), n)))
  {
    var k, t := n + 1, StretchBy(At(c, q), n);
    var m := Stretched(h, p, q, k, t);
    var s := StretchUnit(At(c, q), n);
    forall v: Vec ensures InColumnSpan(h, v) <==> InColumnSpan(m, v) {
      if d: Vec :| v == Eval(m, d) {
        StretchEval(h, p, q, k, t, d);
      }
      if b: Vec :| v == Eval(h, b) {
        var d := StretchBack(h, p, q, c, n, k, t, s, b);
        StretchEval(h, p, q, k, t, d);
      }
    }
  }

  /** Coordinates over the stretched columns, with a multiple of the relation c added. */
  lemma StretchBack(h: Mat, p: nat, q: nat, c: Vec, n: int, k: int, t: int, s: int, b: Vec) returns (d: Vec)
    requires p < 4 && q < 4 && p != q && Eval(h, c) == ZERO && At(c, p) == -n && At(c, q) + n * t == 1 + s * k
    ensures Eval(h, With(d, q, k * At(d, q) + t * At(d, p))) == Eval(h, b)
  {
    var x := At(b, q) - t * At(b, p);
    d := With(Add(b, Scale(-x, c)), q, -x * s);
    StretchCoordinates(p, q, c, n, k, t, s, b, x, d);
    RelationIrrelevant(h, b, -x, c);
  }

  lemma StretchCoordinates(p: nat, q: nat, c: Vec, n: int, k: int, t: int, s: int, b: Vec, x: int, d: Vec)
    requires p < 4 && q < 4 && p != q && At(c, p) == -n && At(c, q) + n * t == 1 + s * k
    requires x == At(b, q) - t * At(b, p) && d == With(Add(b, Scale(-x, c)), q, -x * s)
    ensures With(d, q, k * At(d, q) + t * At(d, p)) == Add(b, Scale(-x, c))
  {
    var e := Add(b, Scale(-x, c));
    AtShift(b, -x, c, p);
    AtShift(b, -x, c, q);
    StretchCoordinate(At(b, q), At(b, p), At(c, q), n, k, t, s, x);
    Extensional(With(d, q, At(e, q)), e);
  }

  lemma AtShift(b: Vec, x: int, c: Vec, i: nat)
    requires i < 4
    ensures At(Add(b, Scale(x, c)), i) == At(b, i) + x * At(c, i)
  {
  }

  lemma RelationIrrelevant(h: Mat, b: Vec, x: int, c: Vec)
    requires Eval(h, c) == ZERO
    ensures Eval(h, Add(b, Scale(x, c))) == Eval(h, b)
  {
    EvalLinear(h, b, Scale(x, c), 0);
    EvalLinear(h, c, c, x);
    ScaleOfZero(x);
    SumWithZero(Eval(h, b));
  }

  lemma SumWithZero(v: Vec)
    ensures Add(v, ZERO) == v
  {
  }

  lemma StretchCoordinate(bq: int, bp: int, cq: int, n: int, k: int, t: int, s: int, x: int)
    requires x == bq - t * bp && cq + n * t == 1 + s * k
    ensures k * (-x * s) + t * (bp + -x * -n) == bq + -x * cq
  {
    assert x * (cq + n * t) == x + x * (s * k);
    assert x * (cq + n * t) == x * cq + x * (n * t);
    assert k * (-x * s) == -(x * (s * k));
    assert t * (bp + -x * -n) == t * bp + x * (n * t);
  }

  /** x is k times v, and y is w plus t times v, entry by entry. */
  predicate StretchedEntries(v: Vec, w: Vec, x: Vec, y: Vec, k: int, t: int) {
    forall r: nat | r < 4 :: At(x, r) == k * At(v, r) && At(y, r) == At(w, r) + t * At(v, r)
  }

  lemma StretchFinished(vs: seq<Vec>, p: nat, q: nat, k: int, t: int, x: Vec, y: Vec)
    requires |vs| == 4 && Finished(vs, 0) && q < p < 4 && At(vs[p], p) == 0 && At(vs[q], q) > 0 && 0 <= t < k
    requires (forall c: nat | c < q :: vs[c] == ZERO) && StretchedEntries(vs[q], vs[p], x, y, k, t)
    ensures Finished(vs[q := x][p := y], 0)
  {
    var ws := vs[q := x][p := y];
    forall r: nat | r < 4 ensures ClearRow(ws, r) && ReducedRow(ws, r) {
      assert ClearRow(vs, r) && ReducedRow(vs, r);
      assert At(x, r) == k * At(vs[q], r) && At(y, r) == At(vs[p], r) + t * At(vs[q], r);
      if r > q {
        assert At(vs[q], r) == 0;
        assert At(x, r) == 0 && At(y, r) == At(vs[p], r);
      } else if r == q {
        ResidueShift(At(vs[q], r), At(vs[p], r), k, t);
        Grow(At(vs[q], r), 1, k);
      } else {
        assert vs[r] == ZERO;
      }
    }
  }

  lemma ResidueShift(p: int, x: int, k: int, t: int)
    requires 0 <= x < p && 0 <= t < k
    ensures 0 <= x + t * p < k * p && k * p > 0
  {
    Grow(p, t + 1, k);
    Grow(p, 0, t);
    assert p * (t + 1) == t * p + p && p * k == k * p;
  }

  /** Replacing a column over a zero pivot by one that is reduced against the pivots above. */
  lemma FlipFinished(vs: seq<Vec>, p: nat, w: Vec)
    requires |vs| == 4 && Finished(vs, 0) && p < 4 && At(vs[p], p) == 0
    requires forall r: nat | p <= r < 4 :: At(w, r) == 0
    requires forall r: nat | r < p :: At(vs[r], r) > 0 ==> 0 <= At(w, r) < At(vs[r], r)
    ensures Finished(vs[p := w], 0)
  {
    var ws := vs[p := w];
    forall r: nat | r < 4 ensures ClearRow(ws, r) && ReducedRow(ws, r) {
      assert ClearRow(vs, r) && ReducedRow(vs, r);
    }
  }

  predicate Residue(x: int, p: int) {
    p > 0 ==> 0 <= x < p
  }

  predicate ClearColumn(v: Vec, c: nat) {
    forall r: nat | c < r < 4 :: At(v, r) == 0
  }

  /** The entries of w in rows n to p are reduced against the pivots of those rows. */
  predicate RowsReduced(vs: seq<Vec>, w: Vec, n: nat, p: nat)
    requires p < 4 == |vs|
  {
    forall r: nat | n <= r < p :: Residue(At(w, r), At(vs[r], r))
  }

  /** x is minus one at p and zero outside n to p. */
  predicate Between(x: Vec, n: nat, p: nat)
    requires p < 4
  {
    At(x, p) == -1 && forall r: nat | r < 4 && (p < r || r < n) :: At(x, r) == 0
  }

  lemma {:induction false} ReduceFlipped(h: Mat, p: nat, n: nat) returns (x: Vec)
    requires (forall c: nat | c < 4 :: ClearColumn(Columns(h)[c], c)) && n <= p < 4
    ensures Between(x, n, p) && RowsReduced(Columns(h), Eval(h, x), n, p)
    decreases p - n
  {
    if n == p {
      x := Scale(-1, Unit(p));
      forall i: nat | i < 4 ensures At(x, i) == if i == p then -1 else 0 {
        UnitTimes(-1, p, i);
      }
    } else {
      var y := ReduceFlipped(h, p, n + 1);
      var vs := Columns(h);
      ColumnsByIndex(h);
      var k := StepRows(vs, Eval(h, y), n, p);
      ShiftCoordinate(h, y, n, -k);
      x := With(y, n, -k);
    }
  }

  /** Taking a multiple of column n off leaves a residue in row n and the rows after it alone. */
  lemma StepRows(vs: seq<Vec>, v: Vec, n: nat, p: nat) returns (k: int)
    requires n < p < 4 == |vs| && RowsReduced(vs, v, n + 1, p) && ClearColumn(vs[n], n)
    ensures RowsReduced(vs, Add(v, Scale(-k, vs[n])), n, p)
  {
    var pivot := At(vs[n], n);
    k := if pivot > 0 then At(v, n) / pivot else 0;
    var w := Add(v, Scale(-k, vs[n]));
    AtReduced(v, vs[n], k);
    if pivot > 0 { DivisionLaw(At(v, n), pivot); }
    RowsAfter(vs, v, w, n, p, k);
  }

  lemma RowsAfter(vs: seq<Vec>, v: Vec, w: Vec, n: nat, p: nat, k: int)
    requires n < p < 4 == |vs| && RowsReduced(vs, v, n + 1, p) && ClearColumn(vs[n], n)
    requires forall r: nat | r < 4 :: At(w, r) == At(v, r) - At(vs[n], r) * k
    requires Residue(At(v, n) - At(vs[n], n) * k, At(vs[n], n))
    ensures RowsReduced(vs, w, n, p)
  {
    forall r: nat | n <= r < p ensures Residue(At(w, r), At(vs[r], r)) {
      assert At(w, r) == At(v, r) - At(vs[n], r) * k;
      if r > n {
        assert At(vs[n], r) == 0;
        assert Residue(At(v, r), At(vs[r], r));
      }
    }
  }

  lemma ShiftCoordinate(h: Mat, y: Vec, n: nat, k: int)
    requires n < 4 && At(y, n) == 0
    ensures Eval(h, With(y, n, k)) == Add(Eval(h, y), Scale(k, Column(h, n)))
  {
    WithUnit(y, n, k);
    EvalLinear(h, y, Scale(k, Unit(n)), 0);
    EvalLinear(h, Unit(n), Unit(n), k);
    EvalUnit(h, n);
  }

  lemma WithUnit(y: Vec, n: nat, k: int)
    requires n < 4 && At(y, n) == 0
    ensures With(y, n, k) == Add(y, Scale(k, Unit(n)))
  {
    var e := Add(y, Scale(k, Unit(n)));
    forall i: nat | i < 4 ensures At(e, i) == At(With(y, n, k), i) {
      AtShift(y, k, Unit(n), i);
      UnitTimes(k, n, i);
    }
    Extensional(e, With(y, n, k));
  }

  // ----- the exact condition -----

  /** Column p has a zero pivot, the columns before q are zero, and column q is not. */
  predicate Stray(vs: seq<Vec>, p: nat, q: nat) {
    && |vs| == 4 && Finished(vs, 0) && q <= p < 4 && At(vs[p], p) == 0 && vs[q] != ZERO
    && forall c: nat | c < q :: vs[c] == ZERO
  }

  /** The last zero pivot, and the first non-zero column, which lies at or before it. */
  lemma StrayColumn(h: Mat) returns (p: nat, q: nat)
    requires Hermite(h) && !PivotsLast(h)
    ensures Stray(Columns(h), p, q)
  {
    p := 4;
    while p > 0 && At(Row(h, p - 1), p - 1) > 0
      invariant p <= 4 && forall r: nat | p <= r < 4 :: At(Row(h, r), r) > 0
    {
      p := p - 1;
    }
    q := 0;
    while q < p && Column(h, q) == ZERO
      invariant q <= p && forall c: nat | c < q :: Column(h, c) == ZERO
    {
      q := q + 1;
    }
    if q == p {
      assert StartsAt(h, p);
      assert false;
    }
    p := p - 1;
    HermiteEntries(h);
    ColumnTail(h, p);
    ColumnsByIndex(h);
  }

  lemma ColumnsByIndex(h: Mat)
    ensures forall c: nat | c < 4 :: Columns(h)[c] == Column(h, c)
  {
  }

  /** An integer relation between the columns that uses column p. */
  ghost predicate Dependence(h: Mat, p: nat, c: Vec) {
    p < 4 && Eval(h, c) == ZERO && At(c, p) != 0
  }

  /** m is another form with the span of h. */
  ghost predicate Another(h: Mat, m: Mat) {
    Finished(Columns(m), 0) && m != h && SameColumns(h, m)
  }

  /** A span whose Hermite form has a zero pivot at or after a non-zero column has another Hermite form. */
  lemma AnotherForm(h: Mat) returns (m: Mat)
    requires Hermite(h) && !PivotsLast(h)
    ensures Hermite(m) && m != h && SameColumns(h, m)
  {
    var p, q := StrayColumn(h);
    m := AnotherAt(h, p, q);
    HermiteEntries(m);
  }

  lemma AnotherAt(h: Mat, p: nat, q: nat) returns (m: Mat)
    requires Stray(Columns(h), p, q)
    ensures Another(h, m)
  {
    if At(Columns(h)[q], q) == 0 {
      m := NegatedColumn(h, q);
    } else if c: Vec :| Dependence(h, p, c) {
      m := StretchedForm(h, p, q, c);
    } else {
      m := FlippedForm(h, p);
    }
  }

  lemma NegatedColumn(h: Mat, q: nat) returns (m: Mat)
    requires Stray(Columns(h), q, q)
    ensures Another(h, m)
  {
    var x, w := Scale(-1, Unit(q)), Scale(-1, Columns(h)[q]);
    NegatedFinished(Columns(h), q);
    m := SetColumn(h, q, w);
    NegatedEval(h, q);
    FlipSpan(h, q, x);
  }

  lemma NegatedEval(h: Mat, q: nat)
    requires q < 4
    ensures At(Scale(-1, Unit(q)), q) == -1 && Eval(h, Scale(-1, Unit(q))) == Scale(-1, Columns(h)[q])
  {
    ColumnsByIndex(h);
    UnitTimes(-1, q, q);
    EvalLinear(h, Unit(q), Unit(q), -1);
    EvalUnit(h, q);
  }

  lemma NegatedFinished(vs: seq<Vec>, q: nat)
    requires Stray(vs, q, q)
    ensures Finished(vs[q := Scale(-1, vs[q])], 0) && Scale(-1, vs[q]) != vs[q]
  {
    var w := Scale(-1, vs[q]);
    forall r: nat | r < 4 ensures At(w, r) == -At(vs[q], r) && (r > q ==> At(vs[q], r) == 0) {
      NegatedEntry(vs[q], r);
      assert ClearRow(vs, r);
    }
    forall r: nat | r < q ensures At(vs[r], r) == 0 {
      assert vs[r] == ZERO;
    }
    FlipFinished(vs, q, w);
    NotOwnNegative(vs[q]);
  }

  lemma NegatedEntry(v: Vec, r: nat)
    requires r < 4
    ensures At(Scale(-1, v), r) == -At(v, r)
  {
  }

  lemma NotOwnNegative(v: Vec)
    requires v != ZERO
    ensures Scale(-1, v) != v
  {
  }

  lemma StretchedForm(h: Mat, p: nat, q: nat, c: Vec) returns (m: Mat)
    requires Stray(Columns(h), p, q) && At(Columns(h)[q], q) != 0 && Dependence(h, p, c)
    ensures Another(h, m)
  {
    var vs := Columns(h);
    var b := SignedRelation(h, p, c);
    ColumnsByIndex(h);
    assert ReducedRow(vs, q);
    var n := -At(b, p);
    var k, t := n + 1, StretchBy(At(b, q), n);
    StretchSpan(h, p, q, b, n);
    m := Stretched(h, p, q, k, t);
    var x, y := Scale(k, vs[q]), Add(vs[p], Scale(t, vs[q]));
    StretchEntries(vs[q], vs[p], k, t);
    StretchFinished(vs, p, q, k, t, x, y);
    assert Columns(m) == vs[q := x][p := y];
    ProperMultiple(vs[q], k, q);
  }

  lemma SignedRelation(h: Mat, p: nat, c: Vec) returns (b: Vec)
    requires Dependence(h, p, c)
    ensures Eval(h, b) == ZERO && At(b, p) < 0
  {
    if At(c, p) < 0 {
      b := c;
    } else {
      b := Scale(-1, c);
      NegatedSolution(h, c);
      NegatedEntry(c, p);
    }
  }

  lemma NegatedSolution(h: Mat, c: Vec)
    requires Eval(h, c) == ZERO
    ensures Eval(h, Scale(-1, c)) == ZERO
  {
    EvalLinear(h, c, c, -1);
    ScaleOfZero(-1);
  }

  lemma StretchEntries(v: Vec, w: Vec, k: int, t: int)
    ensures StretchedEntries(v, w, Scale(k, v), Add(w, Scale(t, v)), k, t)
  {
    forall r: nat | r < 4 ensures At(Scale(k, v), r) == k * At(v, r) && At(Add(w, Scale(t, v)), r) == At(w, r) + t * At(v, r) {
      AtShift(w, t, v, r);
    }
  }

  lemma ProperMultiple(v: Vec, k: int, i: nat)
    requires i < 4 && At(v, i) > 0 && k >= 2
    ensures Scale(k, v) != v
  {
    assert At(Scale(k, v), i) == k * At(v, i);
    Grow(At(v, i), 2, k);
  }

  lemma FlippedForm(h: Mat, p: nat) returns (m: Mat)
    requires Finished(Columns(h), 0) && p < 4 && At(Columns(h)[p], p) == 0
    requires forall c: Vec :: !Dependence(h, p, c)
    ensures Another(h, m)
  {
    var vs := Columns(h);
    ColumnsByIndex(h);
    ClearColumns(vs);
    var x := ReduceFlipped(h, p, 0);
    var w := Eval(h, x);
    m := SetColumn(h, p, w);
    FlipSpan(h, p, x);
    LastRows(h, p, x);
    forall r: nat | r < p ensures At(vs[r], r) > 0 ==> 0 <= At(w, r) < At(vs[r], r) {
      assert Residue(At(w, r), At(vs[r], r));
    }
    FlipFinished(vs, p, w);
    NotFlipped(h, p, x);
  }

  lemma ClearColumns(vs: seq<Vec>)
    requires Finished(vs, 0) && |vs| == 4
    ensures forall c: nat | c < 4 :: ClearColumn(vs[c], c)
  {
    forall c: nat, r: nat | c < r < 4 ensures At(vs[c], r) == 0 {
      assert ClearRow(vs, r);
    }
  }

  lemma NotFlipped(h: Mat, p: nat, x: Vec)
    requires p < 4 && At(x, p) == -1 && forall c: Vec :: !Dependence(h, p, c)
    ensures Eval(h, x) != Column(h, p)
  {
    if Eval(h, x) == Column(h, p) {
      var _ := FlipDependence(h, p, x);
    }
  }

  lemma FlipDependence(h: Mat, p: nat, x: Vec) returns (c: Vec)
    requires p < 4 && At(x, p) == -1 && Eval(h, x) == Column(h, p)
    ensures Dependence(h, p, c)
  {
    c := Add(x, Scale(-1, Unit(p)));
    EvalLinear(h, x, Scale(-1, Unit(p)), 0);
    EvalLinear(h, Unit(p), Unit(p), -1);
    EvalUnit(h, p);
    AtShift(x, -1, Unit(p), p);
    UnitTimes(1, p, p);
  }

  lemma LastRows(h: Mat, p: nat, x: Vec)
    requires (forall c: nat | c < 4 :: ClearColumn(Columns(h)[c], c)) && p < 4 && At(Columns(h)[p], p) == 0
    requires forall r: nat | p < r < 4 :: At(x, r) == 0
    ensures forall r: nat | p <= r < 4 :: At(Eval(h, x), r) == 0
  {
    ColumnsByIndex(h);
    assert ClearColumn(Column(h, 0), 0) && ClearColumn(Column(h, 1), 1) && ClearColumn(Column(h, 2), 2);
    assert At(Column(h, 0), 1) == 0 && At(Column(h, 0), 2) == 0 && At(Column(h, 0), 3) == 0;
    assert At(Column(h, 1), 2) == 0 && At(Column(h, 1), 3) == 0 && At(Column(h, 2), 3) == 0;
    EvalTriangular(h, x);
    if p < 3 { assert At(x, 3) == 0; }
    if p < 2 { assert At(x, 2) == 0; }
    if p < 1 { assert At(x, 1) == 0; }
  }

  /** The comparison finds the equality of l with this lattice, if they are equal over denominators of one sign. */
  ghost predicate FindsEqual(l1: Lattice, l2: Lattice)
    requires l1.denom != 0
  {
    Hermite(l2.basis) && SameSign(l1.denom, l2.denom) && SameLattice(l1, l2) ==> SameEntries(l1, l2)
  }

  /** No equality over denominators of one sign is missed exactly when the zero pivots come first, over zero columns;
      full-rank lattices are the case without any. */
  lemma FindsAllIff(l: Lattice)
    requires Hermite(l.basis) && l.denom != 0
    ensures (forall l2: Lattice :: FindsEqual(l, l2)) <==> PivotsLast(l.basis)
  {
    if PivotsLast(l.basis) {
      forall l2: Lattice ensures FindsEqual(l, l2) {
        if Hermite(l2.basis) && SameSign(l.denom, l2.denom) && SameLattice(l, l2) {
          SameIsEqual(l, l2);
        }
      }
    } else {
      var m := AnotherForm(l.basis);
      var l2 := Lattice(m, l.denom);
      forall e: Element | e.denom != 0 ensures Member(l, e) <==> Member(l2, e) {
        SpanMember(l, l2, e);
      }
      assert !FindsEqual(l, l2);
    }
  }

  const ONE_GENERATOR := Mat(Vec(1, 0, 0, 0), ZERO, ZERO, ZERO)
  const TWO_GENERATORS := Mat(Vec(2, 1, 0, 0), ZERO, ZERO, ZERO)

  /** A lattice of rank one with two Hermite forms, which the comparison tells apart. */
  lemma DeficientComparesWrongly()
    ensures Hermite(ONE_GENERATOR) && Hermite(TWO_GENERATORS)
    ensures SameLattice(Lattice(ONE_GENERATOR, 1), Lattice(TWO_GENERATORS, 1))
    ensures !SameEntries(Lattice(ONE_GENERATOR, 1), Lattice(TWO_GENERATORS, 1))
  {
    forall e: Element | e.denom != 0 ensures Member(Lattice(ONE_GENERATOR, 1), e) <==> Member(Lattice(TWO_GENERATORS, 1), e) {
      if c: Vec :| Coordinates(Lattice(ONE_GENERATOR, 1), e, c) {
        assert Coordinates(Lattice(TWO_GENERATORS, 1), e, Vec(0, c.a, 0, 0));
      }
      if c: Vec :| Coordinates(Lattice(TWO_GENERATORS, 1), e, c) {
        assert Coordinates(Lattice(ONE_GENERATOR, 1), e, Vec(2 * c.a + c.b, 0, 0, 0));
      }
    }
  }

  /** Two lattices brought to Hermite form and compared. */
  method CompareAsHnf(l1: Lattice, l2: Lattice) returns (equal: bool)
    requires l1.denom != 0 && l2.denom != 0
    ensures equal ==> SameLattice(l1, l2)
    ensures Det(l1.basis) != 0 ==> (equal <==> SameLattice(l1, l2) && SameSign(l1.denom, l2.denom))
  {
    var h1 := ToHnf(l1);
    var h2 := ToHnf(l2);
    equal := Equals(h1, h2);
    if equal {
      EqualIsSame(h1, h2);
    }
    assert SameLattice(l1, l2) <==> SameLattice(h1, h2);
    if Det(l1.basis) != 0 {
      ReducedStarts(h1.basis);
      EqualityExact(h1, h2);
    }
  }
}
