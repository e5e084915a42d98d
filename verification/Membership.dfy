/** The two membership algorithms: back-substitution on a triangular basis and Cramer's rule, and what the first one decides
    when a pivot is zero. */
module Membership {
  import opened Arith
  import opened Options
  import opened Linear4
  import opened Lattices
  import opened HermiteForm

  /** t over the denominator of l is e. */
  predicate Target(l: Lattice, e: Element, t: Vec) {
    Scale(e.denom, t) == Scale(l.denom, e.coords)
  }

  /** The common first step: bring the element to the lattice's denominator, if the quotients are exact. */
  method ToLatticeDenominator(l: Lattice, e: Element) returns (rhs: Option<Vec>)
    requires e.denom != 0
    ensures forall t: Vec :: rhs == Some(t) <==> Target(l, e, t)
  {
    var target: seq<int> := [0, 0, 0, 0];
    var i := 0;
    while i < 4
      invariant 0 <= i <= 4 && |target| == 4
      invariant forall k | 0 <= k < i :: At(e.coords, k) * l.denom == e.denom * target[k]
    {
      var scaled := At(e.coords, i) * l.denom;
      var q, r := scaled / e.denom, scaled % e.denom;
      DivisionLaw(scaled, e.denom);
      if r != 0 {
        forall t: Vec ensures !Target(l, e, t) {
          if Target(l, e, t) { TargetDivides(l, e, t, i); }
        }
        return None;
      }
      target := target[i := q];
      i := i + 1;
    }
    var t := Vec(target[0], target[1], target[2], target[3]);
    rhs := Some(t);
    assert At(e.coords, 0) == e.coords.a && At(e.coords, 1) == e.coords.b;
    assert At(e.coords, 2) == e.coords.c && At(e.coords, 3) == e.coords.d;
    forall t': Vec | Target(l, e, t') ensures t' == t {
      ScaleCancels(e.denom, t, t');
    }
  }

  lemma TargetDivides(l: Lattice, e: Element, t: Vec, i: nat)
    requires e.denom != 0 && i < 4 && Target(l, e, t)
    ensures (At(e.coords, i) * l.denom) % e.denom == 0
  {
    ExactQuotient(e.denom, At(t, i));
    AtScale(l.denom, e.coords, i);
    AtScale(e.denom, t, i);
  }

  /** Coordinates solve the system of the target. */
  lemma TargetOf(l: Lattice, e: Element, c: Vec)
    ensures Coordinates(l, e, c) <==> Target(l, e, Eval(l.basis, c))
  {
  }

  lemma AtScale(k: int, u: Vec, i: nat)
    requires i < 4
    ensures At(Scale(k, u), i) == k * At(u, i)
  {
  }

  /** Cramer's rule with the adjugate: exactly the coordinate vector when there is one. */
  method Decompose(l: Lattice, e: Element) returns (r: Option<Vec>)
    requires e.denom != 0
    ensures Det(l.basis) != 0 ==> forall c: Vec :: r == Some(c) <==> Coordinates(l, e, c)
    ensures Det(l.basis) == 0 ==> r.None?
  {
    var rhs := ToLatticeDenominator(l, e);
    if rhs.None? {
      forall c: Vec ensures !Coordinates(l, e, c) { TargetOf(l, e, c); }
      return None;
    }
    assert Target(l, e, rhs.value);
    var adj := Adjugate(l.basis);
    var det := Det(l.basis);
    if det == 0 {
      return None;
    }
    var result: seq<int> := [0, 0, 0, 0];
    var i := 0;
    while i < 4
      invariant 0 <= i <= 4 && |result| == 4
      invariant forall k | 0 <= k < i :: Dot(Row(adj, k), rhs.value) == det * result[k]
    {
      var row := Row(adj, i);
      var val, j := 0, 0;
      while j < 4
        invariant 0 <= j <= 4
        invariant val == (if j > 0 then row.a * rhs.value.a else 0) + (if j > 1 then row.b * rhs.value.b else 0)
                       + (if j > 2 then row.c * rhs.value.c else 0) + (if j > 3 then row.d * rhs.value.d else 0)
      {
        val := val + At(row, j) * At(rhs.value, j);
        j := j + 1;
      }
      var q, rem := val / det, val % det;
      DivisionLaw(val, det);
      if rem != 0 {
        CramerFails(l, e, rhs.value, i);
        return None;
      }
      result := result[i := q];
      i := i + 1;
    }
    var c := Vec(result[0], result[1], result[2], result[3]);
    assert Eval(adj, rhs.value) == Scale(det, c) by {
      assert Row(adj, 0) == adj.r0 && Row(adj, 1) == adj.r1 && Row(adj, 2) == adj.r2 && Row(adj, 3) == adj.r3;
    }
    CramerSound(l, e, rhs.value, c);
    forall c': Vec | Coordinates(l, e, c') ensures c' == c {
      CoordinatesUnique(l, e, c, c');
    }
    r := Some(c);
  }

  /** On a basis of full rank the answer is None exactly for non-members. */
  method DecomposeFullRank(l: Lattice, e: Element) returns (r: Option<Vec>)
    requires Det(l.basis) != 0 && e.denom != 0
    ensures forall c: Vec :: r == Some(c) <==> Coordinates(l, e, c)
    ensures r.None? <==> !Member(l, e)
  {
    r := Decompose(l, e);
    if r.Some? {
      assert Coordinates(l, e, r.value);
    }
  }

  lemma CramerSound(l: Lattice, e: Element, rhs: Vec, c: Vec)
    requires Det(l.basis) != 0 && Scale(e.denom, rhs) == Scale(l.denom, e.coords)
    requires Eval(Adjugate(l.basis), rhs) == Scale(Det(l.basis), c)
    ensures Coordinates(l, e, c)
  {
    AdjugateInverts(l.basis, rhs);
    EvalLinear(l.basis, c, c, Det(l.basis));
    ScaleCancels(Det(l.basis), Eval(l.basis, c), rhs);
  }

  lemma CramerFails(l: Lattice, e: Element, rhs: Vec, i: nat)
    requires Det(l.basis) != 0 && e.denom != 0 && i < 4
    requires Scale(e.denom, rhs) == Scale(l.denom, e.coords)
    requires Dot(Row(Adjugate(l.basis), i), rhs) % Det(l.basis) != 0
    ensures !Member(l, e)
  {
    if c: Vec :| Coordinates(l, e, c) {
      CramerDivides(l, e, rhs, c, i);
    }
  }

  lemma CramerDivides(l: Lattice, e: Element, rhs: Vec, c: Vec, i: nat)
    requires Det(l.basis) != 0 && e.denom != 0 && i < 4
    requires Scale(e.denom, rhs) == Scale(l.denom, e.coords) && Coordinates(l, e, c)
    ensures Dot(Row(Adjugate(l.basis), i), rhs) % Det(l.basis) == 0
  {
    ScaleCancels(e.denom, rhs, Eval(l.basis, c));
    AdjugateInverts(l.basis, c);
    ExactQuotient(Det(l.basis), At(c, i));
    AtScale(Det(l.basis), c, i);
    assert At(Eval(Adjugate(l.basis), rhs), i) == Dot(Row(Adjugate(l.basis), i), rhs);
  }

  // ----- back-substitution -----

  /** What the substitution asks of one row: its equation, or zeros where the pivot is zero. */
  predicate RowHolds(h: Mat, t: Vec, c: Vec, r: nat)
    requires r < 4
  {
    if At(Row(h, r), r) == 0 then At(t, r) == 0 && At(c, r) == 0
    else Dot(Row(h, r), c) == At(t, r)
  }

  /** c passes from the given row down. */
  predicate Substituted(h: Mat, t: Vec, c: Vec, row: nat) {
    forall r: nat | row <= r < 4 :: RowHolds(h, t, c, r)
  }

  /** The coordinates that back-substitution finds: the rows with a zero pivot are asked only for a zero target entry,
      and their coordinate is zero. */
  ghost predicate Accepted(l: Lattice, e: Element, c: Vec) {
    exists t: Vec :: Target(l, e, t) && Substituted(l.basis, t, c, 0)
  }

  /** Every c that passes from the given row down agrees with x there. */
  ghost predicate Determined(h: Mat, t: Vec, x: seq<int>, row: nat)
    requires |x| == 4
  {
    forall c: Vec :: Substituted(h, t, c, row) ==> Agrees(c, x, row)
  }

  predicate Agrees(c: Vec, x: seq<int>, row: nat)
    requires |x| == 4
  {
    forall k | row <= k < 4 :: At(c, k) == x[k]
  }

  /** x has been filled from the given row down. */
  predicate Filled(x: seq<int>, row: nat)
    requires |x| == 4
  {
    forall k | 0 <= k < row && k < 4 :: x[k] == 0
  }

  /** Subtracts the known terms of one row. */
  method Remainder(h: Mat, t: Vec, x: seq<int>, row: nat) returns (val: int)
    requires row < 4 && |x| == 4 && UpperTriangular(h) && Filled(x, row + 1)
    ensures val == At(t, row) - Dot(Row(h, row), ToVec(x))
  {
    val := At(t, row);
    var col := row + 1;
    while col < 4
      invariant row < col <= 4
      invariant val == At(t, row) - (if row < 1 < col then h.r0.b * x[1] else 0)
                     - (if row < 2 < col then At(Row(h, row), 2) * x[2] else 0)
                     - (if row < 3 < col then At(Row(h, row), 3) * x[3] else 0)
    {
      val := val - At(Row(h, row), col) * x[col];
      col := col + 1;
    }
  }

  /** The equation of a row in terms of what has been found below it. */
  lemma RowEquation(h: Mat, x: seq<int>, c: Vec, row: nat)
    requires row < 4 && |x| == 4 && UpperTriangular(h) && Filled(x, row + 1) && Agrees(c, x, row + 1)
    ensures Dot(Row(h, row), c) == Dot(Row(h, row), ToVec(x)) + At(Row(h, row), row) * At(c, row)
  {
    assert row < 3 ==> At(c, 3) == x[3];
    assert row < 2 ==> At(c, 2) == x[2];
    assert row < 1 ==> At(c, 1) == x[1];
  }

  /** A row whose pivot leaves a remainder rejects everything. */
  lemma NoSolution(h: Mat, t: Vec, x: seq<int>, row: nat, val: int)
    requires row < 4 && |x| == 4 && UpperTriangular(h) && Filled(x, row + 1) && Determined(h, t, x, row + 1)
    requires At(Row(h, row), row) != 0 && val == At(t, row) - Dot(Row(h, row), ToVec(x)) && val % At(Row(h, row), row) != 0
    ensures forall c: Vec :: !Substituted(h, t, c, row)
  {
    forall c: Vec ensures !Substituted(h, t, c, row) {
      if Substituted(h, t, c, row) {
        assert Substituted(h, t, c, row + 1) && RowHolds(h, t, c, row);
        RowEquation(h, x, c, row);
        ExactQuotient(At(Row(h, row), row), At(c, row));
      }
    }
  }

  /** A row determines one more coordinate. */
  lemma NextCoordinate(h: Mat, t: Vec, x: seq<int>, row: nat, q: int)
    requires row < 4 && |x| == 4 && UpperTriangular(h) && Filled(x, row + 1)
    requires Determined(h, t, x, row + 1) && Substituted(h, t, ToVec(x), row + 1)
    requires var pivot := At(Row(h, row), row);
             if pivot == 0 then At(t, row) == 0 && q == 0 else At(t, row) - Dot(Row(h, row), ToVec(x)) == pivot * q
    ensures Determined(h, t, x[row := q], row) && Substituted(h, t, ToVec(x[row := q]), row)
  {
    var pivot, y := At(Row(h, row), row), x[row := q];
    forall c: Vec | Substituted(h, t, c, row) ensures Agrees(c, y, row) {
      assert Substituted(h, t, c, row + 1) && RowHolds(h, t, c, row);
      if pivot != 0 {
        RowEquation(h, x, c, row);
        CancelFactor(pivot, At(c, row), q);
      }
    }
    forall r: nat | row <= r < 4 ensures RowHolds(h, t, ToVec(y), r) {
      if r > row { assert RowHolds(h, t, ToVec(x), r); }
      FilledRows(h, x, row, q);
      ToVecEntries(y);
      ToVecEntries(x);
    }
  }

  /** Setting a coordinate leaves the rows below it alone and adds the pivot term to its own row. */
  lemma FilledRows(h: Mat, x: seq<int>, row: nat, q: int)
    requires row < 4 && |x| == 4 && UpperTriangular(h) && x[row] == 0
    ensures forall k | row < k < 4 :: Dot(Row(h, k), ToVec(x[row := q])) == Dot(Row(h, k), ToVec(x))
    ensures Dot(Row(h, row), ToVec(x[row := q])) == Dot(Row(h, row), ToVec(x)) + At(Row(h, row), row) * q
  {
  }

  lemma ToVecEntries(x: seq<int>)
    requires |x| == 4
    ensures forall k | 0 <= k < 4 :: At(ToVec(x), k) == x[k]
  {
  }

  /** Back-substitution from the last row up, without a determinant: exactly the accepted coordinates when there are any. A
      zero pivot asks for a zero entry and skips the row. */
  method Contains(l: Lattice, e: Element) returns (r: Option<Vec>)
    requires e.denom != 0 && UpperTriangular(l.basis)
    ensures forall c: Vec :: r == Some(c) <==> Accepted(l, e, c)
    ensures Triangular(l.basis) ==> forall c: Vec :: r == Some(c) <==> Coordinates(l, e, c)
  {
    if Triangular(l.basis) {
      forall c: Vec ensures Accepted(l, e, c) <==> Coordinates(l, e, c) { AcceptedCoordinates(l, e, c); }
    }
    var target := ToLatticeDenominator(l, e);
    if target.None? {
      forall c: Vec ensures !Accepted(l, e, c) { assert forall t: Vec :: !Target(l, e, t); }
      return None;
    }
    var h, t := l.basis, target.value;
    assert Target(l, e, t);
    var x: seq<int> := [0, 0, 0, 0];
    var row := 4;
    while row > 0
      invariant 0 <= row <= 4 && |x| == 4 && Filled(x, row)
      invariant Determined(h, t, x, row) && Substituted(h, t, ToVec(x), row)
    {
      row := row - 1;
      var pivot := At(Row(h, row), row);
      if pivot == 0 {
        if At(t, row) != 0 {
          Rejected(l, e, t, row);
          return None;
        }
        NextCoordinate(h, t, x, row, 0);
        assert x[row := 0] == x;
      } else {
        var val := Remainder(h, t, x, row);
        DivisionLaw(val, pivot);
        if val % pivot != 0 {
          NoSolution(h, t, x, row, val);
          Rejected(l, e, t, row);
          return None;
        }
        NextCoordinate(h, t, x, row, val / pivot);
        x := x[row := val / pivot];
      }
    }
    r := Some(ToVec(x));
    forall c: Vec ensures r == Some(c) <==> Accepted(l, e, c) {
      OnlyAccepted(l, e, t, x, c);
    }
  }

  lemma Rejected(l: Lattice, e: Element, t: Vec, row: nat)
    requires e.denom != 0 && Target(l, e, t) && row < 4
    requires (At(Row(l.basis, row), row) == 0 && At(t, row) != 0) || forall c: Vec :: !Substituted(l.basis, t, c, row)
    ensures forall c: Vec :: !Accepted(l, e, c)
  {
    forall c: Vec ensures !Accepted(l, e, c) {
      if t': Vec :| Target(l, e, t') && Substituted(l.basis, t', c, 0) {
        ScaleCancels(e.denom, t, t');
        assert RowHolds(l.basis, t, c, row);
        assert Substituted(l.basis, t, c, row);
      }
    }
  }

  lemma OnlyAccepted(l: Lattice, e: Element, t: Vec, x: seq<int>, c: Vec)
    requires e.denom != 0 && Target(l, e, t) && |x| == 4
    requires Determined(l.basis, t, x, 0) && Substituted(l.basis, t, ToVec(x), 0)
    ensures c == ToVec(x) <==> Accepted(l, e, c)
  {
    if t': Vec :| Target(l, e, t') && Substituted(l.basis, t', c, 0) {
      ScaleCancels(e.denom, t, t');
      assert Agrees(c, x, 0);
      assert At(c, 0) == x[0] && At(c, 1) == x[1] && At(c, 2) == x[2] && At(c, 3) == x[3];
    }
  }

  function ToVec(x: seq<int>): Vec
    requires |x| == 4
  {
    Vec(x[0], x[1], x[2], x[3])
  }

  /** Without zero pivots the accepted coordinates are the coordinates. */
  lemma AcceptedCoordinates(l: Lattice, e: Element, c: Vec)
    requires Triangular(l.basis)
    ensures Accepted(l, e, c) <==> Coordinates(l, e, c)
  {
    var h, v := l.basis, Eval(l.basis, c);
    forall r: nat | r < 4 ensures At(Row(h, r), r) != 0 && At(v, r) == Dot(Row(h, r), c) {
    }
    TargetOf(l, e, c);
    if Coordinates(l, e, c) {
      assert Substituted(h, v, c, 0);
    }
    if t: Vec :| Target(l, e, t) && Substituted(h, t, c, 0) {
      forall r | 0 <= r < 4 ensures At(v, r) == At(t, r) {
        assert RowHolds(h, t, c, r);
      }
      Extensional(v, t);
    }
  }

  // ----- zero pivots -----

  /** A row with a zero pivot is zero in the columns whose pivots are not. */
  predicate SkippedVanish(h: Mat) {
    forall r: nat, j: nat | r < 4 && j < 4 && At(Row(h, r), r) == 0 && At(Row(h, j), j) != 0 :: At(Row(h, r), j) == 0
  }

  /** Whatever is accepted is a coordinate vector. */
  ghost predicate SoundAnswers(l: Lattice) {
    forall e: Element, c: Vec :: e.denom != 0 && Accepted(l, e, c) ==> Coordinates(l, e, c)
  }

  /** The answer is sound for all elements exactly when the skipped rows vanish. */
  lemma SoundIff(l: Lattice)
    requires UpperTriangular(l.basis) && l.denom != 0
    ensures SoundAnswers(l) <==> SkippedVanish(l.basis)
  {
    var h := l.basis;
    if SkippedVanish(h) {
      forall e: Element, c: Vec | e.denom != 0 && Accepted(l, e, c) ensures Coordinates(l, e, c) {
        var t: Vec :| Target(l, e, t) && Substituted(h, t, c, 0);
        forall r | 0 <= r < 4 ensures At(Eval(h, c), r) == At(t, r) {
          assert RowHolds(h, t, c, r);
          if At(Row(h, r), r) == 0 { SkippedRow(h, t, c, r); }
        }
        Extensional(Eval(h, c), t);
        TargetOf(l, e, c);
      }
    }
    if SoundAnswers(l) {
      forall r: nat, j: nat | r < 4 && j < 4 && At(Row(h, r), r) == 0 && At(Row(h, j), j) != 0
        ensures At(Row(h, r), j) == 0
      {
        SoundRow(l, r, j);
      }
    }
  }

  lemma SkippedRow(h: Mat, t: Vec, c: Vec, r: nat)
    requires r < 4 && SkippedVanish(h) && Substituted(h, t, c, 0) && At(Row(h, r), r) == 0
    ensures Dot(Row(h, r), c) == 0
  {
    forall j | 0 <= j < 4 ensures At(Row(h, r), j) * At(c, j) == 0 {
      assert RowHolds(h, t, c, j);
    }
    DotEntries(Row(h, r), c);
    assert At(Row(h, r), 0) * At(c, 0) == 0 && At(Row(h, r), 1) * At(c, 1) == 0;
    assert At(Row(h, r), 2) * At(c, 2) == 0 && At(Row(h, r), 3) * At(c, 3) == 0;
  }

  lemma DotEntries(u: Vec, v: Vec)
    ensures Dot(u, v) == At(u, 0) * At(v, 0) + At(u, 1) * At(v, 1) + At(u, 2) * At(v, 2) + At(u, 3) * At(v, 3)
  {
  }

  /** The element that the rows with a pivot make of column j, with zeros in the skipped rows, is accepted. */
  lemma SoundRow(l: Lattice, r: nat, j: nat)
    requires l.denom != 0 && SoundAnswers(l)
    requires r < 4 && j < 4 && At(Row(l.basis, r), r) == 0 && At(Row(l.basis, j), j) != 0
    ensures At(Row(l.basis, r), j) == 0
  {
    var t := PivotRows(l.basis, j);
    var e := Element(t, l.denom);
    PivotRowsPass(l.basis, j);
    assert Target(l, e, t);
    assert Accepted(l, e, Unit(j));
    TargetOf(l, e, Unit(j));
    ScaleCancels(l.denom, t, Eval(l.basis, Unit(j)));
    EntryOfEval(l.basis, j, r);
    assert At(t, r) == 0;
  }

  lemma PivotRowsPass(h: Mat, j: nat)
    requires j < 4 && At(Row(h, j), j) != 0
    ensures Substituted(h, PivotRows(h, j), Unit(j), 0)
  {
    forall i: nat | i < 4 ensures RowHolds(h, PivotRows(h, j), Unit(j), i) {
      EntryOfEval(h, j, i);
      assert i != j ==> At(Unit(j), i) == 0;
    }
  }

  lemma EntryOfEval(h: Mat, j: nat, i: nat)
    requires j < 4 && i < 4
    ensures Dot(Row(h, i), Unit(j)) == At(Row(h, i), j) == At(Eval(h, Unit(j)), i)
  {
  }

  /** Column j with zeros in the rows whose pivot is zero. */
  function PivotRows(h: Mat, j: nat): (t: Vec)
    requires j < 4
    ensures forall r: nat | r < 4 :: At(t, r) == if At(Row(h, r), r) == 0 then 0 else At(Row(h, r), j)
  {
    Vec(if h.r0.a == 0 then 0 else At(h.r0, j), if h.r1.b == 0 then 0 else At(h.r1, j),
        if h.r2.c == 0 then 0 else At(h.r2, j), if h.r3.d == 0 then 0 else At(h.r3, j))
  }

  /** Something is accepted for exactly the members. */
  ghost predicate Decides(l: Lattice) {
    forall e: Element :: e.denom != 0 ==> ((exists c: Vec :: Accepted(l, e, c)) <==> Member(l, e))
  }

  /** The substitution goes through for the j-th basis column. */
  ghost predicate ColumnPasses(h: Mat, j: nat)
    requires j < 4
  {
    exists x: Vec :: Substituted(h, Column(h, j), x, 0)
  }

  /** Membership is decided rightly for all elements exactly when the four basis columns pass. */
  lemma DecidesIff(l: Lattice)
    requires UpperTriangular(l.basis) && l.denom != 0
    ensures Decides(l) <==> forall j: nat | j < 4 :: ColumnPasses(l.basis, j)
    ensures Decides(l) ==> SoundAnswers(l)
  {
    if Decides(l) {
      forall j: nat | j < 4 ensures ColumnPasses(l.basis, j) {
        DecidedColumn(l, j);
      }
    }
    if forall j: nat | j < 4 :: ColumnPasses(l.basis, j) {
      PassingVanish(l.basis);
      SoundIff(l);
      forall e: Element | e.denom != 0 ensures (exists c: Vec :: Accepted(l, e, c)) <==> Member(l, e) {
        if Member(l, e) {
          var c: Vec :| Coordinates(l, e, c);
          MemberPasses(l, e, c);
        }
      }
    }
  }

  lemma DecidedColumn(l: Lattice, j: nat)
    requires l.denom != 0 && j < 4 && Decides(l)
    ensures ColumnPasses(l.basis, j)
  {
    var e := Element(Column(l.basis, j), l.denom);
    EvalUnit(l.basis, j);
    assert Coordinates(l, e, Unit(j));
    var c: Vec :| Accepted(l, e, c);
    var t: Vec :| Target(l, e, t) && Substituted(l.basis, t, c, 0);
    ScaleCancels(l.denom, t, e.coords);
  }

  /** Then the skipped rows are zero. */
  lemma PassingVanish(h: Mat)
    requires forall j: nat | j < 4 :: ColumnPasses(h, j)
    ensures SkippedVanish(h)
  {
    forall r: nat, j: nat | r < 4 && j < 4 && At(Row(h, r), r) == 0 ensures At(Row(h, r), j) == 0 {
      assert ColumnPasses(h, j);
      var x: Vec :| Substituted(h, Column(h, j), x, 0);
      assert RowHolds(h, Column(h, j), x, r);
      TransposedEntry(h, r, j);
    }
  }

  lemma TransposedEntry(h: Mat, r: nat, j: nat)
    requires r < 4 && j < 4
    ensures At(Column(h, j), r) == At(Row(h, r), j)
  {
  }

  /** What passes is closed under integer combinations. */
  lemma SubstitutedLinear(h: Mat, t: Vec, c: Vec, t': Vec, c': Vec, k: int)
    requires Substituted(h, t, c, 0) && Substituted(h, t', c', 0)
    ensures Substituted(h, Add(t, Scale(k, t')), Add(c, Scale(k, c')), 0)
  {
    forall r: nat | r < 4 ensures RowHolds(h, Add(t, Scale(k, t')), Add(c, Scale(k, c')), r) {
      assert RowHolds(h, t, c, r) && RowHolds(h, t', c', r);
      ShiftedEntry(t, k, t', r);
      ShiftedEntry(c, k, c', r);
      DotLinear(Row(h, r), c, Scale(k, c'), 0);
      DotLinear(Row(h, r), c', c', k);
    }
  }

  lemma ShiftedEntry(b: Vec, x: int, c: Vec, i: nat)
    requires i < 4
    ensures At(Add(b, Scale(x, c)), i) == At(b, i) + x * At(c, i)
  {
  }

  lemma MemberPasses(l: Lattice, e: Element, c: Vec)
    requires Coordinates(l, e, c) && forall j: nat | j < 4 :: ColumnPasses(l.basis, j)
    ensures exists x: Vec :: Accepted(l, e, x)
  {
    var h := l.basis;
    assert ColumnPasses(h, 0) && ColumnPasses(h, 1) && ColumnPasses(h, 2) && ColumnPasses(h, 3);
    var x0: Vec :| Substituted(h, Column(h, 0), x0, 0);
    var x1: Vec :| Substituted(h, Column(h, 1), x1, 0);
    var x2: Vec :| Substituted(h, Column(h, 2), x2, 0);
    var x3: Vec :| Substituted(h, Column(h, 3), x3, 0);
    ZeroPasses(h);
    var t1, y1 := Add(ZERO, Scale(c.a, Column(h, 0))), Add(ZERO, Scale(c.a, x0));
    SubstitutedLinear(h, ZERO, ZERO, Column(h, 0), x0, c.a);
    var t2, y2 := Add(t1, Scale(c.b, Column(h, 1))), Add(y1, Scale(c.b, x1));
    SubstitutedLinear(h, t1, y1, Column(h, 1), x1, c.b);
    var t3, y3 := Add(t2, Scale(c.c, Column(h, 2))), Add(y2, Scale(c.c, x2));
    SubstitutedLinear(h, t2, y2, Column(h, 2), x2, c.c);
    var t4, y4 := Add(t3, Scale(c.d, Column(h, 3))), Add(y3, Scale(c.d, x3));
    SubstitutedLinear(h, t3, y3, Column(h, 3), x3, c.d);
    ColumnSum(h, c);
    TargetOf(l, e, c);
    assert Target(l, e, t4) && Substituted(h, t4, y4, 0);
    assert Accepted(l, e, y4);
  }

  lemma ZeroPasses(h: Mat)
    ensures Substituted(h, ZERO, ZERO, 0)
  {
  }

  lemma ColumnSum(h: Mat, c: Vec)
    ensures Add(Add(Add(Add(ZERO, Scale(c.a, Column(h, 0))), Scale(c.b, Column(h, 1))), Scale(c.c, Column(h, 2))), Scale(c.d, Column(h, 3)))
         == Eval(h, c)
  {
  }

  /** One generator (1, 1) for the first two rows, under a zero pivot. */
  const SKIPPED := Mat(Vec(0, 1, 0, 0), Vec(0, 1, 0, 0), Vec(0, 0, 1, 0), Vec(0, 0, 0, 1))

  /** A Hermite form on which the answer for a non-member is a coordinate vector. */
  lemma SkippedRowAccepts()
    ensures var l, e := Lattice(SKIPPED, 1), Element(Vec(0, 1, 0, 0), 1);
            Hermite(SKIPPED) && Accepted(l, e, Vec(0, 1, 0, 0)) && !Member(l, e)
  {
    var l, e := Lattice(SKIPPED, 1), Element(Vec(0, 1, 0, 0), 1);
    assert Target(l, e, e.coords) && Substituted(SKIPPED, e.coords, Vec(0, 1, 0, 0), 0);
    forall c: Vec ensures !Coordinates(l, e, c) {
      assert Eval(SKIPPED, c) == Vec(c.b, c.b, c.c, c.d);
    }
  }

  /** Back-substitution and Cramer's rule return the same coordinates on every triangular basis and every denominator, and
      they are there exactly for the members. */
  lemma TestsAgree(l: Lattice, e: Element, byRows: Option<Vec>, byCramer: Option<Vec>)
    requires e.denom != 0 && Triangular(l.basis)
    requires forall c: Vec :: byRows == Some(c) <==> Accepted(l, e, c)
    requires Det(l.basis) != 0 ==> forall c: Vec :: byCramer == Some(c) <==> Coordinates(l, e, c)
    ensures byRows == byCramer
    ensures byRows.Some? <==> Member(l, e)
  {
    TriangularDet(l.basis);
    forall c: Vec ensures byRows == Some(c) <==> byCramer == Some(c) {
      AcceptedCoordinates(l, e, c);
    }
    if byRows.Some? {
      assert byCramer == Some(byRows.value);
      assert Coordinates(l, e, byRows.value);
    }
    if byCramer.Some? {
      assert byRows == Some(byCramer.value);
    }
  }
}
