/** The column Hermite form of a list of generators, computed in place. */
module HermiteForm {
  import opened Arith
  import opened Gcds
  import opened Linear4
  import opened Lattices
  import opened Duals
  import opened KernelIntersection

  // ----- spans of a list of vectors -----

  ghost predicate SameSpan(vs: seq<Vec>, ws: seq<Vec>) {
    forall v: Vec :: InSpan(vs, v) <==> InSpan(ws, v)
  }

  /** Replacing one coefficient and vector shifts the combination by the difference of the two terms. */
  lemma {:induction false} TermReplaced(t: seq<int>, vs: seq<Vec>, i: nat, k: int, x: Vec)
    requires |t| == |vs| && i < |vs|
    ensures Add(VecComb(t[i := k], vs[i := x]), Scale(t[i], vs[i])) == Add(VecComb(t, vs), Scale(k, x))
  {
    var t', vs' := t[i := k], vs[i := x];
    if i == 0 {
      assert t'[1..] == t[1..] && vs'[1..] == vs[1..];
      ThreeTerms(Scale(k, x), VecComb(t[1..], vs[1..]), Scale(t[0], vs[0]));
    } else {
      assert t'[1..] == t[1..][i - 1 := k] && vs'[1..] == vs[1..][i - 1 := x];
      TermReplaced(t[1..], vs[1..], i - 1, k, x);
      AddAssoc(Scale(t[0], vs[0]), VecComb(t'[1..], vs'[1..]), Scale(t[i], vs[i]));
      AddAssoc(Scale(t[0], vs[0]), VecComb(t[1..], vs[1..]), Scale(k, x));
    }
  }

  lemma ThreeTerms(x: Vec, r: Vec, y: Vec)
    ensures Add(Add(x, r), y) == Add(Add(y, r), x)
  {
  }

  lemma AddAssoc(x: Vec, y: Vec, z: Vec)
    ensures Add(Add(x, y), z) == Add(x, Add(y, z))
  {
  }

  /** Two terms exchanged for two with the same sum. */
  lemma TermsExchanged(t: seq<int>, vs: seq<Vec>, i: nat, j: nat, ti: int, tj: int, x: Vec, y: Vec)
    requires |t| == |vs| && i < |vs| && j < |vs| && i != j
    requires Add(Scale(ti, x), Scale(tj, y)) == Add(Scale(t[i], vs[i]), Scale(t[j], vs[j]))
    ensures VecComb(t[i := ti][j := tj], vs[i := x][j := y]) == VecComb(t, vs)
  {
    var t1, vs1 := t[i := ti], vs[i := x];
    TermReplaced(t, vs, i, ti, x);
    TermReplaced(t1, vs1, j, tj, y);
    SameSum(VecComb(t, vs), VecComb(t1, vs1), VecComb(t1[j := tj], vs1[j := y]),
            Scale(t[i], vs[i]), Scale(t[j], vs[j]), Scale(ti, x), Scale(tj, y));
  }

  lemma SameSum(s: Vec, s1: Vec, s2: Vec, p: Vec, q: Vec, p': Vec, q': Vec)
    requires Add(s1, p) == Add(s, p') && Add(s2, q) == Add(s1, q') && Add(p', q') == Add(p, q)
    ensures s2 == s
  {
  }

  /** If the old columns are combinations of the new ones, the new ones generate no less. */
  lemma ExchangeInSpan(vs: seq<Vec>, i: nat, j: nat, x: Vec, y: Vec, p: int, q: int, r: int, s: int, v: Vec)
    requires i < |vs| && j < |vs| && i != j && InSpan(vs, v)
    requires vs[i] == Add(Scale(p, x), Scale(q, y)) && vs[j] == Add(Scale(r, x), Scale(s, y))
    ensures InSpan(vs[i := x][j := y], v)
  {
    var t: seq<int> :| |t| == |vs| && VecComb(t, vs) == v;
    var ti, tj := t[i] * p + t[j] * r, t[i] * q + t[j] * s;
    VecRegroup(t[i], t[j], p, q, r, s, x, y);
    TermsExchanged(t, vs, i, j, ti, tj, x, y);
    assert VecComb(t[i := ti][j := tj], vs[i := x][j := y]) == v;
  }

  /** Two columns replaced by combinations of them that can be undone. */
  lemma ExchangeSpan(vs: seq<Vec>, i: nat, j: nat, x: Vec, y: Vec, p: int, q: int, r: int, s: int, p': int, q': int, r': int, s': int)
    requires i < |vs| && j < |vs| && i != j
    requires vs[i] == Add(Scale(p, x), Scale(q, y)) && vs[j] == Add(Scale(r, x), Scale(s, y))
    requires x == Add(Scale(p', vs[i]), Scale(q', vs[j])) && y == Add(Scale(r', vs[i]), Scale(s', vs[j]))
    ensures SameSpan(vs[i := x][j := y], vs)
  {
    var ws := vs[i := x][j := y];
    assert ws[i := vs[i]][j := vs[j]] == vs;
    forall v: Vec ensures InSpan(ws, v) <==> InSpan(vs, v) {
      if InSpan(vs, v) {
        ExchangeInSpan(vs, i, j, x, y, p, q, r, s, v);
      }
      if InSpan(ws, v) {
        ExchangeInSpan(ws, i, j, vs[i], vs[j], p', q', r', s', v);
      }
    }
  }

  function Columns(m: Mat): (vs: seq<Vec>)
    ensures |vs| == 4
  {
    [Column(m, 0), Column(m, 1), Column(m, 2), Column(m, 3)]
  }

  function FromColumns(vs: seq<Vec>): Mat
    requires |vs| >= 4
  {
    Transpose(Mat(vs[0], vs[1], vs[2], vs[3]))
  }

  lemma ColumnsOfMatrix(m: Mat)
    ensures FromColumns(Columns(m)) == m
  {
  }

  lemma MatrixOfColumns(vs: seq<Vec>)
    requires |vs| >= 4
    ensures Columns(FromColumns(vs)) == vs[..4]
  {
  }

  /** With zero vectors after the fourth, the span of a list is the column span of its matrix. */
  lemma MatrixSpan(vs: seq<Vec>, v: Vec)
    requires |vs| >= 4 && forall j | 4 <= j < |vs| :: vs[j] == ZERO
    ensures InColumnSpan(FromColumns(vs), v) <==> InSpan(vs, v)
  {
    var m := FromColumns(vs);
    forall t: seq<int> | |t| == |vs| ensures VecComb(t, vs) == Eval(m, Vec(t[0], t[1], t[2], t[3])) {
      FirstFour(t, vs);
    }
    if c: Vec :| v == Eval(m, c) {
      var t := [c.a, c.b, c.c, c.d] + seq(|vs| - 4, _ => 0);
      assert VecComb(t, vs) == Eval(m, Vec(t[0], t[1], t[2], t[3]));
    }
  }

  lemma FirstFour(t: seq<int>, vs: seq<Vec>)
    requires |t| == |vs| >= 4 && forall j | 4 <= j < |vs| :: vs[j] == ZERO
    ensures VecComb(t, vs) == Eval(FromColumns(vs), Vec(t[0], t[1], t[2], t[3]))
  {
    Shifts(t);
    Shifts(vs);
    ConsComb(t, vs);
    ConsComb(t[1..], vs[1..]);
    ConsComb(t[2..], vs[2..]);
    ConsComb(t[3..], vs[3..]);
    ZeroComb(t[4..], vs[4..]);
    RowCombination(Mat(vs[0], vs[1], vs[2], vs[3]), Vec(t[0], t[1], t[2], t[3]));
    NestedSum(Scale(t[0], vs[0]), Scale(t[1], vs[1]), Scale(t[2], vs[2]), Scale(t[3], vs[3]));
  }

  lemma NestedSum(p: Vec, q: Vec, r: Vec, s: Vec)
    ensures Add(p, Add(q, Add(r, Add(s, ZERO)))) == Add(Add(p, q), Add(r, s))
  {
  }

  // ----- the form -----

  /** Row r is zero in the columns before the r-th and beyond the fourth. */
  predicate ClearRow(cols: seq<Vec>, r: nat)
    requires r < 4 <= |cols|
  {
    forall j: nat | j < |cols| && (j < r || j >= 4) :: At(cols[j], r) == 0
  }

  /** The pivot of row r is not negative; right of a positive one all entries are residues. */
  predicate ReducedRow(cols: seq<Vec>, r: nat)
    requires r < 4 <= |cols|
  {
    && At(cols[r], r) >= 0
    && (At(cols[r], r) > 0 ==> forall j: nat | r < j < 4 :: 0 <= At(cols[j], r) < At(cols[r], r))
  }

  /** The rows from n down are finished. */
  predicate Finished(cols: seq<Vec>, n: nat) {
    |cols| >= 4 && forall r: nat | n <= r < 4 :: ClearRow(cols, r) && ReducedRow(cols, r)
  }

  /** What the column reduction makes of any generators. */
  predicate InHermiteForm(m: Mat) {
    Finished(Columns(m), 0)
  }

  /** Hermite form proper: entries right of a positive pivot lie in [0, pivot). */
  predicate Reduced(m: Mat) {
    && Triangular(m) && m.r0.a > 0 && m.r1.b > 0 && m.r2.c > 0 && m.r3.d > 0
    && 0 <= m.r0.b < m.r0.a && 0 <= m.r0.c < m.r0.a && 0 <= m.r0.d < m.r0.a
    && 0 <= m.r1.c < m.r1.b && 0 <= m.r1.d < m.r1.b && 0 <= m.r2.d < m.r2.c
  }

  /** Zero left of the pivots, no negative pivot, residues right of the positive ones. */
  predicate Hermite(m: Mat) {
    && UpperTriangular(m) && m.r0.a >= 0 && m.r1.b >= 0 && m.r2.c >= 0 && m.r3.d >= 0
    && (m.r0.a > 0 ==> 0 <= m.r0.b < m.r0.a && 0 <= m.r0.c < m.r0.a && 0 <= m.r0.d < m.r0.a)
    && (m.r1.b > 0 ==> 0 <= m.r1.c < m.r1.b && 0 <= m.r1.d < m.r1.b)
    && (m.r2.c > 0 ==> 0 <= m.r2.d < m.r2.c)
  }

  lemma HermiteEntries(m: Mat)
    ensures InHermiteForm(m) <==> Hermite(m)
  {
    var vs := Columns(m);
    if InHermiteForm(m) {
      assert ClearRow(vs, 1) && ClearRow(vs, 2) && ClearRow(vs, 3);
      assert ReducedRow(vs, 0) && ReducedRow(vs, 1) && ReducedRow(vs, 2) && ReducedRow(vs, 3);
      assert At(vs[0], 1) == 0 && At(vs[0], 2) == 0 && At(vs[0], 3) == 0;
      assert At(vs[1], 2) == 0 && At(vs[1], 3) == 0 && At(vs[2], 3) == 0;
      assert m.r0.a > 0 ==> 0 <= At(vs[1], 0) < m.r0.a && 0 <= At(vs[2], 0) < m.r0.a && 0 <= At(vs[3], 0) < m.r0.a;
      assert m.r1.b > 0 ==> 0 <= At(vs[2], 1) < m.r1.b && 0 <= At(vs[3], 1) < m.r1.b;
      assert m.r2.c > 0 ==> 0 <= At(vs[3], 2) < m.r2.c;
    }
  }

  /** On a full-rank lattice the form has no zero pivot. */
  lemma FullRankReduced(m: Mat)
    requires Hermite(m)
    ensures Reduced(m) <==> Det(m) != 0
  {
    UpperTriangularDet(m);
    if Reduced(m) {
      TriangularDet(m);
    }
  }

  lemma UpperTriangularDet(m: Mat)
    requires UpperTriangular(m)
    ensures Det(m) == m.r0.a * (m.r1.b * (m.r2.c * m.r3.d))
  {
    var k := Cross(m.r1, m.r2, m.r3);
    assert k.a == m.r1.b * (m.r2.c * m.r3.d) && k.b == k.c == k.d == 0;
  }

  /** Bases with one column span have full rank together. */
  lemma SpanFullRank(m: Mat, h: Mat)
    requires Det(m) != 0 && forall v: Vec :: InColumnSpan(m, v) ==> InColumnSpan(h, v)
    ensures Det(h) != 0
  {
    var p := DetPreimage(m, h, 0);
    var q := DetPreimage(m, h, 1);
    var r := DetPreimage(m, h, 2);
    var s := DetPreimage(m, h, 3);
    SpanningIsInvertible(h, Det(m), p, q, r, s);
  }

  lemma DetPreimage(m: Mat, h: Mat, i: nat) returns (c: Vec)
    requires i < 4 && forall v: Vec :: InColumnSpan(m, v) ==> InColumnSpan(h, v)
    ensures Eval(h, c) == Scale(Det(m), Unit(i))
  {
    AdjugateInverts(m, Unit(i));
    assert InColumnSpan(m, Eval(m, Eval(Adjugate(m), Unit(i))));
    c :| Eval(m, Eval(Adjugate(m), Unit(i))) == Eval(h, c);
  }

  // ----- the reduction -----

  /** The extended-gcd step: column i gets the gcd of the two entries in its row, column j zero. */
  method CombinePair(a: array<Vec>, i: nat, j: nat)
    requires i < 4 && i < a.Length && j < a.Length && i != j
    modifies a
    ensures SameSpan(a[..], old(a[..])) && At(a[j], i) == 0
    ensures forall k | 0 <= k < a.Length && k != i && k != j :: a[k] == old(a[k])
    ensures forall s: nat | s < 4 && At(old(a[i]), s) == 0 && At(old(a[j]), s) == 0 :: At(a[i], s) == 0 && At(a[j], s) == 0
    ensures At(old(a[j]), i) == 0 && At(old(a[i]), i) >= 0 ==> a[..] == old(a[..])
  {
    var vi, vj := At(a[i], i), At(a[j], i);
    if vi == 0 && vj == 0 {
      return;
    }
    var g, u, v := Xgcd(vi, vj);
    var p, e := vi / g, vj / g;
    DivisorQuotient(g, vi);
    DivisorQuotient(g, vj);
    ghost var was := a[..];
    GcdColumns(was, i, j, g, u, v, p, e);
    a[i], a[j] := Add(Scale(u, a[i]), Scale(v, a[j])), Add(Scale(p, a[j]), Scale(-e, a[i]));
    assert a[..] == was[i := a[i]][j := a[j]];
    if vj == 0 && vi >= 0 {
      UnitStep(was[i], was[j], vi, g, u, v, p, e);
      assert a[..] == was;
    }
  }

  lemma GcdColumns(vs: seq<Vec>, i: nat, j: nat, g: int, u: int, v: int, p: int, e: int)
    requires i < 4 && i < |vs| && j < |vs| && i != j && g != 0
    requires At(vs[i], i) == g * p && At(vs[j], i) == g * e && g == u * (g * p) + v * (g * e)
    ensures var x, y := Add(Scale(u, vs[i]), Scale(v, vs[j])), Add(Scale(p, vs[j]), Scale(-e, vs[i]));
            && SameSpan(vs[i := x][j := y], vs) && At(y, i) == 0
            && forall s: nat | s < 4 && At(vs[i], s) == 0 && At(vs[j], s) == 0 :: At(x, s) == 0 && At(y, s) == 0
  {
    var x, y := Add(Scale(u, vs[i]), Scale(v, vs[j])), Add(Scale(p, vs[j]), Scale(-e, vs[i]));
    BezoutUnit(g, u, v, p, e);
    VecInverse(vs[i], vs[j], u, v, p, e);
    AddSwap(Scale(p, vs[j]), Scale(-e, vs[i]));
    ExchangeSpan(vs, i, j, x, y, p, -v, e, u, u, v, -e, p);
    AtCombination(u, vs[i], v, vs[j]);
    AtCombination(p, vs[j], -e, vs[i]);
    Balanced(g, p, e);
  }

  lemma AddSwap(u: Vec, v: Vec)
    ensures Add(u, v) == Add(v, u)
  {
  }

  lemma UnitStep(x: Vec, y: Vec, a: int, g: int, u: int, v: int, p: int, e: int)
    requires a > 0 && g == a && u == 1 && v == 0 && p == a / g && e == 0 / g
    ensures Add(Scale(u, x), Scale(v, y)) == x && Add(Scale(p, y), Scale(-e, x)) == y
  {
    ExactQuotient(a, 1);
    ExactQuotient(a, 0);
  }

  method Negate(a: array<Vec>, i: nat)
    requires i < 4 <= a.Length
    modifies a
    ensures SameSpan(a[..], old(a[..])) && a[i] == Scale(-1, old(a[i]))
    ensures forall k | 0 <= k < a.Length && k != i :: a[k] == old(a[k])
  {
    ghost var j := if i == 0 then 1 else 0;
    var x := Scale(-1, a[i]);
    SignFlip(a[i], a[j]);
    ExchangeSpan(a[..], i, j, x, a[j], -1, 0, 0, 1, -1, 0, 0, 1);
    assert a[..][i := x][j := a[j]] == a[..][i := x];
    a[i] := x;
    assert a[..] == old(a[..])[i := x];
  }

  lemma SignFlip(x: Vec, y: Vec)
    ensures x == Add(Scale(-1, Scale(-1, x)), Scale(0, y)) && Scale(-1, x) == Add(Scale(-1, x), Scale(0, y))
    ensures y == Add(Scale(0, x), Scale(1, y)) == Add(Scale(0, Scale(-1, x)), Scale(1, y))
  {
  }

  /** Takes the multiple of column i off column j that leaves a residue in row i. */
  method ReduceBy(a: array<Vec>, i: nat, j: nat)
    requires i < 4 && i < a.Length && j < a.Length && i != j && At(a[i], i) > 0
    modifies a
    ensures SameSpan(a[..], old(a[..])) && 0 <= At(a[j], i) < At(a[i], i)
    ensures forall k | 0 <= k < a.Length && k != j :: a[k] == old(a[k])
    ensures forall s: nat | s < 4 && At(a[i], s) == 0 :: At(a[j], s) == At(old(a[j]), s)
    ensures 0 <= At(old(a[j]), i) < At(a[i], i) ==> a[j] == old(a[j])
  {
    var piv, entry := At(a[i], i), At(a[j], i);
    var q := (entry - entry % piv) / piv;
    DivisionLaw(entry, piv);
    ExactQuotient(piv, entry / piv);
    if q != 0 {
      var y := Add(a[j], Scale(-q, a[i]));
      AtReduced(a[j], a[i], q);
      UndoVec(a[j], a[i], q);
      KeepVec(a[i], a[j], q);
      ExchangeSpan(a[..], i, j, a[i], y, 1, 0, q, 1, 1, 0, -q, 1);
      assert a[..][i := a[i]][j := y] == a[..][j := y];
      if 0 <= entry < piv { QuotientUnique(piv, 0, entry, entry); }
      a[j] := y;
      assert a[..] == old(a[..])[j := y];
    }
  }

  lemma KeepVec(x: Vec, y: Vec, q: int)
    ensures x == Add(Scale(1, x), Scale(0, Add(y, Scale(-q, x)))) == Add(Scale(1, x), Scale(0, y))
    ensures Add(y, Scale(-q, x)) == Add(Scale(-q, x), Scale(1, y))
  {
  }

  /** Collects the gcd of row n in column n and clears the row in the columns that are not finished. */
  method ClearPivotRow(a: array<Vec>, n: nat)
    requires n < 4 <= a.Length && Finished(a[..], n + 1)
    modifies a
    ensures SameSpan(a[..], old(a[..])) && Finished(a[..], n + 1) && ClearRow(a[..], n)
    ensures Finished(old(a[..]), 0) && a.Length == 4 ==> a[..] == old(a[..])
  {
    var j := n;
    while j > 0
      invariant 0 <= j <= n
      invariant SameSpan(a[..], old(a[..])) && Finished(a[..], n + 1)
      invariant forall k: nat | j <= k < n :: At(a[k], n) == 0
      invariant Finished(old(a[..]), 0) && a.Length == 4 ==> a[..] == old(a[..])
    {
      j := j - 1;
      CombineKeeps(a, n, j);
    }
    j := 4;
    while j < a.Length
      invariant 4 <= j <= a.Length
      invariant SameSpan(a[..], old(a[..])) && Finished(a[..], n + 1)
      invariant forall k: nat | k < n || 4 <= k < j :: At(a[k], n) == 0
      invariant Finished(old(a[..]), 0) && a.Length == 4 ==> a[..] == old(a[..])
    {
      CombineKeeps(a, n, j);
      j := j + 1;
    }
  }

  /** The step on unfinished columns leaves the finished rows alone. */
  method CombineKeeps(a: array<Vec>, n: nat, j: nat)
    requires n < 4 <= a.Length && j < a.Length && (j < n || j >= 4) && Finished(a[..], n + 1)
    modifies a
    ensures SameSpan(a[..], old(a[..])) && Finished(a[..], n + 1) && At(a[j], n) == 0
    ensures forall k | 0 <= k < a.Length && k != n && k != j :: a[k] == old(a[k])
    ensures Finished(old(a[..]), 0) ==> a[..] == old(a[..])
  {
    ghost var was := a[..];
    if Finished(was, 0) {
      assert ClearRow(was, n) && ReducedRow(was, n);
    }
    CombinePair(a, n, j);
    forall r: nat | n + 1 <= r < 4 ensures ClearRow(a[..], r) && ReducedRow(a[..], r) {
      assert ClearRow(was, r) && ReducedRow(was, r);
    }
  }

  /** Makes the pivot of row n positive and reduces the entries right of it. */
  method ReducePivotRow(a: array<Vec>, n: nat)
    requires n < 4 <= a.Length && Finished(a[..], n + 1) && ClearRow(a[..], n)
    modifies a
    ensures SameSpan(a[..], old(a[..])) && Finished(a[..], n)
    ensures Finished(old(a[..]), 0) && a.Length == 4 ==> a[..] == old(a[..])
  {
    ghost var was := a[..];
    ghost var fixed := Finished(was, 0);
    if fixed {
      assert ReducedRow(was, n);
    }
    if At(a[n], n) < 0 {
      Negate(a, n);
      forall r: nat | n <= r < 4 ensures ClearRow(a[..], r) && (r > n ==> ReducedRow(a[..], r)) {
        assert ClearRow(was, r) && (r > n ==> ReducedRow(was, r));
      }
    }
    if At(a[n], n) == 0 {
      return;
    }
    var j := 0;
    while j < n
      invariant 0 <= j <= n
      invariant Finished(a[..], n + 1) && ClearRow(a[..], n) && At(a[n], n) > 0
      invariant SameSpan(a[..], was) && (fixed ==> a[..] == was)
    {
      ReduceKeeps(a, n, j);
      j := j + 1;
    }
    j := n + 1;
    while j < a.Length
      invariant n < j <= a.Length
      invariant Finished(a[..], n + 1) && ClearRow(a[..], n) && At(a[n], n) > 0
      invariant forall k: nat | n < k < j :: 0 <= At(a[k], n) < At(a[n], n)
      invariant SameSpan(a[..], was) && (fixed ==> a[..] == was)
    {
      if fixed { assert j < 4 ==> 0 <= At(was[j], n) < At(was[n], n); }
      ReduceKeeps(a, n, j);
      j := j + 1;
    }
  }

  method ReduceKeeps(a: array<Vec>, n: nat, j: nat)
    requires n < 4 <= a.Length && j < a.Length && j != n
    requires Finished(a[..], n + 1) && ClearRow(a[..], n) && At(a[n], n) > 0
    modifies a
    ensures SameSpan(a[..], old(a[..])) && 0 <= At(a[j], n) < At(a[n], n)
    ensures forall k | 0 <= k < a.Length && k != j :: a[k] == old(a[k])
    ensures Finished(a[..], n + 1) && ClearRow(a[..], n)
    ensures 0 <= At(old(a[j]), n) < At(a[n], n) ==> a[..] == old(a[..])
  {
    ghost var was := a[..];
    forall r: nat | n + 1 <= r < 4 ensures At(a[n], r) == 0 {
      assert ClearRow(was, r);
    }
    ReduceBy(a, n, j);
    forall r: nat | n + 1 <= r < 4 ensures ClearRow(a[..], r) && ReducedRow(a[..], r) {
      assert ClearRow(was, r) && ReducedRow(was, r);
    }
  }

  /** The form generates what the columns generate; columns in the form come back unchanged. */
  method FromHnfColumns(cols: seq<Vec>) returns (h: Mat)
    requires |cols| >= 4
    ensures Hermite(h) && forall v: Vec :: InColumnSpan(h, v) <==> InSpan(cols, v)
    ensures forall m: Mat :: cols == Columns(m) && Hermite(m) ==> h == m
  {
    var a := new Vec[|cols|](k requires 0 <= k < |cols| => cols[k]);
    assert a[..] == cols;
    ghost var fixed := Finished(cols, 0) && |cols| == 4;
    var n := 4;
    while n > 0
      invariant 0 <= n <= 4
      invariant SameSpan(a[..], cols) && Finished(a[..], n)
      invariant fixed ==> a[..] == cols
    {
      n := n - 1;
      ClearPivotRow(a, n);
      ReducePivotRow(a, n);
    }
    h := FromColumns(a[..]);
    Complete(cols, a[..], h);
  }

  lemma Complete(cols: seq<Vec>, vs: seq<Vec>, h: Mat)
    requires |cols| == |vs| >= 4 && SameSpan(vs, cols) && Finished(vs, 0) && h == FromColumns(vs)
    requires Finished(cols, 0) && |cols| == 4 ==> vs == cols
    ensures Hermite(h) && forall v: Vec :: InColumnSpan(h, v) <==> InSpan(cols, v)
    ensures forall m: Mat :: cols == Columns(m) && Hermite(m) ==> h == m
  {
    forall j | 4 <= j < |vs| ensures vs[j] == ZERO {
      assert ClearRow(vs, 0) && ClearRow(vs, 1) && ClearRow(vs, 2) && ClearRow(vs, 3);
      assert At(vs[j], 0) == 0 && At(vs[j], 1) == 0 && At(vs[j], 2) == 0 && At(vs[j], 3) == 0;
    }
    forall v: Vec ensures InColumnSpan(h, v) <==> InSpan(cols, v) {
      MatrixSpan(vs, v);
    }
    MatrixOfColumns(vs);
    forall r: nat | r < 4 ensures ClearRow(Columns(h), r) && ReducedRow(Columns(h), r) {
      assert ClearRow(vs, r) && ReducedRow(vs, r);
    }
    HermiteEntries(h);
    forall m: Mat | cols == Columns(m) && Hermite(m) ensures h == m {
      HermiteEntries(m);
      ColumnsOfMatrix(m);
    }
  }
}
