/** The intersection by column reduction of the stacked matrix [d2*B1 | -d1*B2] over its identity tracker. */
module KernelIntersection {
  import opened Arith
  import opened Gcds
  import opened Linear4
  import opened Lattices

  /** A column of the 12 x 8 working matrix: four constraint rows, then the tracked combination (a; b). */
  datatype Col = Col(top: Vec, a: Vec, b: Vec)

  const ZEROCOL := Col(ZERO, ZERO, ZERO)

  function Plus(x: Col, y: Col): Col {
    Col(Add(x.top, y.top), Add(x.a, y.a), Add(x.b, y.b))
  }

  function Times(k: int, x: Col): Col {
    Col(Scale(k, x.top), Scale(k, x.a), Scale(k, x.b))
  }

  /** The constraint d2*B1*a - d1*B2*b. */
  function Residual(l1: Lattice, l2: Lattice, a: Vec, b: Vec): Vec {
    Add(Scale(l2.denom, Eval(l1.basis, a)), Scale(-l1.denom, Eval(l2.basis, b)))
  }

  /** The top block is the constraint evaluated at the tracked combination. */
  predicate Tracks(l1: Lattice, l2: Lattice, x: Col) {
    x.top == Residual(l1, l2, x.a, x.b)
  }

  lemma TracksLinear(l1: Lattice, l2: Lattice, x: Col, y: Col, k: int)
    requires Tracks(l1, l2, x) && Tracks(l1, l2, y)
    ensures Tracks(l1, l2, Plus(x, y)) && Tracks(l1, l2, Times(k, x))
  {
    EvalLinear(l1.basis, x.a, y.a, 0);
    EvalLinear(l2.basis, x.b, y.b, 0);
    EvalLinear(l1.basis, x.a, x.a, k);
    EvalLinear(l2.basis, x.b, x.b, k);
    PlusParts(l2.denom, Eval(l1.basis, x.a), Eval(l1.basis, y.a), -l1.denom, Eval(l2.basis, x.b), Eval(l2.basis, y.b));
    TimesParts(k, l2.denom, Eval(l1.basis, x.a), -l1.denom, Eval(l2.basis, x.b));
  }

  lemma PlusParts(j: int, u: Vec, v: Vec, k: int, x: Vec, y: Vec)
    ensures Add(Add(Scale(j, u), Scale(k, x)), Add(Scale(j, v), Scale(k, y)))
         == Add(Scale(j, Add(u, v)), Scale(k, Add(x, y)))
  {
    ScaleAdd(j, u, v);
    ScaleAdd(k, x, y);
  }

  lemma TimesParts(m: int, j: int, u: Vec, k: int, x: Vec)
    ensures Scale(m, Add(Scale(j, u), Scale(k, x))) == Add(Scale(j, Scale(m, u)), Scale(k, Scale(m, x)))
  {
    ScaleTwice(m, j, u);
    ScaleTwice(j, m, u);
    ScaleTwice(m, k, x);
    ScaleTwice(k, m, x);
    assert m * j == j * m && m * k == k * m;
    ScaleAdd(m, Scale(j, u), Scale(k, x));
  }

  lemma ScaleAdd(m: int, u: Vec, v: Vec)
    ensures Scale(m, Add(u, v)) == Add(Scale(m, u), Scale(m, v))
  {
  }

  // ----- integer combinations of columns -----

  function Comb(t: seq<int>, cols: seq<Col>): Col
    requires |t| == |cols|
  {
    if cols == [] then ZEROCOL else Plus(Times(t[0], cols[0]), Comb(t[1..], cols[1..]))
  }

  lemma PlusLaws(x: Col, y: Col, z: Col)
    ensures Plus(Plus(x, y), z) == Plus(x, Plus(y, z))
    ensures Plus(x, y) == Plus(y, x)
    ensures Plus(ZEROCOL, x) == x
  {
  }

  /** Replacing one coefficient and column shifts the combination by the difference of the two terms. */
  lemma {:induction false} CombUpdate(t: seq<int>, cols: seq<Col>, i: nat, k: int, x: Col)
    requires |t| == |cols| && i < |cols|
    ensures Plus(Comb(t[i := k], cols[i := x]), Times(t[i], cols[i])) == Plus(Comb(t, cols), Times(k, x))
  {
    var t', cols' := t[i := k], cols[i := x];
    if i == 0 {
      assert t'[1..] == t[1..] && cols'[1..] == cols[1..];
      var rest := Comb(t[1..], cols[1..]);
      PlusSwap(Times(k, x), rest, Times(t[0], cols[0]));
    } else {
      assert t'[1..] == t[1..][i - 1 := k] && cols'[1..] == cols[1..][i - 1 := x];
      CombUpdate(t[1..], cols[1..], i - 1, k, x);
      var head := Times(t[0], cols[0]);
      PlusLaws(head, Comb(t'[1..], cols'[1..]), Times(t[i], cols[i]));
      PlusLaws(head, Comb(t[1..], cols[1..]), Times(k, x));
    }
  }

  lemma PlusSwap(x: Col, r: Col, y: Col)
    ensures Plus(Plus(x, r), y) == Plus(Plus(y, r), x)
  {
  }

  /** A combination is unchanged when two terms are exchanged for two terms with the same sum. */
  lemma CombExchange(t: seq<int>, cols: seq<Col>, i: nat, j: nat, ti: int, tj: int, x: Col, y: Col)
    requires |t| == |cols| && i < |cols| && j < |cols| && i != j
    requires Plus(Times(ti, x), Times(tj, y)) == Plus(Times(t[i], cols[i]), Times(t[j], cols[j]))
    ensures Comb(t[i := ti][j := tj], cols[i := x][j := y]) == Comb(t, cols)
  {
    var t1, c1 := t[i := ti], cols[i := x];
    CombUpdate(t, cols, i, ti, x);
    CombUpdate(t1, c1, j, tj, y);
    var s, s1, s2 := Comb(t, cols), Comb(t1, c1), Comb(t1[j := tj], c1[j := y]);
    ExchangeSum(s, s1, s2, Times(t[i], cols[i]), Times(t[j], cols[j]), Times(ti, x), Times(tj, y));
  }

  lemma ExchangeSum(s: Col, s1: Col, s2: Col, p: Col, q: Col, p': Col, q': Col)
    requires Plus(s1, p) == Plus(s, p') && Plus(s2, q) == Plus(s1, q')
    requires Plus(p', q') == Plus(p, q)
    ensures s2 == s
  {
  }

  /** The columns generate every (a; b): together they are a basis change of the identity tracker. */
  ghost predicate Generates(l1: Lattice, l2: Lattice, cols: seq<Col>) {
    forall a: Vec, b: Vec :: Reaches(cols, Col(Residual(l1, l2, a, b), a, b))
  }

  ghost predicate Reaches(cols: seq<Col>, x: Col) {
    exists t: seq<int> :: |t| == |cols| && Comb(t, cols) == x
  }

  ghost predicate Unimodular(l1: Lattice, l2: Lattice, cols: seq<Col>) {
    && |cols| == 8
    && (forall c: nat | c < 8 :: TracksAt(l1, l2, cols, c))
    && Generates(l1, l2, cols)
  }

  predicate TracksAt(l1: Lattice, l2: Lattice, cols: seq<Col>, c: nat)
    requires c < |cols|
  {
    Tracks(l1, l2, cols[c])
  }

  /** A change of two columns that can be undone by integer coefficients loses nothing. */
  lemma ExchangeUnimodular(l1: Lattice, l2: Lattice, cols: seq<Col>, i: nat, j: nat, x: Col, y: Col, p: int, q: int, r: int, s: int)
    requires Unimodular(l1, l2, cols) && i < 8 && j < 8 && i != j
    requires Tracks(l1, l2, x) && Tracks(l1, l2, y)
    requires cols[i] == Plus(Times(p, x), Times(q, y))
    requires cols[j] == Plus(Times(r, x), Times(s, y))
    ensures Unimodular(l1, l2, cols[i := x][j := y])
  {
    var cols' := cols[i := x][j := y];
    forall c: nat | c < 8 ensures TracksAt(l1, l2, cols', c) {
      assert TracksAt(l1, l2, cols, c);
    }
    forall a: Vec, b: Vec ensures Reaches(cols[i := x][j := y], Col(Residual(l1, l2, a, b), a, b)) {
      assert Reaches(cols, Col(Residual(l1, l2, a, b), a, b));
      ExchangeReaches(cols, i, j, x, y, p, q, r, s, Col(Residual(l1, l2, a, b), a, b));
    }
  }

  lemma ExchangeReaches(cols: seq<Col>, i: nat, j: nat, x: Col, y: Col, p: int, q: int, r: int, s: int, z: Col)
    requires i < |cols| && j < |cols| && i != j && Reaches(cols, z)
    requires cols[i] == Plus(Times(p, x), Times(q, y))
    requires cols[j] == Plus(Times(r, x), Times(s, y))
    ensures Reaches(cols[i := x][j := y], z)
  {
    var t: seq<int> :| |t| == |cols| && Comb(t, cols) == z;
    var ti, tj := t[i] * p + t[j] * r, t[i] * q + t[j] * s;
    TermsRegroup(t[i], t[j], p, q, r, s, x, y);
    CombExchange(t, cols, i, j, ti, tj, x, y);
    assert Comb(t[i := ti][j := tj], cols[i := x][j := y]) == z;
  }

  lemma TermsRegroup(i: int, j: int, p: int, q: int, r: int, s: int, x: Col, y: Col)
    ensures Plus(Times(i * p + j * r, x), Times(i * q + j * s, y))
         == Plus(Times(i, Plus(Times(p, x), Times(q, y))), Times(j, Plus(Times(r, x), Times(s, y))))
  {
    VecRegroup(i, j, p, q, r, s, x.top, y.top);
    VecRegroup(i, j, p, q, r, s, x.a, y.a);
    VecRegroup(i, j, p, q, r, s, x.b, y.b);
  }

  lemma VecRegroup(i: int, j: int, p: int, q: int, r: int, s: int, u: Vec, v: Vec)
    ensures Add(Scale(i * p + j * r, u), Scale(i * q + j * s, v))
         == Add(Scale(i, Add(Scale(p, u), Scale(q, v))), Scale(j, Add(Scale(r, u), Scale(s, v))))
  {
    IntRegroup(i, j, p, q, r, s, u.a, v.a);
    IntRegroup(i, j, p, q, r, s, u.b, v.b);
    IntRegroup(i, j, p, q, r, s, u.c, v.c);
    IntRegroup(i, j, p, q, r, s, u.d, v.d);
  }

  lemma IntRegroup(i: int, j: int, p: int, q: int, r: int, s: int, u: int, v: int)
    ensures (i * p + j * r) * u + (i * q + j * s) * v == i * (p * u + q * v) + j * (r * u + s * v)
  {
  }

  // ----- the elimination steps -----

  /** The extended-gcd step on two columns: one gets the gcd in the pivot row, the other zero. */
  method Combine(cols: array<Col>, pc: nat, col: nat, row: nat, ghost l1: Lattice, ghost l2: Lattice)
    requires cols.Length == 8 && pc < 8 && col < 8 && pc != col && row < 4
    requires Unimodular(l1, l2, cols[..])
    requires At(cols[pc].top, row) != 0 && At(cols[col].top, row) != 0
    modifies cols
    ensures Unimodular(l1, l2, cols[..])
    ensures At(cols[pc].top, row) > 0 && At(cols[col].top, row) == 0
    ensures forall c | 0 <= c < 8 && c != pc && c != col :: cols[c] == old(cols[c])
    ensures forall s: nat | s < 4 && At(old(cols[pc]).top, s) == 0 && At(old(cols[col]).top, s) == 0 ::
              At(cols[pc].top, s) == 0 && At(cols[col].top, s) == 0
  {
    var piv, entry := At(cols[pc].top, row), At(cols[col].top, row);
    var g, u, v := Xgcd(piv, entry);
    var p, e := piv / g, entry / g;
    DivisorQuotient(g, piv);
    DivisorQuotient(g, entry);
    var oldPc, oldCol := cols[pc], cols[col];
    XgcdStep(l1, l2, cols[..], pc, col, g, u, v, p, e, row);
    cols[pc] := Plus(Times(u, oldPc), Times(v, oldCol));
    cols[col] := Plus(Times(p, oldCol), Times(-e, oldPc));
    assert cols[..] == old(cols[..])[pc := cols[pc]][col := cols[col]];
  }

  lemma XgcdStep(l1: Lattice, l2: Lattice, cols: seq<Col>, pc: nat, col: nat, g: int, u: int, v: int, p: int, e: int, row: nat)
    requires Unimodular(l1, l2, cols) && pc < 8 && col < 8 && pc != col && row < 4 && g > 0
    requires At(cols[pc].top, row) == g * p && At(cols[col].top, row) == g * e
    requires g == u * At(cols[pc].top, row) + v * At(cols[col].top, row)
    ensures var x, y := Plus(Times(u, cols[pc]), Times(v, cols[col])), Plus(Times(p, cols[col]), Times(-e, cols[pc]));
            && Unimodular(l1, l2, cols[pc := x][col := y])
            && At(x.top, row) == g && At(y.top, row) == 0
            && forall s: nat | s < 4 && At(cols[pc].top, s) == 0 && At(cols[col].top, s) == 0 ::
                 At(x.top, s) == 0 && At(y.top, s) == 0
  {
    var x, y := Plus(Times(u, cols[pc]), Times(v, cols[col])), Plus(Times(p, cols[col]), Times(-e, cols[pc]));
    BezoutUnit(g, u, v, p, e);
    XgcdInverse(cols[pc], cols[col], u, v, p, e);
    assert TracksAt(l1, l2, cols, pc) && TracksAt(l1, l2, cols, col);
    TracksCombination(l1, l2, u, cols[pc], v, cols[col]);
    TracksCombination(l1, l2, p, cols[col], -e, cols[pc]);
    ExchangeUnimodular(l1, l2, cols, pc, col, x, y, p, -v, e, u);
    AtCombination(u, cols[pc].top, v, cols[col].top);
    AtCombination(p, cols[col].top, -e, cols[pc].top);
    Balanced(g, p, e);
  }

  lemma Balanced(g: int, p: int, e: int)
    ensures p * (g * e) + -e * (g * p) == 0
  {
  }

  lemma TracksCombination(l1: Lattice, l2: Lattice, j: int, x: Col, k: int, y: Col)
    requires Tracks(l1, l2, x) && Tracks(l1, l2, y)
    ensures Tracks(l1, l2, Plus(Times(j, x), Times(k, y)))
  {
    TracksLinear(l1, l2, x, x, j);
    TracksLinear(l1, l2, y, y, k);
    TracksLinear(l1, l2, Times(j, x), Times(k, y), 0);
  }

  lemma DivisorQuotient(g: int, x: int)
    requires g != 0 && Divides(g, x)
    ensures x == g * (x / g)
  {
    var k: int :| x == g * k;
    ExactQuotient(g, k);
  }

  lemma BezoutUnit(g: int, u: int, v: int, p: int, e: int)
    requires g != 0 && g == u * (g * p) + v * (g * e)
    ensures u * p + v * e == 1
  {
    assert u * (g * p) + v * (g * e) == g * (u * p + v * e);
    CancelFactor(g, u * p + v * e, 1);
  }

  lemma AtCombination(j: int, u: Vec, k: int, v: Vec)
    ensures forall s: nat | s < 4 :: At(Add(Scale(j, u), Scale(k, v)), s) == j * At(u, s) + k * At(v, s)
  {
  }

  /** The step has determinant one, so the old columns come back with integer coefficients. */
  lemma XgcdInverse(x: Col, y: Col, u: int, v: int, p: int, e: int)
    requires u * p + v * e == 1
    ensures var x', y' := Plus(Times(u, x), Times(v, y)), Plus(Times(p, y), Times(-e, x));
            x == Plus(Times(p, x'), Times(-v, y')) && y == Plus(Times(e, x'), Times(u, y'))
  {
    VecInverse(x.top, y.top, u, v, p, e);
    VecInverse(x.a, y.a, u, v, p, e);
    VecInverse(x.b, y.b, u, v, p, e);
  }

  lemma VecInverse(x: Vec, y: Vec, u: int, v: int, p: int, e: int)
    requires u * p + v * e == 1
    ensures var x', y' := Add(Scale(u, x), Scale(v, y)), Add(Scale(p, y), Scale(-e, x));
            x == Add(Scale(p, x'), Scale(-v, y')) && y == Add(Scale(e, x'), Scale(u, y'))
  {
    IntInverse(x.a, y.a, u, v, p, e);
    IntInverse(x.b, y.b, u, v, p, e);
    IntInverse(x.c, y.c, u, v, p, e);
    IntInverse(x.d, y.d, u, v, p, e);
  }

  lemma IntInverse(x: int, y: int, u: int, v: int, p: int, e: int)
    requires u * p + v * e == 1
    ensures p * (u * x + v * y) + -v * (p * y + -e * x) == x
    ensures e * (u * x + v * y) + u * (p * y + -e * x) == y
  {
    assert p * (u * x + v * y) + -v * (p * y + -e * x) == (u * p + v * e) * x;
    assert e * (u * x + v * y) + u * (p * y + -e * x) == (u * p + v * e) * y;
  }

  method MakePositive(cols: array<Col>, pc: nat, row: nat, ghost l1: Lattice, ghost l2: Lattice)
    requires cols.Length == 8 && pc < 8 && row < 4
    requires Unimodular(l1, l2, cols[..]) && At(cols[pc].top, row) != 0
    modifies cols
    ensures Unimodular(l1, l2, cols[..]) && At(cols[pc].top, row) > 0
    ensures forall c | 0 <= c < 8 && c != pc :: cols[c] == old(cols[c])
    ensures forall s: nat | s < 4 && At(old(cols[pc]).top, s) == 0 :: At(cols[pc].top, s) == 0
  {
    if At(cols[pc].top, row) < 0 {
      ghost var other := if pc == 0 then 1 else 0;
      NegateStep(l1, l2, cols[..], pc, other);
      AtCombination(-1, cols[pc].top, 0, cols[pc].top);
      cols[pc] := Times(-1, cols[pc]);
      assert cols[..] == old(cols[..])[pc := cols[pc]];
    }
  }

  lemma NegateStep(l1: Lattice, l2: Lattice, cols: seq<Col>, pc: nat, other: nat)
    requires Unimodular(l1, l2, cols) && pc < 8 && other < 8 && other != pc
    ensures Unimodular(l1, l2, cols[pc := Times(-1, cols[pc])])
    ensures forall s: nat | s < 4 :: At(Times(-1, cols[pc]).top, s) == -At(cols[pc].top, s)
  {
    var x, y := Times(-1, cols[pc]), cols[other];
    assert TracksAt(l1, l2, cols, pc) && TracksAt(l1, l2, cols, other);
    TracksLinear(l1, l2, cols[pc], cols[pc], -1);
    assert cols[pc] == Plus(Times(-1, x), Times(0, y));
    assert cols[other] == Plus(Times(0, x), Times(1, y));
    ExchangeUnimodular(l1, l2, cols, pc, other, x, y, -1, 0, 0, 1);
    assert cols[pc := x][other := y] == cols[pc := x];
  }

  /** Subtracting a multiple of the pivot column from another column. */
  method ReduceColumn(cols: array<Col>, pc: nat, col: nat, row: nat, ghost l1: Lattice, ghost l2: Lattice)
    requires cols.Length == 8 && pc < 8 && col < 8 && pc != col && row < 4
    requires Unimodular(l1, l2, cols[..]) && At(cols[pc].top, row) > 0
    modifies cols
    ensures Unimodular(l1, l2, cols[..])
    ensures forall c | 0 <= c < 8 && c != col :: cols[c] == old(cols[c])
    ensures 0 <= At(cols[col].top, row) < At(cols[pc].top, row)
    ensures old(At(cols[col].top, row)) == 0 ==> cols[col] == old(cols[col])
    ensures forall s: nat | s < 4 && At(old(cols[pc]).top, s) == 0 :: At(cols[col].top, s) == At(old(cols[col]).top, s)
  {
    var piv, entry := At(cols[pc].top, row), At(cols[col].top, row);
    if entry == 0 {
      return;
    }
    var q := entry / piv;
    DivisionLaw(entry, piv);
    ReduceStep(l1, l2, cols[..], pc, col, q);
    if q != 0 {
      cols[col] := Plus(cols[col], Times(-q, cols[pc]));
      assert cols[..] == old(cols[..])[col := cols[col]];
    }
  }

  lemma ReduceStep(l1: Lattice, l2: Lattice, cols: seq<Col>, pc: nat, col: nat, q: int)
    requires Unimodular(l1, l2, cols) && pc < 8 && col < 8 && pc != col
    ensures Unimodular(l1, l2, cols[col := Plus(cols[col], Times(-q, cols[pc]))])
    ensures forall s: nat | s < 4 ::
              At(Plus(cols[col], Times(-q, cols[pc])).top, s) == At(cols[col].top, s) - At(cols[pc].top, s) * q
  {
    var x, y := cols[pc], Plus(cols[col], Times(-q, cols[pc]));
    assert TracksAt(l1, l2, cols, pc) && TracksAt(l1, l2, cols, col);
    TracksLinear(l1, l2, cols[pc], cols[pc], -q);
    TracksLinear(l1, l2, cols[col], Times(-q, cols[pc]), 0);
    Keep(x, y);
    Undo(cols[col], x, q);
    ExchangeUnimodular(l1, l2, cols, pc, col, x, y, 1, 0, q, 1);
    assert cols[pc := x][col := y] == cols[col := y];
    AtReduced(cols[col].top, cols[pc].top, q);
  }

  lemma Keep(x: Col, y: Col)
    ensures x == Plus(Times(1, x), Times(0, y))
  {
  }

  lemma AtReduced(u: Vec, v: Vec, q: int)
    ensures forall s: nat | s < 4 :: At(Add(u, Scale(-q, v)), s) == At(u, s) - At(v, s) * q
  {
  }

  lemma Undo(c: Col, x: Col, q: int)
    ensures c == Plus(Times(q, x), Times(1, Plus(c, Times(-q, x))))
  {
    UndoVec(c.top, x.top, q);
    UndoVec(c.a, x.a, q);
    UndoVec(c.b, x.b, q);
  }

  lemma UndoVec(c: Vec, x: Vec, q: int)
    ensures c == Add(Scale(q, x), Scale(1, Add(c, Scale(-q, x))))
  {
  }

  // ----- echelon form on the constraint rows -----

  /** Column c is zero in constraint row s, unless it is a pivot of that row or an earlier one. */
  predicate Clear(cols: seq<Col>, piv: seq<nat>, s: nat, c: nat)
    requires s < |piv| <= 4 && c < |cols|
  {
    c in piv[..s + 1] || At(cols[c].top, s) == 0
  }

  predicate HasPivot(cols: seq<Col>, piv: seq<nat>, s: nat)
    requires s < |piv| <= 4
  {
    piv[s] < |cols| && At(cols[piv[s]].top, s) != 0
  }

  /** One pivot per processed row; below it, only the pivots of earlier rows may be non-zero. */
  ghost predicate Echelon(cols: seq<Col>, piv: seq<nat>) {
    && |piv| <= 4
    && (forall s: nat | s < |piv| :: HasPivot(cols, piv, s))
    && (forall s: nat, c: nat | s < |piv| && c < |cols| :: Clear(cols, piv, s, c))
  }

  lemma {:induction false} CombRow(t: seq<int>, cols: seq<Col>, s: nat, p: nat)
    requires |t| == |cols| && s < 4
    requires forall c | 0 <= c < |cols| && c != p :: t[c] == 0 || At(cols[c].top, s) == 0
    ensures At(Comb(t, cols).top, s) == if p < |cols| then t[p] * At(cols[p].top, s) else 0
  {
    if cols != [] {
      AtTimes(t[0], cols[0], Comb(t[1..], cols[1..]), s);
      if p == 0 {
        CombRow(t[1..], cols[1..], s, |cols|);
      } else {
        CombRow(t[1..], cols[1..], s, p - 1);
        assert t[0] * At(cols[0].top, s) == 0;
      }
    }
  }

  lemma AtTimes(k: int, x: Col, y: Col, s: nat)
    requires s < 4
    ensures At(Plus(Times(k, x), y).top, s) == k * At(x.top, s) + At(y.top, s)
  {
  }

  predicate Vanishes(v: Vec, n: nat) {
    n <= 4 && forall s: nat | s < n :: At(v, s) == 0
  }

  predicate Unused(t: seq<int>, piv: seq<nat>, n: nat) {
    n <= |piv| && forall s | 0 <= s < n :: piv[s] < |t| && t[piv[s]] == 0
  }

  /** A combination whose first constraint rows vanish does not use the pivot columns of those rows. */
  lemma {:induction false} PivotsUnused(t: seq<int>, cols: seq<Col>, piv: seq<nat>, n: nat, v: Vec)
    requires |t| == |cols| == 8 && Echelon(cols, piv) && n <= |piv|
    requires v == Comb(t, cols).top && Vanishes(v, n)
    ensures Unused(t, piv, n)
  {
    if n > 0 {
      assert Vanishes(v, n - 1);
      PivotsUnused(t, cols, piv, n - 1, v);
      PivotUnused(t, cols, piv, n - 1, v);
    }
  }

  lemma PivotUnused(t: seq<int>, cols: seq<Col>, piv: seq<nat>, m: nat, v: Vec)
    requires |t| == |cols| == 8 && Echelon(cols, piv) && m < |piv|
    requires v == Comb(t, cols).top && At(v, m) == 0
    requires Unused(t, piv, m)
    ensures Unused(t, piv, m + 1)
  {
    var p := piv[m];
    assert HasPivot(cols, piv, m);
    forall c: nat | c < 8 && c != p ensures t[c] == 0 || At(cols[c].top, m) == 0 {
      assert Clear(cols, piv, m, c);
      if c in piv[..m + 1] {
        var s :| 0 <= s < m + 1 && piv[s] == c;
      }
    }
    CombRow(t, cols, m, p);
    ZeroFactor(t[p], At(cols[p].top, m));
  }

  lemma ZeroFactor(x: int, y: int)
    requires x * y == 0 && y != 0
    ensures x == 0
  {
  }

  /** With a full-rank first lattice every row has a pivot. */
  lemma PivotExists(l1: Lattice, l2: Lattice, cols: seq<Col>, piv: seq<nat>)
    requires FullRank(l1) && l2.denom != 0 && Unimodular(l1, l2, cols) && Echelon(cols, piv) && |piv| < 4
    ensures exists c :: 0 <= c < 8 && c !in piv && At(cols[c].top, |piv|) != 0
  {
    var r, a := |piv|, Eval(Adjugate(l1.basis), Unit(|piv|));
    var n := l2.denom * Det(l1.basis);
    UnitResidual(l1, l2, Unit(r));
    UnitEntries(n, r);
    NonZeroProduct(l2.denom, Det(l1.basis));
    assert Reaches(cols, Col(Residual(l1, l2, a, ZERO), a, ZERO));
    var t: seq<int> :| |t| == 8 && Comb(t, cols) == Col(Residual(l1, l2, a, ZERO), a, ZERO);
    PivotsUnused(t, cols, piv, r, Scale(n, Unit(r)));
    if forall c | 0 <= c < 8 && c !in piv :: At(cols[c].top, r) == 0 {
      forall c | 0 <= c < 8 ensures t[c] == 0 || At(cols[c].top, r) == 0 {
        if c in piv {
          var s :| 0 <= s < r && piv[s] == c;
        }
      }
      CombRow(t, cols, r, 8);
    }
  }

  lemma UnitResidual(l1: Lattice, l2: Lattice, v: Vec)
    ensures Residual(l1, l2, Eval(Adjugate(l1.basis), v), ZERO) == Scale(l2.denom * Det(l1.basis), v)
  {
    AdjugateInverts(l1.basis, v);
    ScaleTwice(l2.denom, Det(l1.basis), v);
    ZeroPart(l1.denom, l2.basis, Scale(l2.denom, Eval(l1.basis, Eval(Adjugate(l1.basis), v))));
  }

  lemma UnitEntries(n: int, r: nat)
    requires r < 4
    ensures At(Scale(n, Unit(r)), r) == n && forall s: nat | s < 4 && s != r :: At(Scale(n, Unit(r)), s) == 0
  {
  }

  lemma ZeroPart(k: int, m: Mat, u: Vec)
    ensures Add(u, Scale(-k, Eval(m, ZERO))) == u
  {
    assert Eval(m, ZERO) == ZERO;
  }

  lemma NonZeroProduct(x: int, y: int)
    ensures x != 0 && y != 0 ==> x * y != 0
  {
  }

  /** Column c vanishes in the first constraint rows. */
  predicate ZeroAbove(cols: seq<Col>, c: nat, row: nat)
    requires c < |cols|
  {
    Vanishes(cols[c].top, row)
  }

  ghost predicate FreeColumnsZero(cols: seq<Col>, piv: seq<nat>) {
    forall c: nat | c < |cols| && c !in piv :: ZeroAbove(cols, c, |piv|)
  }

  lemma EchelonFree(cols: seq<Col>, piv: seq<nat>)
    requires |cols| == 8 && Echelon(cols, piv)
    ensures FreeColumnsZero(cols, piv)
  {
    forall c: nat | c < 8 && c !in piv ensures ZeroAbove(cols, c, |piv|) {
      forall s: nat | s < |piv| ensures At(cols[c].top, s) == 0 {
        assert Clear(cols, piv, s, c);
      }
    }
  }

  lemma EchelonKept(was: seq<Col>, cols: seq<Col>, piv: seq<nat>)
    requires |was| == |cols| == 8 && Echelon(was, piv)
    requires forall c: nat | c < 8 && c in piv :: cols[c] == was[c]
    requires FreeColumnsZero(cols, piv)
    ensures Echelon(cols, piv)
  {
    forall s: nat | s < |piv| ensures HasPivot(cols, piv, s) {
      assert HasPivot(was, piv, s);
    }
    forall s: nat, c: nat | s < |piv| && c < 8 ensures Clear(cols, piv, s, c) {
      assert Clear(was, piv, s, c);
      if c !in piv {
        assert ZeroAbove(cols, c, |piv|);
      }
    }
  }

  lemma EchelonExtend(cols: seq<Col>, piv: seq<nat>, pc: nat)
    requires |cols| == 8 && Echelon(cols, piv) && |piv| < 4 && pc < 8 && pc !in piv
    requires At(cols[pc].top, |piv|) != 0
    requires forall c: nat | c < 8 && c != pc && c !in piv :: At(cols[c].top, |piv|) == 0
    ensures Echelon(cols, piv + [pc])
  {
    var piv' := piv + [pc];
    forall s: nat | s < |piv'| ensures HasPivot(cols, piv', s) {
      if s < |piv| {
        assert HasPivot(cols, piv, s);
      }
    }
    forall s: nat, c: nat | s < |piv'| && c < 8 ensures Clear(cols, piv', s, c) {
      if s < |piv| {
        assert Clear(cols, piv, s, c);
        assert piv'[..s + 1] == piv[..s + 1];
      } else {
        assert piv'[..s + 1] == piv';
      }
    }
  }

  /** Accumulates the gcd of one constraint row into a pivot column, clearing the other free columns. */
  method FindPivot(cols: array<Col>, piv: seq<nat>, ghost l1: Lattice, ghost l2: Lattice) returns (pc: nat)
    requires cols.Length == 8 && FullRank(l1) && l2.denom != 0
    requires Unimodular(l1, l2, cols[..]) && Echelon(cols[..], piv) && |piv| < 4
    modifies cols
    ensures Unimodular(l1, l2, cols[..]) && Echelon(cols[..], piv)
    ensures pc < 8 && pc !in piv && At(cols[pc].top, |piv|) != 0
    ensures forall c: nat | c < 8 && c != pc && c !in piv :: At(cols[c].top, |piv|) == 0
  {
    ghost var was := cols[..];
    var row := |piv|;
    EchelonFree(cols[..], piv);
    var found := false;
    pc := 0;
    var col := 0;
    while col < 8
      invariant 0 <= col <= 8
      invariant Unimodular(l1, l2, cols[..])
      invariant forall c: nat | c < 8 && c in piv :: cols[c] == was[c]
      invariant FreeColumnsZero(cols[..], piv)
      invariant !found ==> cols[..] == was
      invariant found ==> pc < col && pc !in piv && At(cols[pc].top, row) != 0
      invariant forall c: nat | c < col && c !in piv && !(found && c == pc) :: At(cols[c].top, row) == 0
    {
      if col !in piv && At(cols[col].top, row) != 0 {
        if !found {
          found, pc := true, col;
        } else {
          assert ZeroAbove(cols[..], pc, row) && ZeroAbove(cols[..], col, row);
          ghost var before := cols[..];
          Combine(cols, pc, col, row, l1, l2);
          forall c: nat | c < 8 && c !in piv ensures ZeroAbove(cols[..], c, row) {
            assert ZeroAbove(before, c, row);
          }
        }
      }
      col := col + 1;
    }
    EchelonKept(was, cols[..], piv);
    if !found {
      PivotExists(l1, l2, cols[..], piv);
      assert false;
    }
  }

  /** One row of the column Hermite form: a positive pivot, zero right of it, residues below it. */
  method EliminateRow(cols: array<Col>, piv: seq<nat>, ghost l1: Lattice, ghost l2: Lattice) returns (pc: nat)
    requires cols.Length == 8 && FullRank(l1) && l2.denom != 0
    requires Unimodular(l1, l2, cols[..]) && Echelon(cols[..], piv) && |piv| < 4
    modifies cols
    ensures Unimodular(l1, l2, cols[..]) && pc < 8 && pc !in piv
    ensures Echelon(cols[..], piv + [pc])
    ensures At(cols[pc].top, |piv|) > 0
    ensures forall c: nat | c < 8 && c != pc :: 0 <= At(cols[c].top, |piv|) < At(cols[pc].top, |piv|)
  {
    pc := FindPivot(cols, piv, l1, l2);
    var row := |piv|;
    ghost var found := cols[..];
    EchelonFree(found, piv);
    assert ZeroAbove(found, pc, row);
    MakePositive(cols, pc, row, l1, l2);
    forall c: nat | c < 8 && c !in piv ensures ZeroAbove(cols[..], c, row) {
      assert ZeroAbove(found, c, row);
    }
    EchelonKept(found, cols[..], piv);
    var col := 0;
    while col < 8
      invariant 0 <= col <= 8
      invariant Unimodular(l1, l2, cols[..]) && Echelon(cols[..], piv)
      invariant At(cols[pc].top, row) > 0 && ZeroAbove(cols[..], pc, row)
      invariant forall c: nat | c < 8 && c != pc && c !in piv :: At(cols[c].top, row) == 0
      invariant forall c: nat | c < col && c != pc :: 0 <= At(cols[c].top, row) < At(cols[pc].top, row)
    {
      if col != pc {
        ghost var before := cols[..];
        ReduceColumn(cols, pc, col, row, l1, l2);
        EchelonSameRows(before, cols[..], piv);
      }
      col := col + 1;
    }
    EchelonExtend(cols[..], piv, pc);
  }

  lemma EchelonSameRows(was: seq<Col>, cols: seq<Col>, piv: seq<nat>)
    requires |was| == |cols| == 8 && Echelon(was, piv)
    requires forall c: nat, s: nat | c < 8 && s < |piv| :: At(cols[c].top, s) == At(was[c].top, s)
    ensures Echelon(cols, piv)
  {
    forall s: nat | s < |piv| ensures HasPivot(cols, piv, s) {
      assert HasPivot(was, piv, s);
    }
    forall s: nat, c: nat | s < |piv| && c < 8 ensures Clear(cols, piv, s, c) {
      assert Clear(was, piv, s, c);
    }
  }

  // ----- the kernel columns generate the intersection -----

  predicate TopZero(cols: seq<Col>, c: nat)
    requires c < |cols|
  {
    cols[c].top == ZERO
  }

  /** The indices of the columns with an all-zero top block, in order. */
  function KernelColumns(cols: seq<Col>): (idx: seq<nat>)
    ensures forall k | 0 <= k < |idx| :: idx[k] < |cols| && TopZero(cols, idx[k])
  {
    if cols == [] then [] else
      var n := |cols| - 1;
      KernelColumns(cols[..n]) + if TopZero(cols, n) then [n] else []
  }

  /** With four pivots, exactly the four other columns have a zero top block. */
  lemma FourKernelColumns(cols: seq<Col>, piv: seq<nat>)
    requires |cols| == 8 && Echelon(cols, piv) && |piv| == 4
    requires forall i, j | 0 <= i < j < 4 :: piv[i] != piv[j]
    ensures forall c: nat | c < 8 :: TopZero(cols, c) <==> c !in piv
    ensures |KernelColumns(cols)| == 4
  {
    forall c: nat | c < 8 ensures TopZero(cols, c) <==> c !in piv {
      KernelOrPivot(cols, piv, c);
    }
    KernelCount(cols, 8);
    assert cols[..8] == cols;
    forall s: nat | s < 4 ensures piv[s] < 8 {
      assert HasPivot(cols, piv, s);
    }
    ComplementSize(piv, set c: nat | c < 8 && TopZero(cols, c), 8);
  }

  lemma KernelOrPivot(cols: seq<Col>, piv: seq<nat>, c: nat)
    requires |cols| == 8 && Echelon(cols, piv) && |piv| == 4 && c < 8
    ensures TopZero(cols, c) <==> c !in piv
  {
    if c in piv {
      var s: nat :| s < 4 && piv[s] == c;
      assert HasPivot(cols, piv, s);
      ZeroEntries(s);
    } else {
      EchelonFree(cols, piv);
      assert ZeroAbove(cols, c, 4);
      VanishingIsZero(cols[c].top);
    }
  }

  lemma ComplementSize(piv: seq<nat>, rest: set<nat>, n: nat)
    requires (forall i, j | 0 <= i < j < |piv| :: piv[i] != piv[j]) && forall s: nat | s < |piv| :: piv[s] < n
    requires forall c: nat :: c in rest <==> c < n && c !in piv
    ensures |rest| == n - |piv|
  {
    var pivots := Elements(piv);
    assert rest == Below(n) - pivots;
    assert Below(n) * pivots == pivots;
  }

  function Elements(piv: seq<nat>): (r: set<nat>)
    requires forall i, j | 0 <= i < j < |piv| :: piv[i] != piv[j]
    ensures |r| == |piv| && forall c: nat :: c in r <==> c in piv
  {
    if piv == [] then {} else Elements(piv[1..]) + {piv[0]}
  }

  lemma ZeroEntries(s: nat)
    requires s < 4
    ensures At(ZERO, s) == 0
  {
  }

  lemma VanishingIsZero(v: Vec)
    requires Vanishes(v, 4)
    ensures v == ZERO
  {
    assert At(v, 0) == 0 && At(v, 1) == 0 && At(v, 2) == 0 && At(v, 3) == 0;
  }

  function Below(n: nat): (r: set<nat>)
    ensures |r| == n && forall c: nat :: c in r <==> c < n
  {
    if n == 0 then {} else Below(n - 1) + {n - 1}
  }

  lemma {:induction false} KernelCount(cols: seq<Col>, n: nat)
    requires n <= |cols|
    ensures |KernelColumns(cols[..n])| == |set c: nat | c < n && TopZero(cols, c)|
  {
    var s := set c: nat | c < n && TopZero(cols, c);
    if n == 0 {
      assert s == {};
    } else {
      KernelCount(cols, n - 1);
      assert cols[..n][..n - 1] == cols[..n - 1];
      var s' := set c: nat | c < n - 1 && TopZero(cols, c);
      assert TopZero(cols[..n], n - 1) == TopZero(cols, n - 1);
      if TopZero(cols, n - 1) {
        assert s == s' + {n - 1};
      } else {
        assert s == s';
      }
    }
  }

  /** The same combination over a selection of the columns. */
  function Select<T>(xs: seq<T>, idx: seq<nat>): (r: seq<T>)
    requires forall k | 0 <= k < |idx| :: idx[k] < |xs|
    ensures |r| == |idx|
  {
    seq(|idx|, k requires 0 <= k < |idx| => xs[idx[k]])
  }

  lemma {:induction false} CombSnoc(t: seq<int>, cols: seq<Col>, k: int, x: Col)
    requires |t| == |cols|
    ensures Comb(t + [k], cols + [x]) == Plus(Comb(t, cols), Times(k, x))
  {
    if cols == [] {
      assert t + [k] == [k] && cols + [x] == [x];
      assert [k][1..] == [] && [x][1..] == [];
      PlusLaws(Times(k, x), ZEROCOL, ZEROCOL);
    } else {
      assert (t + [k])[1..] == t[1..] + [k] && (cols + [x])[1..] == cols[1..] + [x];
      CombSnoc(t[1..], cols[1..], k, x);
      PlusLaws(Times(t[0], cols[0]), Comb(t[1..], cols[1..]), Times(k, x));
    }
  }

  predicate ZeroOff(t: seq<int>, cols: seq<Col>)
    requires |t| == |cols|
  {
    forall c: nat | c < |cols| && !TopZero(cols, c) :: t[c] == 0
  }

  /** Columns with a zero coefficient can be dropped from a combination. */
  lemma {:induction false} CombSelect(t: seq<int>, cols: seq<Col>)
    requires |t| == |cols| && ZeroOff(t, cols)
    ensures var idx := KernelColumns(cols); Comb(Select(t, idx), Select(cols, idx)) == Comb(t, cols)
  {
    if cols == [] {
      var idx := KernelColumns(cols);
      assert Select(t, idx) == [] && Select(cols, idx) == [];
    } else {
      var n := |cols| - 1;
      var init := cols[..n];
      forall c: nat | c < n && !TopZero(init, c) ensures t[..n][c] == 0 {
        assert !TopZero(cols, c);
      }
      CombSelect(t[..n], init);
      SelectLast(t, cols);
      SelectLast(cols, cols);
      var idx := KernelColumns(init);
      if TopZero(cols, n) {
        SameAppend(t[..n], init, Select(t[..n], idx), Select(init, idx), t[n], cols[n]);
      } else {
        assert t[n] == 0;
        ZeroAppend(t[..n], init, t[n], cols[n]);
      }
    }
  }

  lemma SelectLast<T>(xs: seq<T>, cols: seq<Col>)
    requires |xs| == |cols| > 0
    ensures var n := |cols| - 1; var idx := KernelColumns(cols[..n]);
            && xs == xs[..n] + [xs[n]]
            && Select(xs, KernelColumns(cols)) == if TopZero(cols, n) then Select(xs[..n], idx) + [xs[n]] else Select(xs[..n], idx)
  {
    var n := |cols| - 1;
    if !TopZero(cols, n) {
      assert KernelColumns(cols) == KernelColumns(cols[..n]);
    }
  }

  lemma SameAppend(t: seq<int>, cols: seq<Col>, t': seq<int>, cols': seq<Col>, k: int, x: Col)
    requires |t| == |cols| && |t'| == |cols'| && Comb(t, cols) == Comb(t', cols')
    ensures Comb(t + [k], cols + [x]) == Comb(t' + [k], cols' + [x])
  {
    CombSnoc(t, cols, k, x);
    CombSnoc(t', cols', k, x);
  }

  lemma ZeroAppend(t: seq<int>, cols: seq<Col>, k: int, x: Col)
    requires |t| == |cols| && k == 0
    ensures Comb(t + [k], cols + [x]) == Comb(t, cols)
  {
    CombSnoc(t, cols, k, x);
    TimesZero(x, Comb(t, cols));
  }

  lemma TimesZero(x: Col, y: Col)
    ensures Plus(y, Times(0, x)) == y
  {
  }

  /** Integer combinations of a list of vectors. */
  function VecComb(t: seq<int>, vs: seq<Vec>): Vec
    requires |t| == |vs|
  {
    if vs == [] then ZERO else Add(Scale(t[0], vs[0]), VecComb(t[1..], vs[1..]))
  }

  ghost predicate InSpan(vs: seq<Vec>, v: Vec) {
    exists t: seq<int> :: |t| == |vs| && VecComb(t, vs) == v
  }

  function Images(m: Mat, cols: seq<Col>): (vs: seq<Vec>)
    ensures |vs| == |cols|
  {
    seq(|cols|, k requires 0 <= k < |cols| => Eval(m, cols[k].a))
  }

  lemma {:induction false} ImageOfComb(m: Mat, t: seq<int>, cols: seq<Col>)
    requires |t| == |cols|
    ensures VecComb(t, Images(m, cols)) == Eval(m, Comb(t, cols).a)
  {
    if cols == [] {
    } else {
      assert Images(m, cols)[1..] == Images(m, cols[1..]);
      ImageOfComb(m, t[1..], cols[1..]);
      EvalLinear(m, Scale(t[0], cols[0].a), Comb(t[1..], cols[1..]).a, 0);
      EvalLinear(m, cols[0].a, cols[0].a, t[0]);
    }
  }

  lemma {:induction false} CombTracks(l1: Lattice, l2: Lattice, t: seq<int>, cols: seq<Col>)
    requires |t| == |cols| && forall c: nat | c < |cols| :: TracksAt(l1, l2, cols, c)
    ensures Tracks(l1, l2, Comb(t, cols))
  {
    if cols == [] {
      ZeroTracks(l1, l2);
    } else {
      assert TracksAt(l1, l2, cols, 0);
      var rest := cols[1..];
      forall c: nat | c < |rest| ensures TracksAt(l1, l2, rest, c) {
        assert TracksAt(l1, l2, cols, c + 1);
      }
      CombTracks(l1, l2, t[1..], rest);
      TracksLinear(l1, l2, cols[0], cols[0], t[0]);
      TracksLinear(l1, l2, Times(t[0], cols[0]), Comb(t[1..], rest), 0);
    }
  }

  lemma ZeroTracks(l1: Lattice, l2: Lattice)
    ensures Tracks(l1, l2, ZEROCOL)
  {
  }

  lemma {:induction false} CombOfKernel(t: seq<int>, cols: seq<Col>)
    requires |t| == |cols| && forall c: nat | c < |cols| :: TopZero(cols, c)
    ensures Comb(t, cols).top == ZERO
  {
    if cols != [] {
      var rest := cols[1..];
      forall c: nat | c < |rest| ensures TopZero(rest, c) {
        assert TopZero(cols, c + 1);
      }
      CombOfKernel(t[1..], rest);
      assert TopZero(cols, 0);
      ZeroTop(t[0], cols[0], Comb(t[1..], rest));
    }
  }

  lemma ZeroTop(k: int, x: Col, y: Col)
    requires x.top == ZERO && y.top == ZERO
    ensures Plus(Times(k, x), y).top == ZERO
  {
  }

  /** v, read over the denominator of l1, lies in both lattices: v = B1*a with d2*B1*a = d1*B2*b. */
  ghost predicate Common(l1: Lattice, l2: Lattice, v: Vec) {
    exists a: Vec, b: Vec :: v == Eval(l1.basis, a) && Residual(l1, l2, a, b) == ZERO
  }

  /** The images of the kernel columns generate exactly the common vectors. */
  lemma KernelImages(l1: Lattice, l2: Lattice, cols: seq<Col>, piv: seq<nat>, v: Vec)
    requires Unimodular(l1, l2, cols) && Echelon(cols, piv) && |piv| == 4
    requires forall c: nat | c < 8 :: TopZero(cols, c) <==> c !in piv
    ensures InSpan(Images(l1.basis, Select(cols, KernelColumns(cols))), v) <==> Common(l1, l2, v)
  {
    var idx := KernelColumns(cols);
    var kernel := Select(cols, idx);
    if Common(l1, l2, v) {
      var a: Vec, b: Vec :| v == Eval(l1.basis, a) && Residual(l1, l2, a, b) == ZERO;
      var t := KernelCoefficients(l1, l2, cols, piv, a, b);
      CombSelect(t, cols);
      ImageOfComb(l1.basis, Select(t, idx), kernel);
    }
    if t: seq<int> :| |t| == |kernel| && VecComb(t, Images(l1.basis, kernel)) == v {
      KernelCombination(l1, l2, cols, t, v);
    }
  }

  lemma KernelCombination(l1: Lattice, l2: Lattice, cols: seq<Col>, t: seq<int>, v: Vec)
    requires |cols| == 8 && forall c: nat | c < 8 :: TracksAt(l1, l2, cols, c)
    requires var kernel := Select(cols, KernelColumns(cols)); |t| == |kernel| && VecComb(t, Images(l1.basis, kernel)) == v
    ensures Common(l1, l2, v)
  {
    var idx := KernelColumns(cols);
    var kernel := Select(cols, idx);
    ImageOfComb(l1.basis, t, kernel);
    forall c: nat | c < |kernel| ensures TracksAt(l1, l2, kernel, c) && TopZero(kernel, c) {
      assert TracksAt(l1, l2, cols, idx[c]) && TopZero(cols, idx[c]);
    }
    CombTracks(l1, l2, t, kernel);
    CombOfKernel(t, kernel);
    var x := Comb(t, kernel);
    assert v == Eval(l1.basis, x.a) && Residual(l1, l2, x.a, x.b) == ZERO;
  }

  lemma KernelCoefficients(l1: Lattice, l2: Lattice, cols: seq<Col>, piv: seq<nat>, a: Vec, b: Vec) returns (t: seq<int>)
    requires Unimodular(l1, l2, cols) && Echelon(cols, piv) && |piv| == 4
    requires Residual(l1, l2, a, b) == ZERO
    requires forall c: nat | c < 8 :: TopZero(cols, c) <==> c !in piv
    ensures |t| == 8 && Comb(t, cols) == Col(ZERO, a, b) && ZeroOff(t, cols)
  {
    assert Reaches(cols, Col(Residual(l1, l2, a, b), a, b));
    t :| |t| == 8 && Comb(t, cols) == Col(ZERO, a, b);
    forall s: nat | s < 4 ensures At(ZERO, s) == 0 {
      ZeroEntries(s);
    }
    PivotsUnused(t, cols, piv, 4, ZERO);
    forall c: nat | c < 8 && !TopZero(cols, c) ensures t[c] == 0 {
      var s: nat :| s < 4 && piv[s] == c;
    }
  }

  // ----- the algorithm -----

  /** The starting columns: the scaled basis columns over the identity. */
  function StartColumn(l1: Lattice, l2: Lattice, c: nat): Col
    requires c < 8
  {
    if c < 4 then Col(Scale(l2.denom, Column(l1.basis, c)), Unit(c), ZERO)
    else Col(Scale(-l1.denom, Column(l2.basis, c - 4)), ZERO, Unit(c - 4))
  }

  lemma StartUnimodular(l1: Lattice, l2: Lattice, cols: seq<Col>)
    requires |cols| == 8 && forall c: nat | c < 8 :: cols[c] == StartColumn(l1, l2, c)
    ensures Unimodular(l1, l2, cols)
  {
    forall c: nat | c < 8 ensures TracksAt(l1, l2, cols, c) {
      StartTracks(l1, l2, c);
    }
    forall a: Vec, b: Vec ensures Reaches(cols, Col(Residual(l1, l2, a, b), a, b)) {
      var t := [a.a, a.b, a.c, a.d, b.a, b.b, b.c, b.d];
      CombTracks(l1, l2, t, cols);
      StartComb(l1, l2, cols, a, b, t);
    }
  }

  lemma StartTracks(l1: Lattice, l2: Lattice, c: nat)
    requires c < 8
    ensures Tracks(l1, l2, StartColumn(l1, l2, c))
  {
    var z := Residual(l1, l2, StartColumn(l1, l2, c).a, StartColumn(l1, l2, c).b);
    if c < 4 {
      UnitColumn(l1.basis, c);
      ZeroPart(l1.denom, l2.basis, Scale(l2.denom, Column(l1.basis, c)));
    } else {
      UnitColumn(l2.basis, c - 4);
      ZeroFirst(l2.denom, l1.basis, Scale(-l1.denom, Column(l2.basis, c - 4)));
    }
  }

  lemma UnitColumn(m: Mat, i: nat)
    requires i < 4
    ensures Eval(m, Unit(i)) == Column(m, i)
  {
  }

  lemma ZeroFirst(k: int, m: Mat, u: Vec)
    ensures Add(Scale(k, Eval(m, ZERO)), u) == u
  {
    assert Eval(m, ZERO) == ZERO;
  }

  /** The tracked blocks of the starting columns are the unit vectors. */
  lemma StartComb(l1: Lattice, l2: Lattice, cols: seq<Col>, a: Vec, b: Vec, t: seq<int>)
    requires |cols| == 8 && forall c: nat | c < 8 :: cols[c] == StartColumn(l1, l2, c)
    requires t == [a.a, a.b, a.c, a.d, b.a, b.b, b.c, b.d] && Tracks(l1, l2, Comb(t, cols))
    ensures Comb(t, cols) == Col(Residual(l1, l2, a, b), a, b)
  {
    var as' := seq(8, c requires 0 <= c < 8 => cols[c].a);
    var bs := seq(8, c requires 0 <= c < 8 => cols[c].b);
    CombBlocks(t, cols);
    assert as' == [Unit(0), Unit(1), Unit(2), Unit(3), ZERO, ZERO, ZERO, ZERO];
    assert bs == [ZERO, ZERO, ZERO, ZERO, Unit(0), Unit(1), Unit(2), Unit(3)];
    UnitSum(t, as', bs, a, b);
  }

  lemma {:induction false} CombBlocks(t: seq<int>, cols: seq<Col>)
    requires |t| == |cols|
    ensures Comb(t, cols).a == VecComb(t, seq(|cols|, c requires 0 <= c < |cols| => cols[c].a))
    ensures Comb(t, cols).b == VecComb(t, seq(|cols|, c requires 0 <= c < |cols| => cols[c].b))
  {
    if cols != [] {
      CombBlocks(t[1..], cols[1..]);
      assert seq(|cols|, c requires 0 <= c < |cols| => cols[c].a)[1..]
          == seq(|cols| - 1, c requires 0 <= c < |cols| - 1 => cols[1..][c].a);
      assert seq(|cols|, c requires 0 <= c < |cols| => cols[c].b)[1..]
          == seq(|cols| - 1, c requires 0 <= c < |cols| - 1 => cols[1..][c].b);
    }
  }

  lemma UnitSum(t: seq<int>, as': seq<Vec>, bs: seq<Vec>, a: Vec, b: Vec)
    requires t == [a.a, a.b, a.c, a.d, b.a, b.b, b.c, b.d]
    requires as' == [Unit(0), Unit(1), Unit(2), Unit(3), ZERO, ZERO, ZERO, ZERO]
    requires bs == [ZERO, ZERO, ZERO, ZERO, Unit(0), Unit(1), Unit(2), Unit(3)]
    ensures VecComb(t, as') == a && VecComb(t, bs) == b
  {
    FourUnits(t, as', a);
    FourZeros(t, bs);
    FourUnits(t[4..], bs[4..], b);
  }

  lemma FourUnits(t: seq<int>, vs: seq<Vec>, v: Vec)
    requires |t| == |vs| >= 4 && t[0] == v.a && t[1] == v.b && t[2] == v.c && t[3] == v.d
    requires vs[0] == Unit(0) && vs[1] == Unit(1) && vs[2] == Unit(2) && vs[3] == Unit(3)
    requires forall k | 4 <= k < |vs| :: vs[k] == ZERO
    ensures VecComb(t, vs) == v
  {
    Shifts(t);
    Shifts(vs);
    ConsComb(t, vs);
    ConsComb(t[1..], vs[1..]);
    ConsComb(t[2..], vs[2..]);
    ConsComb(t[3..], vs[3..]);
    ZeroComb(t[4..], vs[4..]);
    SumOfUnits(v);
  }

  lemma FourZeros(t: seq<int>, vs: seq<Vec>)
    requires |t| == |vs| >= 4 && vs[0] == vs[1] == vs[2] == vs[3] == ZERO
    ensures VecComb(t, vs) == VecComb(t[4..], vs[4..])
  {
    Shifts(t);
    Shifts(vs);
    ZeroPrefix(t, vs);
    ZeroPrefix(t[1..], vs[1..]);
    ZeroPrefix(t[2..], vs[2..]);
    ZeroPrefix(t[3..], vs[3..]);
  }

  lemma Shifts<T>(s: seq<T>)
    requires |s| >= 4
    ensures s[1..][1..] == s[2..] && s[2..][1..] == s[3..] && s[3..][1..] == s[4..]
  {
  }

  lemma ConsComb(t: seq<int>, vs: seq<Vec>)
    requires |t| == |vs| > 0
    ensures VecComb(t, vs) == Add(Scale(t[0], vs[0]), VecComb(t[1..], vs[1..]))
  {
  }

  lemma ZeroPrefix(t: seq<int>, vs: seq<Vec>)
    requires |t| == |vs| > 0 && vs[0] == ZERO
    ensures VecComb(t, vs) == VecComb(t[1..], vs[1..])
  {
  }

  lemma {:induction false} ZeroComb(t: seq<int>, vs: seq<Vec>)
    requires |t| == |vs| && forall k | 0 <= k < |vs| :: vs[k] == ZERO
    ensures VecComb(t, vs) == ZERO
  {
    if vs != [] {
      ZeroComb(t[1..], vs[1..]);
      ZeroPrefix(t, vs);
    }
  }

  lemma SumOfUnits(v: Vec)
    ensures Add(Scale(v.a, Unit(0)), Add(Scale(v.b, Unit(1)), Add(Scale(v.c, Unit(2)), Add(Scale(v.d, Unit(3)), ZERO)))) == v
  {
  }

  /** e is an integer combination of vs over the denominator d. */
  ghost predicate GeneratedOver(vs: seq<Vec>, d: int, e: Element) {
    exists v: Vec :: InSpan(vs, v) && Scale(d, e.coords) == Scale(e.denom, v)
  }

  method CommonGenerators(l1: Lattice, l2: Lattice) returns (inter: seq<Vec>)
    requires FullRank(l1) && l2.denom != 0
    ensures |inter| == 4
    ensures forall e: Element :: e.denom != 0 ==> (GeneratedOver(inter, l1.denom, e) <==> Member(l1, e) && Member(l2, e))
  {
    var cols := new Col[8](c requires 0 <= c < 8 => StartColumn(l1, l2, c));
    StartUnimodular(l1, l2, cols[..]);
    var piv: seq<nat> := [];
    while |piv| < 4
      invariant |piv| <= 4 && Unimodular(l1, l2, cols[..]) && Echelon(cols[..], piv)
      invariant forall i, j | 0 <= i < j < |piv| :: piv[i] != piv[j]
      decreases 4 - |piv|
    {
      var pc := EliminateRow(cols, piv, l1, l2);
      piv := piv + [pc];
    }
    FourKernelColumns(cols[..], piv);
    var kernel := ExtractKernel(cols);
    inter := Images(l1.basis, kernel);
    ImagesGenerate(l1, l2, cols[..], piv);
  }

  /** Collects the columns with a zero top block, at most four of them. */
  method ExtractKernel(cols: array<Col>) returns (kernel: seq<Col>)
    requires cols.Length == 8 && |KernelColumns(cols[..])| == 4
    ensures kernel == Select(cols[..], KernelColumns(cols[..])) && |kernel| == 4
  {
    kernel := [];
    var col := 0;
    while col < 8
      invariant 0 <= col <= 8
      invariant kernel == Select(cols[..col], KernelColumns(cols[..col]))
    {
      SelectLast(cols[..col + 1], cols[..col + 1]);
      assert cols[..col + 1][..col] == cols[..col];
      assert cols[..][..col] == cols[..col];
      KernelPrefix(cols[..], col);
      if cols[col].top == ZERO && |kernel| < 4 {
        kernel := kernel + [cols[col]];
      }
      col := col + 1;
    }
    assert cols[..8] == cols[..];
  }

  lemma ImagesGenerate(l1: Lattice, l2: Lattice, cols: seq<Col>, piv: seq<nat>)
    requires l1.denom != 0 && l2.denom != 0 && Unimodular(l1, l2, cols) && Echelon(cols, piv) && |piv| == 4
    requires forall c: nat | c < 8 :: TopZero(cols, c) <==> c !in piv
    ensures var inter := Images(l1.basis, Select(cols, KernelColumns(cols)));
            forall e: Element :: e.denom != 0 ==> (GeneratedOver(inter, l1.denom, e) <==> Member(l1, e) && Member(l2, e))
  {
    var inter := Images(l1.basis, Select(cols, KernelColumns(cols)));
    forall v: Vec ensures InSpan(inter, v) <==> Common(l1, l2, v) {
      KernelImages(l1, l2, cols, piv, v);
    }
    forall e: Element | e.denom != 0 ensures GeneratedOver(inter, l1.denom, e) <==> Member(l1, e) && Member(l2, e) {
      CommonMembers(l1, l2, inter, e);
    }
  }

  /** The counter guard of the extraction loop never drops a kernel column. */
  lemma KernelPrefix(cols: seq<Col>, n: nat)
    requires n < |cols| && |KernelColumns(cols)| == 4
    ensures TopZero(cols, n) ==> |KernelColumns(cols[..n])| < 4
  {
    KernelGrows(cols, n + 1);
    assert cols[..n + 1][..n] == cols[..n];
  }

  lemma {:induction false} KernelGrows(cols: seq<Col>, n: nat)
    requires n <= |cols|
    ensures |KernelColumns(cols[..n])| <= |KernelColumns(cols)|
    decreases |cols| - n
  {
    if n < |cols| {
      KernelGrows(cols, n + 1);
      assert cols[..n + 1][..n] == cols[..n];
    } else {
      assert cols[..n] == cols;
    }
  }

  lemma CommonMembers(l1: Lattice, l2: Lattice, vs: seq<Vec>, e: Element)
    requires l1.denom != 0 && l2.denom != 0 && e.denom != 0
    requires forall v: Vec :: InSpan(vs, v) <==> Common(l1, l2, v)
    ensures GeneratedOver(vs, l1.denom, e) <==> Member(l1, e) && Member(l2, e)
  {
    if Member(l1, e) && Member(l2, e) {
      var a: Vec :| Coordinates(l1, e, a);
      var b: Vec :| Coordinates(l2, e, b);
      BalancedResidual(l1, l2, e, a, b);
      assert Common(l1, l2, Eval(l1.basis, a));
    }
    if v: Vec :| InSpan(vs, v) && Scale(l1.denom, e.coords) == Scale(e.denom, v) {
      var a: Vec, b: Vec :| v == Eval(l1.basis, a) && Residual(l1, l2, a, b) == ZERO;
      assert Coordinates(l1, e, a);
      SecondCoordinates(l1, l2, e, a, b);
    }
  }

  lemma BalancedResidual(l1: Lattice, l2: Lattice, e: Element, a: Vec, b: Vec)
    requires e.denom != 0 && Coordinates(l1, e, a) && Coordinates(l2, e, b)
    ensures Residual(l1, l2, a, b) == ZERO
  {
    var u, v := Eval(l1.basis, a), Eval(l2.basis, b);
    BalancedEntry(e.denom, l1.denom, l2.denom, e.coords.a, u.a, v.a);
    BalancedEntry(e.denom, l1.denom, l2.denom, e.coords.b, u.b, v.b);
    BalancedEntry(e.denom, l1.denom, l2.denom, e.coords.c, u.c, v.c);
    BalancedEntry(e.denom, l1.denom, l2.denom, e.coords.d, u.d, v.d);
  }

  lemma BalancedEntry(w: int, d1: int, d2: int, x: int, u: int, v: int)
    requires w != 0 && d1 * x == w * u && d2 * x == w * v
    ensures d2 * u + -d1 * v == 0
  {
    assert w * (d2 * u + -d1 * v) == d2 * (w * u) - d1 * (w * v);
    assert d2 * (d1 * x) == d1 * (d2 * x);
    CancelFactor(w, d2 * u + -d1 * v, 0);
  }

  lemma SecondCoordinates(l1: Lattice, l2: Lattice, e: Element, a: Vec, b: Vec)
    requires l1.denom != 0 && Coordinates(l1, e, a) && Residual(l1, l2, a, b) == ZERO
    ensures Coordinates(l2, e, b)
  {
    var u, v := Eval(l1.basis, a), Eval(l2.basis, b);
    SecondEntry(e.denom, l1.denom, l2.denom, e.coords.a, u.a, v.a);
    SecondEntry(e.denom, l1.denom, l2.denom, e.coords.b, u.b, v.b);
    SecondEntry(e.denom, l1.denom, l2.denom, e.coords.c, u.c, v.c);
    SecondEntry(e.denom, l1.denom, l2.denom, e.coords.d, u.d, v.d);
  }

  lemma SecondEntry(w: int, d1: int, d2: int, x: int, u: int, v: int)
    requires d1 != 0 && d1 * x == w * u && d2 * u + -d1 * v == 0
    ensures d2 * x == w * v
  {
    assert d1 * (d2 * x) == d2 * (w * u) == w * (d2 * u);
    assert w * (d1 * v) == d1 * (w * v);
    CancelFactor(d1, d2 * x, w * v);
  }
}
