/** The chain of (2,2)-isogenies with a balanced strategy, and the naive chain it has to agree with. */
module ThetaChain {
  import opened Arith
  import opened Options

  // ----- what a chain is made of -----

  datatype Role = Interior | Penultimate | Ultimate

  datatype Pair<T> = Pair(R: T, S: T)

  /** The maps of one chain. A: kernel points on the product of curves; Y: passengers on it; T: points on the later
      surfaces; V: surfaces. An isogeny is named by the kernel pair it is computed from. */
  datatype Chain<!A, !Y, !T, !V, W> = Chain(
    dbl0: A -> A,
    glue: (Pair<A>, A) -> T, glueSpecial: (Pair<A>, Y) -> T, glueCodomain: Pair<A> -> V,
    dbl: T -> T,
    eval: (Role, Pair<T>, T) -> T, codomain: (Role, Pair<T>) -> V,
    eval4: (T, V, T) -> T, codomain4: (T, V) -> V,
    eval2: (V, T) -> T, codomain2: V -> V,
    split: (V, seq<T>) -> Option<W>)

  function Iterate<T>(f: T -> T, n: nat, x: T): T {
    if n == 0 then x else Iterate(f, n - 1, f(x))
  }

  function IteratePair<T>(f: T -> T, n: nat, p: Pair<T>): Pair<T> {
    Pair(Iterate(f, n, p.R), Iterate(f, n, p.S))
  }

  function MapAll<T, U>(f: T -> U, s: seq<T>): (r: seq<U>)
    ensures |r| == |s| && forall i: nat | i < |s| :: r[i] == f(s[i])
  {
    seq(|s|, i requires 0 <= i < |s| => f(s[i]))
  }

  ghost predicate GlueLaw<A, Y, T, V, W>(ch: Chain<A, Y, T, V, W>, k: Pair<A>, x: A) {
    ch.glue(k, ch.dbl0(x)) == ch.dbl(ch.glue(k, x))
  }

  ghost predicate EvalLaw<A, Y, T, V, W>(ch: Chain<A, Y, T, V, W>, role: Role, k: Pair<T>, x: T) {
    ch.eval(role, k, ch.dbl(x)) == ch.dbl(ch.eval(role, k, x))
  }

  /** Every isogeny commutes with doubling. */
  ghost predicate Homomorphic<A(!new), Y, T(!new), V, W>(ch: Chain<A, Y, T, V, W>) {
    && (forall k: Pair<A>, x: A :: GlueLaw(ch, k, x))
    && (forall role: Role, k: Pair<T>, x: T :: EvalLaw(ch, role, k, x))
  }

  // ----- the naive chain -----

  /** The original kernel pushed through the steps so far, the passengers, the surface, and the kernels used with their
      roles. */
  datatype Run<T, V> = Run(whole: Pair<T>, passengers: seq<T>, surface: V, kernels: seq<Pair<T>>, roles: seq<Role>)

  /** The last two of the steps to come are special, unless all steps are plain. */
  function RoleOf(remaining: nat, plain: bool): Role {
    if plain then Interior else if remaining == 1 then Ultimate else if remaining == 2 then Penultimate else Interior
  }

  function EvalPair<A, Y, T, V, W>(ch: Chain<A, Y, T, V, W>, role: Role, k: Pair<T>, p: Pair<T>): Pair<T> {
    Pair(ch.eval(role, k, p.R), ch.eval(role, k, p.S))
  }

  function GluePair<A, Y, T, V, W>(ch: Chain<A, Y, T, V, W>, k: Pair<A>, p: Pair<A>): Pair<T> {
    Pair(ch.glue(k, p.R), ch.glue(k, p.S))
  }

  function StepWith<A, Y, T, V, W>(ch: Chain<A, Y, T, V, W>, s: Run<T, V>, role: Role, kernel: Pair<T>): Run<T, V> {
    Run(EvalPair(ch, role, kernel, s.whole), MapAll(x => ch.eval(role, kernel, x), s.passengers),
        ch.codomain(role, kernel), s.kernels + [kernel], s.roles + [role])
  }

  /** Each step doubles the pushed kernel all the way down. */
  function NaiveSteps<A, Y, T, V, W>(ch: Chain<A, Y, T, V, W>, s: Run<T, V>, remaining: nat, plain: bool): Run<T, V>
    decreases remaining
  {
    if remaining == 0 then s
    else
      var kernel := IteratePair(ch.dbl, remaining - 1, s.whole);
      NaiveSteps(ch, StepWith(ch, s, RoleOf(remaining, plain), kernel), remaining - 1, plain)
  }

  function NaiveGlue<A, Y, T, V, W>(ch: Chain<A, Y, T, V, W>, k: Pair<A>, p: Pair<A>, passengers: seq<Y>): Run<T, V> {
    Run(GluePair(ch, k, p), MapAll(y => ch.glueSpecial(k, y), passengers), ch.glueCodomain(k), [], [])
  }

  /** n steps in all, the first of them the gluing. */
  function NaiveChain<A, Y, T, V, W>(ch: Chain<A, Y, T, V, W>, p: Pair<A>, n: nat, passengers: seq<Y>, plain: bool): Run<T, V>
    requires n >= 1
  {
    NaiveSteps(ch, NaiveGlue(ch, IteratePair(ch.dbl0, n - 1, p), p, passengers), n - 1, plain)
  }

  // ----- the naive chain spelled out -----

  /** Of n steps the last is the ultimate one and the one before it the penultimate one; in the plain variant none is special. */
  predicate RolesInOrder(roles: seq<Role>, n: nat, plain: bool) {
    && |roles| == n
    && forall i: nat | i < n ::
         if plain then roles[i] == Interior
         else (roles[i] == Ultimate <==> i + 1 == n) && (roles[i] == Penultimate <==> i + 2 == n)
  }

  /** One step: every point is evaluated at the isogeny of the kernel in its role. */
  ghost predicate StepsTo<A, Y, T, V, W>(ch: Chain<A, Y, T, V, W>, s: Run<T, V>, s': Run<T, V>, role: Role, kernel: Pair<T>) {
    && s'.whole.R == ch.eval(role, kernel, s.whole.R) && s'.whole.S == ch.eval(role, kernel, s.whole.S)
    && |s'.passengers| == |s.passengers|
    && (forall j: nat | j < |s.passengers| :: s'.passengers[j] == ch.eval(role, kernel, s.passengers[j]))
    && s'.surface == ch.codomain(role, kernel)
  }

  /** Step i takes state i to state i + 1; its kernel is the pushed kernel of state i doubled down as far as the steps to come
      require. */
  ghost predicate TraceAt<A, Y, T, V, W>(ch: Chain<A, Y, T, V, W>, states: seq<Run<T, V>>, r: Run<T, V>, i: nat)
    requires i + 1 < |states| && i < |r.kernels| && i < |r.roles|
  {
    && r.kernels[i].R == Iterate(ch.dbl, |states| - 2 - i, states[i].whole.R)
    && r.kernels[i].S == Iterate(ch.dbl, |states| - 2 - i, states[i].whole.S)
    && StepsTo(ch, states[i], states[i + 1], r.roles[i], r.kernels[i])
  }

  /** The states after the gluing and after each of the steps. */
  ghost predicate Trace<A, Y, T, V, W>(ch: Chain<A, Y, T, V, W>, states: seq<Run<T, V>>, r: Run<T, V>) {
    && |states| == |r.kernels| + 1 == |r.roles| + 1 && states[|r.kernels|] == r
    && forall i: nat | i + 1 < |states| :: TraceAt(ch, states, r, i)
  }

  /** The gluing of the kernel doubled down to the 8-torsion. */
  ghost predicate Glued<A, Y, T, V, W>(ch: Chain<A, Y, T, V, W>, p: Pair<A>, n: nat, pts: seq<Y>, s: Run<T, V>)
    requires n >= 1
  {
    var k := Pair(Iterate(ch.dbl0, n - 1, p.R), Iterate(ch.dbl0, n - 1, p.S));
    && s.whole.R == ch.glue(k, p.R) && s.whole.S == ch.glue(k, p.S) && s.surface == ch.glueCodomain(k)
    && |s.passengers| == |pts| && forall j: nat | j < |pts| :: s.passengers[j] == ch.glueSpecial(k, pts[j])
  }

  lemma {:induction false} StepsTrace<A, Y, T, V, W>(ch: Chain<A, Y, T, V, W>, s: Run<T, V>, remaining: nat, plain: bool)
    returns (states: seq<Run<T, V>>, tail: Run<T, V>)
    requires |s.kernels| == |s.roles|
    ensures var r := NaiveSteps(ch, s, remaining, plain);
            && r.kernels == s.kernels + tail.kernels && r.roles == s.roles + tail.roles
            && tail == r.(kernels := tail.kernels, roles := tail.roles)
    ensures RolesInOrder(tail.roles, remaining, plain) && |tail.kernels| == remaining
    ensures |states| == remaining + 1 && states[0] == s.(kernels := [], roles := []) && states[remaining].(kernels := tail.kernels, roles := tail.roles) == tail
    ensures forall i: nat | i < remaining :: TraceAt(ch, states, tail, i)
    decreases remaining
  {
    var bare := s.(kernels := [], roles := []);
    if remaining == 0 {
      states, tail := [bare], bare;
    } else {
      var kernel, role := IteratePair(ch.dbl, remaining - 1, s.whole), RoleOf(remaining, plain);
      var next := StepWith(ch, s, role, kernel);
      var states', tail' := StepsTrace(ch, next, remaining - 1, plain);
      states := [bare] + states';
      tail := tail'.(kernels := [kernel] + tail'.kernels, roles := [role] + tail'.roles);
      assert NaiveSteps(ch, s, remaining, plain) == NaiveSteps(ch, next, remaining - 1, plain);
      TraceExtended(ch, bare, states', tail', kernel, role, remaining);
      RolesExtended(tail'.roles, remaining - 1, plain);
    }
  }

  /** One state more in front. */
  lemma TraceExtended<A, Y, T, V, W>(ch: Chain<A, Y, T, V, W>, s: Run<T, V>, states: seq<Run<T, V>>, tail: Run<T, V>,
                                     kernel: Pair<T>, role: Role, remaining: nat)
    requires |states| == remaining >= 1 && |tail.kernels| == |tail.roles| == remaining - 1
    requires forall i: nat | i + 1 < remaining :: TraceAt(ch, states, tail, i)
    requires kernel == IteratePair(ch.dbl, remaining - 1, s.whole) && StepsTo(ch, s, states[0], role, kernel)
    ensures var tail' := tail.(kernels := [kernel] + tail.kernels, roles := [role] + tail.roles);
            forall i: nat | i < remaining :: TraceAt(ch, [s] + states, tail', i)
  {
    var tail' := tail.(kernels := [kernel] + tail.kernels, roles := [role] + tail.roles);
    forall i: nat | i < remaining ensures TraceAt(ch, [s] + states, tail', i) {
      if i > 0 {
        assert TraceAt(ch, states, tail, i - 1);
      }
    }
  }

  lemma RolesExtended(roles: seq<Role>, n: nat, plain: bool)
    requires RolesInOrder(roles, n, plain)
    ensures RolesInOrder([RoleOf(n + 1, plain)] + roles, n + 1, plain)
  {
  }

  /** The naive chain, written out state by state: glued first, then n - 1 steps in their roles. */
  lemma NaiveTrace<A, Y, T, V, W>(ch: Chain<A, Y, T, V, W>, p: Pair<A>, n: nat, pts: seq<Y>, plain: bool) returns (states: seq<Run<T, V>>)
    requires n >= 1
    ensures var r := NaiveChain(ch, p, n, pts, plain); Trace(ch, states, r) && RolesInOrder(r.roles, n - 1, plain)
    ensures |states| == n && Glued(ch, p, n, pts, states[0])
  {
    var start := NaiveGlue(ch, IteratePair(ch.dbl0, n - 1, p), p, pts);
    var tail;
    states, tail := StepsTrace(ch, start, n - 1, plain);
    var r := NaiveChain(ch, p, n, pts, plain);
    assert r == tail;
    var states' := states[n - 1 := r];
    forall i: nat | i + 1 < n ensures TraceAt(ch, states', r, i) {
      assert TraceAt(ch, states, tail, i);
    }
    states := states';
  }

  // ----- iterated doubling -----

  lemma {:induction false} IterateAdd<T>(f: T -> T, m: nat, n: nat, x: T)
    ensures Iterate(f, m + n, x) == Iterate(f, n, Iterate(f, m, x))
    decreases m
  {
    if m > 0 {
      IterateAdd(f, m - 1, n, f(x));
    }
  }

  lemma {:induction false} GlueIterate<A(!new), Y, T(!new), V, W>(ch: Chain<A, Y, T, V, W>, k: Pair<A>, n: nat, x: A)
    requires Homomorphic(ch)
    ensures ch.glue(k, Iterate(ch.dbl0, n, x)) == Iterate(ch.dbl, n, ch.glue(k, x))
    decreases n
  {
    if n > 0 {
      GlueIterate(ch, k, n - 1, ch.dbl0(x));
      assert GlueLaw(ch, k, x);
    }
  }

  lemma {:induction false} EvalIterate<A(!new), Y, T(!new), V, W>(ch: Chain<A, Y, T, V, W>, role: Role, k: Pair<T>, n: nat, x: T)
    requires Homomorphic(ch)
    ensures ch.eval(role, k, Iterate(ch.dbl, n, x)) == Iterate(ch.dbl, n, ch.eval(role, k, x))
    decreases n
  {
    if n > 0 {
      EvalIterate(ch, role, k, n - 1, ch.dbl(x));
      assert EvalLaw(ch, role, k, x);
    }
  }

  method DoublePair<T>(f: T -> T, p: Pair<T>, n: nat) returns (r: Pair<T>)
    ensures r == IteratePair(f, n, p)
  {
    r := p;
    var i := 0;
    while i < n
      invariant 0 <= i <= n
      invariant IteratePair(f, n, p) == IteratePair(f, n - i, r)
    {
      r := Pair(f(r.R), f(r.S));
      i := i + 1;
    }
  }

  // ----- the strategy stack -----

  /** Level j still has to be doubled orders[j] - 1 times to reach the 8-torsion. */
  ghost predicate LevelAt<T>(f: T -> T, pts: seq<Pair<T>>, orders: seq<nat>, whole: Pair<T>, top: nat, j: nat)
    requires j < |pts| && j < |orders|
  {
    1 <= orders[j] <= top && pts[j] == IteratePair(f, top - orders[j], whole)
  }

  predicate HalvesAt(orders: seq<nat>, j: nat)
    requires j + 1 < |orders|
  {
    orders[j + 1] < orders[j] && 2 * orders[j + 1] <= orders[j] + 1
  }

  predicate Halves(orders: seq<nat>) {
    forall j: nat | j + 1 < |orders| :: HalvesAt(orders, j)
  }

  ghost predicate Stack<T>(f: T -> T, pts: seq<Pair<T>>, orders: seq<nat>, whole: Pair<T>, top: nat) {
    && |pts| == |orders| >= 1 && orders[0] == top && Halves(orders)
    && forall j: nat | j < |pts| :: LevelAt(f, pts, orders, whole, top, j)
  }

  lemma Extend<T>(f: T -> T, pts: seq<Pair<T>>, orders: seq<nat>, whole: Pair<T>, top: nat, n: nat)
    requires Stack(f, pts, orders, whole, top)
    requires var o := orders[|orders| - 1]; 1 <= n < o && 2 * (o - n) <= o + 1
    ensures Stack(f, pts + [IteratePair(f, n, pts[|pts| - 1])], orders + [orders[|orders| - 1] - n], whole, top)
  {
    var k := |pts| - 1;
    assert LevelAt(f, pts, orders, whole, top, k);
    IterateAdd(f, top - orders[k], n, whole.R);
    IterateAdd(f, top - orders[k], n, whole.S);
    var pts', orders' := pts + [IteratePair(f, n, pts[k])], orders + [orders[k] - n];
    forall j: nat | j < |pts'| ensures LevelAt(f, pts', orders', whole, top, j) {
      if j <= k { assert LevelAt(f, pts, orders, whole, top, j); }
    }
    forall j: nat | j + 1 < |orders'| ensures HalvesAt(orders', j) {
      if j < k { assert HalvesAt(orders, j); }
    }
  }

  /** The excess over one at least halves from level to level, so the depth is logarithmic in the top order. */
  lemma {:induction false} DepthBound(orders: seq<nat>, j: nat)
    requires j < |orders| && Halves(orders) && (forall i: nat | i < |orders| :: orders[i] >= 1)
    ensures Pow2(j) * (orders[j] - 1) <= orders[0] - 1
  {
    if j > 0 {
      DepthBound(orders, j - 1);
      assert HalvesAt(orders, j - 1);
      var w, x := Pow2(j - 1), orders[j] - 1;
      Grow(w, 2 * x, orders[j - 1] - 1);
      assert Pow2(j) * x == w * (2 * x);
    }
  }

  lemma StackDepth<T>(f: T -> T, pts: seq<Pair<T>>, orders: seq<nat>, whole: Pair<T>, top: nat)
    requires Stack(f, pts, orders, whole, top)
    ensures Shallow(|orders|, top)
  {
    forall i: nat | i < |orders| ensures orders[i] >= 1 {
      assert LevelAt(f, pts, orders, whole, top, i);
    }
    forall j: nat ensures FitsAt(|orders|, top, j) {
      if j + 2 <= |orders| {
        assert HalvesAt(orders, j);
        DepthBound(orders, j);
        Grow(Pow2(j), 1, orders[j] - 1);
      }
    }
  }

  predicate FitsAt(levels: nat, top: nat, j: nat) {
    j + 2 <= levels ==> Pow2(j) < top
  }

  /** With levels numbered 0, ..., k, two to the power k - 1 is below the top order. */
  ghost predicate Shallow(levels: nat, top: nat) {
    forall j: nat :: FitsAt(levels, top, j)
  }

  lemma ShallowGrows(levels: nat, top: nat, top': nat)
    requires Shallow(levels, top) && top <= top'
    ensures Shallow(levels, top')
  {
    forall j: nat ensures FitsAt(levels, top', j) {
      assert FitsAt(levels, top, j);
    }
  }

  /** Before the gluing: halve while the order is at least 16, then go straight down. */
  method DescendProduct<A>(f: A -> A, p: Pair<A>, e: nat) returns (pts: seq<Pair<A>>, orders: seq<nat>, k: nat)
    requires e >= 1
    ensures Stack(f, pts, orders, p, e) && k == |orders| - 1 && orders[k] == 1
  {
    pts, orders, k := [p], [e], 0;
    assert LevelAt(f, pts, orders, p, e, 0);
    while orders[k] != 1
      invariant Stack(f, pts, orders, p, e) && k == |orders| - 1
      decreases orders[k]
    {
      assert LevelAt(f, pts, orders, p, e, k);
      k := k + 1;
      var n := if orders[k - 1] >= 16 then orders[k - 1] / 2 else orders[k - 1] - 1;
      var next := DoublePair(f, pts[k - 1], n);
      Extend(f, pts, orders, p, e, n);
      pts, orders := pts + [next], orders + [orders[k - 1] - n];
    }
  }

  /** On the later surfaces: always halve. */
  method Descend<T>(f: T -> T, pts0: seq<Pair<T>>, orders0: seq<nat>, k0: nat, ghost whole: Pair<T>, ghost top: nat)
    returns (pts: seq<Pair<T>>, orders: seq<nat>, k: nat)
    requires Stack(f, pts0, orders0, whole, top) && k0 == |orders0| - 1
    ensures Stack(f, pts, orders, whole, top) && k == |orders| - 1 && orders[k] == 1
  {
    pts, orders, k := pts0, orders0, k0;
    while orders[k] != 1
      invariant Stack(f, pts, orders, whole, top) && k == |orders| - 1
      decreases orders[k]
    {
      assert LevelAt(f, pts, orders, whole, top, k);
      k := k + 1;
      var n := orders[k - 1] / 2;
      var next := DoublePair(f, pts[k - 1], n);
      Extend(f, pts, orders, whole, top, n);
      if k >= |pts| {
        pts, orders := pts + [next], orders + [orders[k - 1] - n];
      }
    }
  }

  /** The bottom level is the pushed kernel doubled all the way down; the top level is the pushed kernel itself. */
  lemma BottomAndTop<T>(f: T -> T, pts: seq<Pair<T>>, orders: seq<nat>, whole: Pair<T>, top: nat, k: nat)
    requires top >= 1 && Stack(f, pts, orders, whole, top) && k == |orders| - 1 && orders[k] == 1
    ensures pts[k] == IteratePair(f, top - 1, whole) && pts[0] == whole && (k == 0 <==> top == 1)
  {
    assert LevelAt(f, pts, orders, whole, top, k) && LevelAt(f, pts, orders, whole, top, 0);
    if k > 0 {
      assert HalvesAt(orders, 0) && LevelAt(f, pts, orders, whole, top, 1);
    }
  }

  /** One level is used up and every order above it drops by one. */
  predicate Lowered(orders: seq<nat>, orders': seq<nat>, k: nat) {
    |orders| == k + 1 && |orders'| == k && forall j: nat | j < k :: orders[j] == orders'[j] + 1
  }

  lemma LoweredHalves(orders: seq<nat>, orders': seq<nat>, k: nat)
    requires Halves(orders) && Lowered(orders, orders', k) && orders[k] == 1
    ensures Halves(orders') && forall j: nat | j < k :: orders'[j] >= 1
  {
    forall j: nat | j < k ensures orders'[j] >= 1 {
      assert HalvesAt(orders, j);
      Bottom(orders, j);
    }
    forall j: nat | j + 1 < k ensures HalvesAt(orders', j) {
      assert HalvesAt(orders, j);
    }
  }

  lemma {:induction false} Bottom(orders: seq<nat>, j: nat)
    requires j + 1 < |orders| && Halves(orders) && orders[|orders| - 1] == 1
    ensures orders[j] >= 2
    decreases |orders| - j
  {
    assert HalvesAt(orders, j);
    if j + 2 < |orders| {
      Bottom(orders, j + 1);
    }
  }

  lemma GluedStack<A(!new), Y, T(!new), V, W>(ch: Chain<A, Y, T, V, W>, pts: seq<Pair<A>>, orders: seq<nat>, p: Pair<A>, top: nat,
                                              kernel: Pair<A>, pts': seq<Pair<T>>, orders': seq<nat>, k: nat)
    requires Homomorphic(ch) && Stack(ch.dbl0, pts, orders, p, top) && k == |orders| - 1 && orders[k] == 1 && k >= 1
    requires Lowered(orders, orders', k) && |pts'| == k && forall j: nat | j < k :: pts'[j] == GluePair(ch, kernel, pts[j])
    ensures Stack(ch.dbl, pts', orders', GluePair(ch, kernel, p), top - 1)
  {
    LoweredHalves(orders, orders', k);
    var whole', top' := GluePair(ch, kernel, p), top - 1;
    forall j: nat | j < k ensures LevelAt(ch.dbl, pts', orders', whole', top', j) {
      assert LevelAt(ch.dbl0, pts, orders, p, top, j);
      GlueIterate(ch, kernel, top - orders[j], p.R);
      GlueIterate(ch, kernel, top - orders[j], p.S);
    }
  }

  lemma PushedStack<A(!new), Y, T(!new), V, W>(ch: Chain<A, Y, T, V, W>, pts: seq<Pair<T>>, orders: seq<nat>, whole: Pair<T>, top: nat,
                                               role: Role, kernel: Pair<T>, pts': seq<Pair<T>>, orders': seq<nat>, k: nat)
    requires Homomorphic(ch) && Stack(ch.dbl, pts, orders, whole, top) && k == |orders| - 1 && orders[k] == 1 && k >= 1
    requires Lowered(orders, orders', k) && |pts'| == k && forall j: nat | j < k :: pts'[j] == EvalPair(ch, role, kernel, pts[j])
    ensures Stack(ch.dbl, pts', orders', EvalPair(ch, role, kernel, whole), top - 1)
  {
    LoweredHalves(orders, orders', k);
    var whole', top' := EvalPair(ch, role, kernel, whole), top - 1;
    forall j: nat | j < k ensures LevelAt(ch.dbl, pts', orders', whole', top', j) {
      assert LevelAt(ch.dbl, pts, orders, whole, top, j);
      EvalIterate(ch, role, kernel, top - orders[j], whole.R);
      EvalIterate(ch, role, kernel, top - orders[j], whole.S);
    }
  }

  // ----- the chain -----

  lemma LoweredOrders<T>(f: T -> T, pts: seq<Pair<T>>, orders: seq<nat>, whole: Pair<T>, top: nat, k: nat)
    requires Stack(f, pts, orders, whole, top) && k < |orders|
    ensures forall j: nat | j < k :: orders[j] >= 1
  {
    forall j: nat | j < k ensures orders[j] >= 1 {
      assert LevelAt(f, pts, orders, whole, top, j);
    }
  }

  /** Pushes the levels above the bottom one through the step and drops the bottom one. */
  method PushLevels<A(!new), Y, T(!new), V, W>(ch: Chain<A, Y, T, V, W>, role: Role, kernel: Pair<T>,
                                               pts: seq<Pair<T>>, orders: seq<nat>, k: nat)
    returns (pts': seq<Pair<T>>, orders': seq<nat>)
    requires |pts| == |orders| == k + 1 && forall j: nat | j < k :: orders[j] >= 1
    ensures Lowered(orders, orders', k) && |pts'| == k
    ensures forall j: nat | j < k :: pts'[j] == EvalPair(ch, role, kernel, pts[j])
  {
    pts', orders' := pts, orders;
    var i := 0;
    while i < k
      invariant 0 <= i <= k && |pts'| == |orders'| == k + 1
      invariant forall j: nat | j < i :: pts'[j] == EvalPair(ch, role, kernel, pts[j]) && orders'[j] == orders[j] - 1
      invariant forall j: nat | i <= j <= k :: pts'[j] == pts[j] && orders'[j] == orders[j]
    {
      pts' := pts'[i := EvalPair(ch, role, kernel, pts'[i])];
      orders' := orders'[i := orders'[i] - 1];
      i := i + 1;
    }
    pts', orders' := pts'[..k], orders'[..k];
  }

  /** The variables of the main loop. */
  datatype Machine<T, V> = Machine(strat: seq<Pair<T>>, orders: seq<nat>, k: nat, passengers: seq<T>, surface: V) {
    predicate Running() {
      orders != [] && (k > 0 || orders[0] != 0)
    }
  }

  /** The machine against the naive run that has used up the same steps. */
  ghost predicate InStep<A, Y, T, V, W>(ch: Chain<A, Y, T, V, W>, m: Machine<T, V>, s: Run<T, V>, remaining: nat) {
    && s.passengers == m.passengers && s.surface == m.surface
    && (if remaining == 0 then m.strat == [] && m.orders == [] && m.k == 0
        else Stack(ch.dbl, m.strat, m.orders, s.whole, remaining) && m.k == |m.orders| - 1)
  }

  lemma RunningExactly<A, Y, T, V, W>(ch: Chain<A, Y, T, V, W>, m: Machine<T, V>, s: Run<T, V>, remaining: nat)
    requires InStep(ch, m, s, remaining)
    ensures m.Running() <==> remaining >= 1
  {
    if remaining >= 1 {
      assert LevelAt(ch.dbl, m.strat, m.orders, s.whole, remaining, 0);
    }
  }

  /** Descend on the product, glue, and push the levels above the bottom one. */
  method Glue<A(!new), Y, T(!new), V, W>(ch: Chain<A, Y, T, V, W>, p: Pair<A>, e: nat, pts: seq<Y>)
    returns (m: Machine<T, V>, glued: Pair<A>, ghost levels: nat)
    requires Homomorphic(ch) && e >= 2
    ensures glued == IteratePair(ch.dbl0, e - 1, p)
    ensures InStep(ch, m, NaiveGlue(ch, glued, p, pts), e - 1) && Shallow(levels, e)
  {
    var pts0, orders0, k0 := DescendProduct(ch.dbl0, p, e);
    StackDepth(ch.dbl0, pts0, orders0, p, e);
    levels := |orders0|;
    BottomAndTop(ch.dbl0, pts0, orders0, p, e, k0);
    glued := pts0[k0];
    var strat := [];
    var i := 0;
    while i < k0
      invariant 0 <= i <= k0 && |strat| == i
      invariant forall j: nat | j < i :: strat[j] == GluePair(ch, glued, pts0[j])
    {
      strat := strat + [GluePair(ch, glued, pts0[i])];
      i := i + 1;
    }
    LoweredOrders(ch.dbl0, pts0, orders0, p, e, k0);
    var orders := seq(k0, j requires 0 <= j < k0 => orders0[j] - 1);
    GluedStack(ch, pts0, orders0, p, e, glued, strat, orders, k0);
    m := Machine(strat, orders, k0 - 1, MapAll(y => ch.glueSpecial(glued, y), pts), ch.glueCodomain(glued));
  }

  /** One pass of the main loop is one naive step. */
  method MainStep<A(!new), Y, T(!new), V, W>(ch: Chain<A, Y, T, V, W>, plain: bool, m: Machine<T, V>,
                                             stepsRemaining: nat, ghost s: Run<T, V>)
    returns (m': Machine<T, V>, role: Role, kernel: Pair<T>, atTop: bool, ghost levels: nat)
    requires Homomorphic(ch) && stepsRemaining >= 1 && InStep(ch, m, s, stepsRemaining)
    ensures kernel == IteratePair(ch.dbl, stepsRemaining - 1, s.whole)
    ensures role == if plain then Interior else if stepsRemaining == 1 then Ultimate else if stepsRemaining == 2 then Penultimate else Interior
    ensures InStep(ch, m', StepWith(ch, s, role, kernel), stepsRemaining - 1)
    ensures (atTop <==> stepsRemaining == 1) && Shallow(levels, stepsRemaining)
  {
    var pts, os, kk := Descend(ch.dbl, m.strat, m.orders, m.k, s.whole, stepsRemaining);
    StackDepth(ch.dbl, pts, os, s.whole, stepsRemaining);
    levels := |os|;
    BottomAndTop(ch.dbl, pts, os, s.whole, stepsRemaining, kk);
    kernel := pts[kk];
    role := if plain then Interior
            else if stepsRemaining == 1 then Ultimate
            else if stepsRemaining == 2 then Penultimate
            else Interior;
    atTop := kk == 0;
    var passengers := MapAll(x => ch.eval(role, kernel, x), m.passengers);
    LoweredOrders(ch.dbl, pts, os, s.whole, stepsRemaining, kk);
    var strat, orders := PushLevels(ch, role, kernel, pts, os, kk);
    if kk >= 1 {
      PushedStack(ch, pts, os, s.whole, stepsRemaining, role, kernel, strat, orders, kk);
    }
    m' := Machine(strat, orders, if kk >= 1 then kk - 1 else 0, passengers, ch.codomain(role, kernel));
  }

  /** Naive steps still to come lead where the whole naive run leads, and the last kernel is known at the end. */
  ghost predicate Progress<A, Y, T, V, W>(ch: Chain<A, Y, T, V, W>, plain: bool, run: Run<T, V>, remaining: nat,
                                          whole: Run<T, V>, last: Option<Pair<T>>) {
    && NaiveSteps(ch, run, remaining, plain) == whole
    && (remaining == 0 ==> last.Some? && run.whole == EvalPair(ch, RoleOf(1, plain), last.value, last.value))
  }

  lemma ProgressStep<A, Y, T, V, W>(ch: Chain<A, Y, T, V, W>, plain: bool, run: Run<T, V>, remaining: nat, whole: Run<T, V>,
                                    last: Option<Pair<T>>, role: Role, kernel: Pair<T>)
    requires remaining >= 1 && Progress(ch, plain, run, remaining, whole, last)
    requires kernel == IteratePair(ch.dbl, remaining - 1, run.whole) && role == RoleOf(remaining, plain)
    ensures Progress(ch, plain, StepWith(ch, run, role, kernel), remaining - 1, whole, if remaining == 1 then Some(kernel) else last)
  {
  }

  /** A pass together with the stashing of the last kernel. */
  method Pass<A(!new), Y, T(!new), V, W>(ch: Chain<A, Y, T, V, W>, plain: bool, m: Machine<T, V>, stepsRemaining: nat,
                                         last: Option<Pair<T>>, ghost run: Run<T, V>, ghost whole: Run<T, V>,
                                         ghost deepest: nat, ghost stepsTotal: nat)
    returns (m': Machine<T, V>, last': Option<Pair<T>>, ghost run': Run<T, V>, ghost deepest': nat)
    requires Homomorphic(ch) && 1 <= stepsRemaining <= stepsTotal && Shallow(deepest, stepsTotal)
    requires InStep(ch, m, run, stepsRemaining) && Progress(ch, plain, run, stepsRemaining, whole, last)
    ensures InStep(ch, m', run', stepsRemaining - 1) && Progress(ch, plain, run', stepsRemaining - 1, whole, last')
    ensures Shallow(deepest', stepsTotal)
  {
    var role, kernel, atTop;
    ghost var levels;
    m', role, kernel, atTop, levels := MainStep(ch, plain, m, stepsRemaining, run);
    ProgressStep(ch, plain, run, stepsRemaining, whole, last, role, kernel);
    last' := if atTop then Some(kernel) else last;
    run' := StepWith(ch, run, role, kernel);
    ShallowGrows(levels, stepsRemaining, stepsTotal);
    deepest' := if levels > deepest then levels else deepest;
  }

  /** The loop of either variant. */
  method MainLoop<A(!new), Y, T(!new), V, W>(ch: Chain<A, Y, T, V, W>, plain: bool, m0: Machine<T, V>, stepsTotal: nat,
                                             ghost start: Run<T, V>)
    returns (m: Machine<T, V>, last: Option<Pair<T>>, ghost run: Run<T, V>, ghost deepest: nat)
    requires Homomorphic(ch) && stepsTotal >= 1 && InStep(ch, m0, start, stepsTotal)
    ensures run == NaiveSteps(ch, start, stepsTotal, plain)
    ensures m.passengers == run.passengers && m.surface == run.surface
    ensures last.Some? && run.whole == EvalPair(ch, RoleOf(1, plain), last.value, last.value)
    ensures Shallow(deepest, stepsTotal)
  {
    m, last := m0, None;
    var stepsRemaining := stepsTotal;
    run, deepest := start, 0;
    ghost var whole := NaiveSteps(ch, start, stepsTotal, plain);
    RunningExactly(ch, m, run, stepsRemaining);
    while m.Running()
      invariant 0 <= stepsRemaining <= stepsTotal && (m.Running() <==> stepsRemaining >= 1)
      invariant InStep(ch, m, run, stepsRemaining)
      invariant Progress(ch, plain, run, stepsRemaining, whole, last)
      invariant Shallow(deepest, stepsTotal)
      decreases stepsRemaining
    {
      m, last, run, deepest := Pass(ch, plain, m, stepsRemaining, last, run, whole, deepest, stepsTotal);
      stepsRemaining := stepsRemaining - 1;
      RunningExactly(ch, m, run, stepsRemaining);
    }
  }

  /** The chain on a kernel of order 2^(e+2): None when there is no step after the gluing. */
  method Isogeny<A(!new), Y, T(!new), V, W>(ch: Chain<A, Y, T, V, W>, p: Pair<A>, e: nat, pts: seq<Y>)
    returns (r: Option<W>, ghost run: Option<Run<T, V>>, ghost levels: nat, ghost deepest: nat)
    requires Homomorphic(ch)
    ensures run.None? <==> e < 2
    ensures e < 2 ==> r.None?
    ensures e >= 2 ==> run == Some(NaiveChain(ch, p, e, pts, false)) && r == ch.split(run.value.surface, run.value.passengers)
    ensures e >= 2 ==> RolesInOrder(run.value.roles, e - 1, false) && |run.value.kernels| == e - 1
    ensures e >= 2 ==> Shallow(levels, e) && Shallow(deepest, e - 1)
  {
    if e < 2 {
      return None, None, 0, 0;
    }
    ghost var _ := NaiveTrace(ch, p, e, pts, false);
    var m, glued, shallow := Glue(ch, p, e, pts);
    var done, _, steps, deep := MainLoop(ch, false, m, e - 1, NaiveGlue(ch, glued, p, pts));
    run, levels, deepest := Some(steps), shallow, deep;
    r := ch.split(done.surface, done.passengers);
  }

  /** The chain on a kernel of order 2^e: plain steps, then the tail on the fully pushed first kernel point. */
  method IsogenyNoExtraTorsion<A(!new), Y, T(!new), V, W>(ch: Chain<A, Y, T, V, W>, p: Pair<A>, e: nat, pts: seq<Y>)
    returns (r: Option<W>, ghost run: Option<Run<T, V>>, ghost levels: nat, ghost deepest: nat)
    requires Homomorphic(ch)
    ensures run.None? <==> e < 4
    ensures e < 4 ==> r.None?
    ensures e >= 4 ==> run == Some(NaiveChain(ch, p, e - 2, pts, true))
    ensures e >= 4 ==> RolesInOrder(run.value.roles, e - 3, true) && |run.value.kernels| == e - 3
    ensures e >= 4 ==>
              var point4, surface := run.value.whole.R, run.value.surface;
              var surface4 := ch.codomain4(point4, surface);
              r == ch.split(ch.codomain2(surface4), MapAll(x => ch.eval2(surface4, ch.eval4(point4, surface, x)), run.value.passengers))
    ensures e >= 4 ==> Shallow(levels, e - 2) && Shallow(deepest, e - 3)
  {
    if e < 4 {
      return None, None, 0, 0;
    }
    ghost var _ := NaiveTrace(ch, p, e - 2, pts, true);
    var m, glued, shallow := Glue(ch, p, e - 2, pts);
    var done, last, steps, deep := MainLoop(ch, true, m, e - 3, NaiveGlue(ch, glued, p, pts));
    run, levels, deepest := Some(steps), shallow, deep;
    var point4 := ch.eval(Interior, last.value, last.value.R);
    var passengers4 := MapAll(x => ch.eval4(point4, done.surface, x), done.passengers);
    var surface4 := ch.codomain4(point4, done.surface);
    var passengers2 := MapAll(x => ch.eval2(surface4, x), passengers4);
    assert passengers2 == MapAll(x => ch.eval2(surface4, ch.eval4(point4, done.surface, x)), done.passengers);
    r := ch.split(ch.codomain2(surface4), passengers2);
  }

  // ----- orders of the kernels -----

  /** x has order 2^n exactly. */
  predicate ExactOrder<T>(f: T -> T, zero: T -> bool, n: nat, x: T) {
    zero(Iterate(f, n, x)) && (n > 0 ==> !zero(Iterate(f, n - 1, x)))
  }

  predicate PairOrder<T>(f: T -> T, zero: T -> bool, n: nat, p: Pair<T>) {
    ExactOrder(f, zero, n, p.R) && ExactOrder(f, zero, n, p.S)
  }

  /** An isogeny computed from two points of order 8 kills four times each of them, and kills only points of order 2. */
  ghost predicate KernelLaw<T, U>(f: T -> T, zero: T -> bool, zero': U -> bool, k: Pair<T>, push: T -> U, x: T) {
    PairOrder(f, zero, 3, k) ==>
      zero'(push(Iterate(f, 2, k.R))) && zero'(push(Iterate(f, 2, k.S))) && (zero'(push(x)) ==> zero(f(x)))
  }

  ghost predicate GlueKills<A, Y, T, V, W>(ch: Chain<A, Y, T, V, W>, zero0: A -> bool, zero: T -> bool, k: Pair<A>, x: A) {
    KernelLaw(ch.dbl0, zero0, zero, k, y => ch.glue(k, y), x)
  }

  ghost predicate EvalKills<A, Y, T, V, W>(ch: Chain<A, Y, T, V, W>, zero: T -> bool, role: Role, k: Pair<T>, x: T) {
    KernelLaw(ch.dbl, zero, zero, k, y => ch.eval(role, k, y), x)
  }

  ghost predicate TwoIsogenies<A(!new), Y, T(!new), V, W>(ch: Chain<A, Y, T, V, W>, zero0: A -> bool, zero: T -> bool) {
    && (forall k: Pair<A>, x: A :: GlueKills(ch, zero0, zero, k, x))
    && (forall role: Role, k: Pair<T>, x: T :: EvalKills(ch, zero, role, k, x))
  }

  /** Doubling n times a point of order 2^(n+3) leaves a point of order 8. */
  lemma DoubledDown<T>(f: T -> T, zero: T -> bool, n: nat, x: T)
    requires ExactOrder(f, zero, n + 3, x)
    ensures ExactOrder(f, zero, 3, Iterate(f, n, x))
  {
    IterateAdd(f, n, 3, x);
    IterateAdd(f, n, 2, x);
  }

  /** Pushing a point through the isogeny of its own multiple of order 8 halves its order. */
  lemma PushedOrder<T, U>(f: T -> T, g: U -> U, zero: T -> bool, zero': U -> bool, k: Pair<T>, push: T -> U, n: nat, x: T)
    requires ExactOrder(f, zero, n + 3, x) && PairOrder(f, zero, 3, k)
    requires k.R == Iterate(f, n, x) || k.S == Iterate(f, n, x)
    requires push(Iterate(f, n + 2, x)) == Iterate(g, n + 2, push(x)) && push(Iterate(f, n + 1, x)) == Iterate(g, n + 1, push(x))
    requires KernelLaw(f, zero, zero', k, push, Iterate(f, n + 1, x))
    ensures ExactOrder(g, zero', n + 2, push(x))
  {
    IterateAdd(f, n, 2, x);
    IterateAdd(f, n + 1, 1, x);
    assert Iterate(f, 1, Iterate(f, n + 1, x)) == f(Iterate(f, n + 1, x));
  }

  lemma StepOrders<A(!new), Y, T(!new), V, W>(ch: Chain<A, Y, T, V, W>, zero0: A -> bool, zero: T -> bool,
                                              role: Role, n: nat, whole: Pair<T>)
    requires Homomorphic(ch) && TwoIsogenies(ch, zero0, zero) && PairOrder(ch.dbl, zero, n + 3, whole)
    ensures PairOrder(ch.dbl, zero, 3, IteratePair(ch.dbl, n, whole))
    ensures PairOrder(ch.dbl, zero, n + 2, EvalPair(ch, role, IteratePair(ch.dbl, n, whole), whole))
  {
    var k := IteratePair(ch.dbl, n, whole);
    var push := y => ch.eval(role, k, y);
    forall x | x == whole.R || x == whole.S ensures ExactOrder(ch.dbl, zero, 3, Iterate(ch.dbl, n, x)) {
      DoubledDown(ch.dbl, zero, n, x);
    }
    forall x | x == whole.R || x == whole.S ensures ExactOrder(ch.dbl, zero, n + 2, ch.eval(role, k, x)) {
      EvalIterate(ch, role, k, n + 2, x);
      EvalIterate(ch, role, k, n + 1, x);
      assert EvalKills(ch, zero, role, k, Iterate(ch.dbl, n + 1, x));
      PushedOrder(ch.dbl, ch.dbl, zero, zero, k, push, n, x);
    }
  }

  lemma GlueOrders<A(!new), Y, T(!new), V, W>(ch: Chain<A, Y, T, V, W>, zero0: A -> bool, zero: T -> bool, n: nat, p: Pair<A>)
    requires Homomorphic(ch) && TwoIsogenies(ch, zero0, zero) && PairOrder(ch.dbl0, zero0, n + 3, p)
    ensures PairOrder(ch.dbl0, zero0, 3, IteratePair(ch.dbl0, n, p))
    ensures PairOrder(ch.dbl, zero, n + 2, GluePair(ch, IteratePair(ch.dbl0, n, p), p))
  {
    var k := IteratePair(ch.dbl0, n, p);
    var push := y => ch.glue(k, y);
    forall x | x == p.R || x == p.S ensures ExactOrder(ch.dbl0, zero0, 3, Iterate(ch.dbl0, n, x)) {
      DoubledDown(ch.dbl0, zero0, n, x);
    }
    forall x | x == p.R || x == p.S ensures ExactOrder(ch.dbl, zero, n + 2, ch.glue(k, x)) {
      GlueIterate(ch, k, n + 2, x);
      GlueIterate(ch, k, n + 1, x);
      assert GlueKills(ch, zero0, zero, k, Iterate(ch.dbl0, n + 1, x));
      PushedOrder(ch.dbl0, ch.dbl, zero0, zero, k, push, n, x);
    }
  }

  lemma {:induction false} StepsOrders<A(!new), Y, T(!new), V, W>(ch: Chain<A, Y, T, V, W>, zero0: A -> bool, zero: T -> bool,
                                                                  s: Run<T, V>, remaining: nat, plain: bool)
    requires Homomorphic(ch) && TwoIsogenies(ch, zero0, zero) && PairOrder(ch.dbl, zero, remaining + 2, s.whole)
    requires forall i: nat | i < |s.kernels| :: PairOrder(ch.dbl, zero, 3, s.kernels[i])
    ensures var r := NaiveSteps(ch, s, remaining, plain);
            && |r.kernels| == |s.kernels| + remaining && PairOrder(ch.dbl, zero, 2, r.whole)
            && forall i: nat | i < |r.kernels| :: PairOrder(ch.dbl, zero, 3, r.kernels[i])
    decreases remaining
  {
    if remaining > 0 {
      var next := NextOrders(ch, zero0, zero, s, remaining, plain);
      StepsOrders(ch, zero0, zero, next, remaining - 1, plain);
    }
  }

  lemma NextOrders<A(!new), Y, T(!new), V, W>(ch: Chain<A, Y, T, V, W>, zero0: A -> bool, zero: T -> bool,
                                              s: Run<T, V>, remaining: nat, plain: bool) returns (next: Run<T, V>)
    requires Homomorphic(ch) && TwoIsogenies(ch, zero0, zero) && remaining >= 1 && PairOrder(ch.dbl, zero, remaining + 2, s.whole)
    requires forall i: nat | i < |s.kernels| :: PairOrder(ch.dbl, zero, 3, s.kernels[i])
    ensures NaiveSteps(ch, s, remaining, plain) == NaiveSteps(ch, next, remaining - 1, plain)
    ensures |next.kernels| == |s.kernels| + 1 && PairOrder(ch.dbl, zero, remaining + 1, next.whole)
    ensures forall i: nat | i < |next.kernels| :: PairOrder(ch.dbl, zero, 3, next.kernels[i])
  {
    var kernel, role := IteratePair(ch.dbl, remaining - 1, s.whole), RoleOf(remaining, plain);
    StepOrders(ch, zero0, zero, role, remaining - 1, s.whole);
    next := StepWith(ch, s, role, kernel);
    KernelsExtended(ch.dbl, zero, s.kernels, kernel);
  }

  lemma KernelsExtended<T>(dbl: T -> T, zero: T -> bool, kernels: seq<Pair<T>>, kernel: Pair<T>)
    requires PairOrder(dbl, zero, 3, kernel) && forall i: nat | i < |kernels| :: PairOrder(dbl, zero, 3, kernels[i])
    ensures forall i: nat | i < |kernels| + 1 :: PairOrder(dbl, zero, 3, (kernels + [kernel])[i])
  {
  }

  /** A kernel of order 2^(n+2) feeds every one of the n steps with points of order 8, and what is left has order 4. */
  lemma ChainOrders<A(!new), Y, T(!new), V, W>(ch: Chain<A, Y, T, V, W>, zero0: A -> bool, zero: T -> bool,
                                               p: Pair<A>, n: nat, pts: seq<Y>, plain: bool)
    requires Homomorphic(ch) && TwoIsogenies(ch, zero0, zero) && n >= 1 && PairOrder(ch.dbl0, zero0, n + 2, p)
    ensures PairOrder(ch.dbl0, zero0, 3, IteratePair(ch.dbl0, n - 1, p))
    ensures var r := NaiveChain(ch, p, n, pts, plain);
            && |r.kernels| == n - 1 && PairOrder(ch.dbl, zero, 2, r.whole)
            && forall i: nat | i < |r.kernels| :: PairOrder(ch.dbl, zero, 3, r.kernels[i])
  {
    GlueOrders(ch, zero0, zero, n - 1, p);
    var k := IteratePair(ch.dbl0, n - 1, p);
    StepsOrders(ch, zero0, zero, NaiveGlue(ch, k, p, pts), n - 1, plain);
  }
}
