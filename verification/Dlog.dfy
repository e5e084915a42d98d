/** Discrete logarithms in a group of order 2^e, four bits at a time. The group, multiplicative in the source, is
    written additively: squaring is doubling and a power is a multiple. */
module Dlog {
  import opened Arith
  import opened Groups
  import opened Limbs
  import opened Modular

  /** x has order 2^e exactly. */
  ghost predicate HasOrder<G>(g: Group<G>, x: G, e: nat) {
    Mul(g, Pow2(e), x) == g.zero && (e > 0 ==> Mul(g, Pow2(e - 1), x) != g.zero)
  }

  lemma MulTwice<G(!new)>(g: Group<G>, m: int, n: nat, x: G)
    requires IsGroup(g)
    ensures Mul(g, n, Mul(g, m, x)) == Mul(g, n * m, x)
  {
    if n > 0 {
      MulTwice(g, m, n - 1, x);
      assert n * m == m + (n - 1) * m;
      MulAdd(g, m, (n - 1) * m, x);
    }
  }

  /** Only multiples of the order give the identity. */
  lemma {:induction false} OrderDivides<G(!new)>(g: Group<G>, x: G, e: nat, k: int)
    requires IsGroup(g) && HasOrder(g, x, e) && Mul(g, k, x) == g.zero
    ensures Cong(k, 0, Pow2(e))
    decreases e
  {
    if e == 0 {
      CongIntro(k, 0, Pow2(e), k);
    } else if k % 2 == 1 {
      OddMultiple(g, x, Pow2(e - 1), k / 2);
    } else {
      var h := k / 2;
      DoubledHasOrder(g, x, e);
      EvenMultiple(g, x, h);
      OrderDivides(g, Mul(g, 2, x), e - 1, h);
      var t := CongElim(h, 0, Pow2(e - 1));
      DoubleQuotient(k, h, Pow2(e - 1), t);
    }
  }

  lemma DoubleQuotient(k: int, h: int, half: int, t: int)
    requires k == 2 * h && h == 0 + half * t
    ensures Cong(k, 0, 2 * half)
  {
    assert k == (2 * half) * t;
    CongIntro(k, 0, 2 * half, t);
  }

  lemma DoubledHasOrder<G(!new)>(g: Group<G>, x: G, e: nat)
    requires IsGroup(g) && HasOrder(g, x, e) && e > 0
    ensures HasOrder(g, Mul(g, 2, x), e - 1)
  {
    MulTwice(g, 2, Pow2(e - 1), x);
    if e > 1 {
      MulTwice(g, 2, Pow2(e - 2), x);
    }
  }

  lemma OddMultiple<G(!new)>(g: Group<G>, x: G, half: nat, h: int)
    requires IsGroup(g) && Mul(g, 2 * half, x) == g.zero && Mul(g, 2 * h + 1, x) == g.zero
    ensures Mul(g, half, x) == g.zero
  {
    MulPeriodic(g, x, 2 * half, h);
    MulPeriodic(g, x, 2 * h + 1, half);
    assert (2 * h + 1) * half == (2 * half) * h + half;
    MulAdd(g, (2 * half) * h, half, x);
    assert HasInverse(g, Mul(g, half, x)) && Commutes(g, g.zero, Mul(g, half, x));
  }

  lemma EvenMultiple<G(!new)>(g: Group<G>, x: G, h: int)
    requires IsGroup(g)
    ensures Mul(g, h, Mul(g, 2, x)) == Mul(g, 2 * h, x)
  {
    if h >= 0 {
      MulTwice(g, 2, h, x);
    } else {
      MulTwice(g, 2, -h, x);
      MulNeg(g, -h, Mul(g, 2, x));
      MulNeg(g, -h * 2, x);
    }
  }

  /** Equal multiples are those of congruent numbers. */
  lemma EqualMultiples<G(!new)>(g: Group<G>, x: G, e: nat, j: int, k: int)
    requires IsGroup(g) && HasOrder(g, x, e)
    ensures Mul(g, j, x) == Mul(g, k, x) <==> Cong(j, k, Pow2(e))
  {
    var p := Mul(g, k, x);
    MulAdd(g, j - k, k, x);
    assert HasInverse(g, p) && Commutes(g, p, g.zero);
    if Mul(g, j, x) == p {
      Cancel(g, Mul(g, j - k, x), g.zero, p);
      OrderDivides(g, x, e, j - k);
      var t := CongElim(j - k, 0, Pow2(e));
      CongIntro(j, k, Pow2(e), t);
    } else if Cong(j, k, Pow2(e)) {
      var t := CongElim(j, k, Pow2(e));
      MulPeriodic(g, x, Pow2(e), t);
    }
  }

  // ----- the low and the upper bits of a number -----

  function Low(k: nat, n: nat): nat
    decreases n
  {
    if n == 0 then 0 else k % 2 + 2 * Low(k / 2, n - 1)
  }

  function Upper(k: nat, n: nat): nat
    decreases n
  {
    if n == 0 then k else Upper(k / 2, n - 1)
  }

  /** They are remainder and quotient by 2^n. */
  lemma {:induction false} LowUpper(k: nat, n: nat)
    ensures k == Upper(k, n) * Pow2(n) + Low(k, n) && Low(k, n) < Pow2(n)
    ensures Low(k, n) == k % Pow2(n)
    decreases n
  {
    if n > 0 {
      LowUpper(k / 2, n - 1);
      DoubleTerm(Upper(k, n), Pow2(n - 1));
    }
    QuotientUnique(Pow2(n), Upper(k, n), Low(k, n), k);
  }

  // ----- the pieces of the algorithm -----

  /** Repeated squaring. */
  method SquareN<G(!new)>(g: Group<G>, x: G, n: nat) returns (r: G)
    requires IsGroup(g)
    ensures r == Mul(g, Pow2(n), x)
  {
    r := x;
    MulOne(g, x);
    assert Pow2(0) == 1;
    var i := 0;
    while i < n
      invariant 0 <= i <= n
      invariant r == Mul(g, Pow2(i), x)
    {
      MulAdd(g, Pow2(i), Pow2(i), x);
      r := g.add(r, r);
      i := i + 1;
    }
  }

  ghost predicate Multiples<G>(g: Group<G>, x: G, table: seq<G>) {
    forall i: nat | i < |table| :: table[i] == Mul(g, i, x)
  }

  /** The first size multiples of x. */
  method MakeTable<G(!new)>(g: Group<G>, x: G, size: nat) returns (table: seq<G>)
    requires IsGroup(g) && size >= 1
    ensures |table| == size && Multiples(g, x, table)
  {
    table := [g.zero];
    var i := 1;
    while i < size
      invariant 1 <= i <= size && |table| == i && Multiples(g, x, table)
    {
      assert Commutes(g, table[i - 1], x);
      table := table + [g.add(table[i - 1], x)];
      i := i + 1;
    }
  }

  /** Scans the whole table; the last match wins, and zero stands for none. */
  method Scan<G(==)>(table: seq<G>, v: G) returns (index: nat)
    requires |table| >= 1
    ensures index < |table|
    ensures v in table ==> table[index] == v
  {
    index := 0;
    var i := 0;
    while i < |table|
      invariant 0 <= i <= |table| && index < |table|
      invariant v in table[..i] ==> table[index] == v
    {
      if table[i] == v {
        index := i;
      }
      i := i + 1;
    }
    assert table[..i] == table;
  }

  /** The only entry of a table of multiples of y that equals k times y is the one at k modulo the order. */
  method ScanMultiples<G(==, !new)>(g: Group<G>, table: seq<G>, v: G, ghost y: G, ghost w: nat, ghost k: nat) returns (index: nat)
    requires IsGroup(g) && |table| >= 1 && Multiples(g, y, table)
    ensures index < |table|
    ensures HasOrder(g, y, w) && |table| == Pow2(w) && v == Mul(g, k, y) ==> index == Low(k, w)
  {
    index := Scan(table, v);
    if HasOrder(g, y, w) && |table| == Pow2(w) && v == Mul(g, k, y) {
      LowUpper(k, w);
      CongMod(k, Pow2(w));
      EqualMultiples(g, y, w, k, k % Pow2(w));
      assert table[k % Pow2(w)] == v;
      EqualMultiples(g, y, w, index, k);
      CongTrans(index, k, k % Pow2(w), Pow2(w));
      CongEqual(index, k % Pow2(w), Pow2(w));
    }
  }

  // ----- the logarithm -----

  /** What is left of the target after the digits below bit n have been taken off. */
  ghost predicate Residual<G>(g: Group<G>, x: G, k: nat, n: nat, found: nat, level: G, rest: G) {
    found == Low(k, n) && rest == Mul(g, Upper(k, n), level)
  }

  /** One window of w bits, found at bit n. */
  lemma {:induction false} NextWindow(k: nat, n: nat, w: nat)
    ensures Low(k, n + w) == Low(k, n) + Low(Upper(k, n), w) * Pow2(n)
    ensures Upper(k, n + w) == Upper(Upper(k, n), w)
    decreases n
  {
    if n > 0 {
      NextWindow(k / 2, n - 1, w);
      DoubleTerm(Low(Upper(k, n), w), Pow2(n - 1));
    }
  }

  lemma DoubleTerm(x: int, y: int)
    ensures x * (2 * y) == 2 * (x * y)
  {
  }

  /** Squaring the residual of a full level brings the window down to the table's generator. */
  lemma Projected<G(!new)>(g: Group<G>, x: G, e: nat, n: nat, k: nat, level: G, rest: G, proj: G)
    requires IsGroup(g) && n + 4 <= e && level == Mul(g, Pow2(n), x) && rest == Mul(g, k, level)
    requires proj == Mul(g, Pow2(e - n - 4), rest)
    ensures proj == Mul(g, k, Mul(g, Pow2(e - 4), x))
  {
    Nest(g, x, Pow2(e - n - 4), Pow2(n), k);
    Pow2Add(e - n - 4, n);
  }

  lemma Nest<G(!new)>(g: Group<G>, x: G, a: nat, b: nat, k: nat)
    requires IsGroup(g)
    ensures Mul(g, a, Mul(g, k, Mul(g, b, x))) == Mul(g, k, Mul(g, a * b, x))
  {
    MulTwice(g, b, k, x);
    MulTwice(g, k * b, a, x);
    MulTwice(g, a * b, k, x);
    Swap(a, k, b);
  }

  lemma TopHasOrder<G(!new)>(g: Group<G>, x: G, e: nat, n: nat)
    requires IsGroup(g) && HasOrder(g, x, e) && n <= e
    ensures HasOrder(g, Mul(g, Pow2(n), x), e - n)
  {
    TopKilled(g, x, e, n, e - n);
    if n < e {
      TopAlive(g, x, e, n, e - n - 1);
    }
  }

  lemma TopKilled<G(!new)>(g: Group<G>, x: G, e: nat, n: nat, k: nat)
    requires IsGroup(g) && Mul(g, Pow2(e), x) == g.zero && k + n == e
    ensures Mul(g, Pow2(k), Mul(g, Pow2(n), x)) == g.zero
  {
    PowerOfTop(g, x, n, k);
  }

  lemma TopAlive<G(!new)>(g: Group<G>, x: G, e: nat, n: nat, k: nat)
    requires IsGroup(g) && k + n + 1 == e && Mul(g, Pow2(e - 1), x) != g.zero
    ensures Mul(g, Pow2(k), Mul(g, Pow2(n), x)) != g.zero
  {
    PowerOfTop(g, x, n, k);
  }

  lemma PowerOfTop<G(!new)>(g: Group<G>, x: G, n: nat, m: nat)
    requires IsGroup(g)
    ensures Mul(g, Pow2(m), Mul(g, Pow2(n), x)) == Mul(g, Pow2(m + n), x)
  {
    MulTwice(g, Pow2(n), Pow2(m), x);
    Pow2Add(m, n);
  }

  /** Taking i times the level off the residual. */
  lemma TakeOff<G(!new)>(g: Group<G>, level: G, q: int, i: int)
    requires IsGroup(g)
    ensures g.add(Mul(g, q, level), g.neg(Mul(g, i, level))) == Mul(g, q - i, level)
  {
    MulNeg(g, i, level);
    MulAdd(g, q, -i, level);
  }

  lemma LevelUp<G(!new)>(g: Group<G>, x: G, n: nat, w: nat, q: nat, level: G)
    requires IsGroup(g) && level == Mul(g, Pow2(n), x)
    ensures Mul(g, Pow2(w), level) == Mul(g, Pow2(n + w), x)
    ensures Mul(g, q - Low(q, w), level) == Mul(g, Upper(q, w), Mul(g, Pow2(w), level))
  {
    PowerOfTop(g, x, n, w);
    LowUpper(q, w);
    MulTwice(g, Pow2(w), Upper(q, w), level);
  }

  /** The scalar found so far, and what it means when the target is k times x. */
  ghost predicate Found<G>(g: Group<G>, x: G, n: nat, k: nat, limbs: seq<nat>, level: G, rest: G, good: bool) {
    && BelowBit(limbs, n) && LimbNat(limbs) < Pow2(n) && level == Mul(g, Pow2(n), x)
    && (good ==> Residual(g, x, k, n, LimbNat(limbs), level, rest))
  }

  /** A digit found at bit n extends the scalar. */
  method Record<G>(g: Group<G>, x: G, limbs: seq<nat>, n: nat, w: nat, index: nat, ghost level: G, ghost rest: G,
                   ghost k: nat, ghost good: bool)
    returns (limbs': seq<nat>)
    requires Found(g, x, n, k, limbs, level, rest, good) && index < Pow2(w) && n % 4 == 0 && w <= 4 && n < 248
    requires good ==> index == Low(Upper(k, n), w)
    ensures BelowBit(limbs', n + w) && LimbNat(limbs') < Pow2(n + w)
    ensures good ==> LimbNat(limbs') == Low(k, n + w)
  {
    limbs' := AddDigit(limbs, n, w, index);
    NextWindow(k, n, w);
  }

  method AddDigit(limbs: seq<nat>, n: nat, w: nat, index: nat) returns (limbs': seq<nat>)
    requires BelowBit(limbs, n) && LimbNat(limbs) < Pow2(n) && index < Pow2(w) && n % 4 == 0 && w <= 4 && n < 248
    ensures BelowBit(limbs', n + w) && LimbNat(limbs') == LimbNat(limbs) + index * Pow2(n) < Pow2(n + w)
  {
    WindowFits(n, w);
    limbs' := SetBits(limbs, n, w, index);
    ShiftBound(LimbNat(limbs), index, Pow2(w), Pow2(n));
    Pow2Add(n, w);
  }

  /** The digit at bit n: project the residual and look it up in the table of the top multiples. */
  method FindDigit<G(==, !new)>(g: Group<G>, x: G, e: nat, table: seq<G>, n: nat, w: nat, level: G, rest: G,
                                ghost q: nat, ghost good: bool)
    returns (index: nat)
    requires IsGroup(g) && w == 4 && n + w <= e
    requires |table| == Pow2(w) && Multiples(g, Mul(g, Pow2(e - 4), x), table)
    requires good ==> HasOrder(g, x, e) && level == Mul(g, Pow2(n), x) && rest == Mul(g, q, level)
    ensures index < Pow2(w) && (good ==> index == Low(q, w))
  {
    var proj := SquareN(g, rest, e - n - w);
    if good {
      Projected(g, x, e, n, q, level, rest, proj);
      TopHasOrder(g, x, e, e - 4);
    }
    index := ScanMultiples(g, table, proj, Mul(g, Pow2(e - 4), x), w, q);
  }

  /** Takes the digit off the residual and moves one window up. */
  method Strip<G(!new)>(g: Group<G>, x: G, n: nat, w: nat, size: nat, index: nat, level: G, rest: G, ghost q: nat, ghost good: bool)
    returns (level': G, rest': G)
    requires IsGroup(g) && index < size && level == Mul(g, Pow2(n), x)
    requires good ==> rest == Mul(g, q, level) && index == Low(q, w)
    ensures level' == Mul(g, Pow2(n + w), x)
    ensures good ==> rest' == Mul(g, Upper(q, w), level')
  {
    var levelTable := MakeTable(g, level, size);
    rest' := g.add(rest, g.neg(levelTable[index]));
    level' := SquareN(g, level, w);
    LevelUp(g, x, n, w, q, level);
    TakeOff(g, level, q, index);
  }

  /** One full window of w = 4 bits at bit n. */
  method Window<G(==, !new)>(g: Group<G>, x: G, e: nat, table: seq<G>, n: nat, w: nat, limbs: seq<nat>, level: G, rest: G,
                             ghost k: nat, ghost good: bool)
    returns (limbs': seq<nat>, level': G, rest': G)
    requires IsGroup(g) && w == 4 && n + w <= e <= 248 && n % w == 0
    requires |table| == Pow2(w) && Multiples(g, Mul(g, Pow2(e - 4), x), table)
    requires good ==> HasOrder(g, x, e)
    requires Found(g, x, n, k, limbs, level, rest, good)
    ensures Found(g, x, n + w, k, limbs', level', rest', good)
  {
    var index := FindDigit(g, x, e, table, n, w, level, rest, Upper(k, n), good);
    limbs' := Record(g, x, limbs, n, w, index, level, rest, k, good);
    level', rest' := Strip(g, x, n, w, |table|, index, level, rest, Upper(k, n), good);
    NextWindow(k, n, w);
  }

  /** The last window, of w < 4 bits, needs no projection. */
  method LastWindow<G(==, !new)>(g: Group<G>, x: G, n: nat, w: nat, limbs: seq<nat>, level: G, rest: G, ghost k: nat, ghost good: bool)
    returns (limbs': seq<nat>)
    requires IsGroup(g) && 0 < w < 4 && n + w <= 248 && n % 4 == 0
    requires good ==> HasOrder(g, x, n + w)
    requires Found(g, x, n, k, limbs, level, rest, good)
    ensures LimbNat(limbs') < Pow2(n + w) && (good ==> LimbNat(limbs') == Low(k, n + w))
  {
    var index := LastDigit(g, x, n, w, limbs, level, rest, k, good);
    limbs' := Record(g, x, limbs, n, w, index, level, rest, k, good);
  }

  method LastDigit<G(==, !new)>(g: Group<G>, x: G, n: nat, w: nat, ghost limbs: seq<nat>, level: G, rest: G, ghost k: nat, ghost good: bool)
    returns (index: nat)
    requires IsGroup(g) && Found(g, x, n, k, limbs, level, rest, good) && (good ==> HasOrder(g, x, n + w))
    ensures index < Pow2(w) && (good ==> index == Low(Upper(k, n), w))
  {
    var table := MakeTable(g, level, Pow2(w));
    if good {
      TopHasOrder(g, x, n + w, n);
    }
    index := ScanMultiples(g, table, rest, level, w, Upper(k, n));
  }

  /** The multiples of the point of order 2^w; for a shorter chain the table is not used. */
  method MakeTopTable<G(!new)>(g: Group<G>, x: G, e: nat, w: nat) returns (table: seq<G>)
    requires IsGroup(g)
    ensures |table| == Pow2(w) && (e >= w ==> Multiples(g, Mul(g, Pow2(e - w), x), table))
  {
    var shift := if e >= w then e - w else 0;
    var top := SquareN(g, x, shift);
    table := MakeTable(g, top, Pow2(w));
  }

  /** All windows, for one candidate logarithm k that the result does not depend on. */
  method DlogFor<G(==, !new)>(g: Group<G>, x: G, target: G, e: nat, ghost k: nat) returns (limbs: seq<nat>)
    requires IsGroup(g) && e <= 248
    ensures LimbNat(limbs) < Pow2(e)
    ensures HasOrder(g, x, e) && target == Mul(g, k, x) ==> LimbNat(limbs) == Low(k, e)
  {
    limbs := [0, 0, 0, 0];
    if e == 0 {
      NoBits(k, e);
      return;
    }
    limbs := AllWindows(g, x, target, e, k, HasOrder(g, x, e) && target == Mul(g, k, x));
  }

  method AllWindows<G(==, !new)>(g: Group<G>, x: G, target: G, e: nat, ghost k: nat, ghost good: bool) returns (limbs: seq<nat>)
    requires IsGroup(g) && 0 < e <= 248 && (good ==> HasOrder(g, x, e) && target == Mul(g, k, x))
    ensures LimbNat(limbs) < Pow2(e) && (good ==> LimbNat(limbs) == Low(k, e))
  {
    limbs := [0, 0, 0, 0];
    var w := 4;
    var table := MakeTopTable(g, x, e, w);
    StartFound(g, x, k, target, good);
    var rest, level, bitPos := target, x, 0;
    var i := 0;
    while i < e / 4
      invariant 0 <= i <= e / 4 && bitPos == 4 * i
      invariant Found(g, x, bitPos, k, limbs, level, rest, good)
    {
      limbs, level, rest := Window(g, x, e, table, bitPos, w, limbs, level, rest, k, good);
      i, bitPos := i + 1, bitPos + 4;
    }
    limbs := Finish(g, x, e, bitPos, limbs, level, rest, k, good);
  }

  /** The part of a window that is left when four does not divide the exponent. */
  method Finish<G(==, !new)>(g: Group<G>, x: G, e: nat, n: nat, limbs: seq<nat>, level: G, rest: G, ghost k: nat, ghost good: bool)
    returns (limbs': seq<nat>)
    requires IsGroup(g) && n <= e < n + 4 && e <= 248 && n % 4 == 0 && (good ==> HasOrder(g, x, e))
    requires Found(g, x, n, k, limbs, level, rest, good)
    ensures LimbNat(limbs') < Pow2(e) && (good ==> LimbNat(limbs') == Low(k, e))
  {
    limbs' := limbs;
    if n < e {
      limbs' := LastWindow(g, x, n, e - n, limbs, level, rest, k, good);
    }
  }

  /** A window that starts at a multiple of four stays inside its limb. */
  lemma WindowFits(n: nat, w: nat)
    requires n % 4 == 0 && w <= 4 && n < 248
    ensures n / 64 < 4 && n % 64 + w <= 64
  {
    assert n % 64 % 4 == 0 && n % 64 <= 63;
  }

  lemma NoBits(k: nat, e: nat)
    requires e == 0
    ensures LimbNat([0, 0, 0, 0]) == 0 && Pow2(e) == 1 && Low(k, e) == 0
  {
    Zeros();
  }

  lemma StartFound<G(!new)>(g: Group<G>, x: G, k: nat, target: G, good: bool)
    requires IsGroup(g) && (good ==> target == Mul(g, k, x))
    ensures Found(g, x, 0, k, [0, 0, 0, 0], x, target, good)
  {
    Zeros();
    MulOne(g, x);
    NoBits(k, 0);
  }

  ghost predicate IsLog<G>(g: Group<G>, x: G, target: G, e: nat, k: nat) {
    k < Pow2(e) && target == Mul(g, k, x)
  }

  /** The logarithm: the one k below 2^e with target = k*x, whenever there is one. */
  method NormalizedDlog<G(==, !new)>(g: Group<G>, x: G, target: G, e: nat) returns (limbs: seq<nat>)
    requires IsGroup(g) && e <= 248
    ensures LimbNat(limbs) < Pow2(e)
    ensures HasOrder(g, x, e) ==> forall k: nat :: IsLog(g, x, target, e, k) ==> k == LimbNat(limbs)
  {
    ghost var guess := if exists k: nat :: IsLog(g, x, target, e, k) then (var k: nat :| IsLog(g, x, target, e, k); k) else 0;
    limbs := DlogFor(g, x, target, e, guess);
    LowUpper(guess, e);
    if HasOrder(g, x, e) {
      forall k: nat | IsLog(g, x, target, e, k) ensures k == LimbNat(limbs) {
        EqualMultiples(g, x, e, k, guess);
        CongEqual(k, guess, Pow2(e));
        QuotientUnique(Pow2(e), 0, guess, guess);
      }
    }
  }

  /** Every multiple of x has a logarithm in range, so the algorithm finds it. */
  lemma LogExists<G(!new)>(g: Group<G>, x: G, e: nat, j: int)
    requires IsGroup(g) && HasOrder(g, x, e)
    ensures IsLog(g, x, Mul(g, j, x), e, j % Pow2(e))
  {
    CongMod(j, Pow2(e));
    EqualMultiples(g, x, e, j, j % Pow2(e));
  }
}
