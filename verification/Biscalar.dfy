/** The two-scalar ladder: recoding of the scalar pair, then one doubling and two differential additions a bit. */
module Biscalar {
  import opened Arith
  import opened Bytes
  import opened Groups
  import opened XOnly

  // ----- recoding -----

  /** Bit i of a, with the bits from k on cut off. */
  function Digit(a: nat, i: nat, k: nat): nat {
    if i < k then (a / Pow2(i)) % 2 else 0
  }

  /** The number formed by the bits i, ..., k-1 of a. */
  function High(a: nat, i: nat, k: nat): nat
    decreases k - i
  {
    if i >= k then 0 else Digit(a, i, k) + 2 * High(a, i + 1, k)
  }

  lemma {:induction false} HighMod(a: nat, i: nat, k: nat)
    requires i <= k
    ensures High(a, i, k) == (a / Pow2(i)) % Pow2(k - i)
    decreases k - i
  {
    if i < k {
      HighMod(a, i + 1, k);
      ShiftOnce(a, i);
      HighStep(a / Pow2(i), a / Pow2(i + 1), High(a, i + 1, k), Pow2(k - (i + 1)), Pow2(k - i));
      assert High(a, i, k) == Digit(a, i, k) + 2 * High(a, i + 1, k);
    } else {
      assert (a / Pow2(i)) % 1 == 0;
    }
  }

  lemma HighStep(n: nat, half: nat, h: nat, d: nat, m: nat)
    requires d > 0 && m == 2 * d && half == n / 2 && h == half % d
    ensures n % 2 + 2 * h == n % m
  {
    ModSplit(n, d);
  }

  lemma EvenModulus(b: nat, h: nat, m: nat)
    requires h > 0 && m == 2 * h
    ensures (b % m) % 2 == b % 2
  {
    ModSplit(b, h);
  }

  lemma ModSplit(n: nat, d: nat)
    requires d > 0
    ensures n % (2 * d) == n % 2 + 2 * ((n / 2) % d)
  {
    var q := n / 2;
    DivisionLaw(q, d);
    DivisionLaw(n, 2);
    assert n == 2 * d * (q / d) + (n % 2 + 2 * (q % d));
    QuotientUnique(2 * d, q / d, n % 2 + 2 * (q % d), n);
  }

  lemma HighParity(a: nat, i: nat, k: nat)
    ensures High(a, i, k) % 2 == Digit(a, i, k)
    ensures i < k ==> High(a, i, k) == Digit(a, i, k) + 2 * High(a, i + 1, k)
  {
  }

  function Pick<T>(which: nat, a: T, b: T): T {
    if which == 0 then a else b
  }

  function Xor(a: nat, b: nat): nat {
    if a == b then 0 else 1
  }

  /** Digit pair i: each says whether bit i of its scalar differs from bit i+1; the second flips the roles. */
  predicate RecodedAt(a: nat, b: nat, k: nat, r: seq<nat>, sigma: seq<nat>, i: nat)
    requires 2 * i + 1 < |r| && i + 1 < |sigma|
  {
    var s, x, y := sigma[i], Pick(sigma[i], a, b), Pick(sigma[i], b, a);
    && s <= 1 && sigma[i + 1] <= 1
    && r[2 * i] == Xor(Digit(x, i, k), Digit(x, i + 1, k))
    && r[2 * i + 1] == Xor(Digit(y, i, k), Digit(y, i + 1, k))
    && sigma[i + 1] == if r[2 * i + 1] == 1 then 1 - s else s
  }

  ghost predicate RecodedBelow(a: nat, b: nat, k: nat, r: seq<nat>, sigma: seq<nat>, n: nat) {
    |r| == 2 * k && |sigma| > n && n <= k && forall i: nat | i < n :: RecodedAt(a, b, k, r, sigma, i)
  }

  /** Reads the lowest bit and the one above it, shifting unless this is the last bit. */
  method TakeDigit(m: array<byte>, last: bool) returns (d: nat)
    requires m.Length == 32
    modifies m
    ensures d == Xor(old(LeNat(m[..])) % 2, if last then 0 else (old(LeNat(m[..])) / 2) % 2)
    ensures LeNat(m[..]) == if last then old(LeNat(m[..])) else old(LeNat(m[..])) / 2
  {
    HalveValue(m[..]);
    var low := 0;
    if !last {
      low := Shr1(m);
      HalveValue(m[..]);
    }
    var bit := m[0] as int % 2;
    d := Xor(bit, low);
  }

  /** The shifted value holds bit i lowest and bit i+1 next. */
  lemma DigitsOf(x: nat, i: nat, k: nat, d: nat)
    requires i < k
    requires d == Xor((x / Pow2(i)) % 2, if i == k - 1 then 0 else (x / Pow2(i) / 2) % 2)
    ensures d == Xor(Digit(x, i, k), Digit(x, i + 1, k))
    ensures x / Pow2(i) / 2 == x / Pow2(i + 1)
  {
    ShiftOnce(x, i);
  }

  /** Exchanges the scalars when asked to, and reads a digit of each. */
  method TakePair(m: array<byte>, n: array<byte>, exchange: bool, last: bool) returns (d1: nat, d2: nat)
    requires m != n && m.Length == n.Length == 32
    modifies m, n
    ensures var x := old(if exchange then LeNat(n[..]) else LeNat(m[..]));
            d1 == Xor(x % 2, if last then 0 else (x / 2) % 2) && LeNat(m[..]) == if last then x else x / 2
    ensures var y := old(if exchange then LeNat(m[..]) else LeNat(n[..]));
            d2 == Xor(y % 2, if last then 0 else (y / 2) % 2) && LeNat(n[..]) == if last then y else y / 2
  {
    SwapBytes(m, n, exchange);
    d1 := TakeDigit(m, last);
    d2 := TakeDigit(n, last);
  }

  method Recode(m: array<byte>, n: array<byte>, kbits: nat, sigma0: nat) returns (r: array<nat>, s: nat, ghost sigma: seq<nat>)
    requires m != n && m.Length == n.Length == 32 && sigma0 <= 1
    modifies m, n
    ensures fresh(r) && RecodedBelow(old(LeNat(m[..])), old(LeNat(n[..])), kbits, r[..], sigma, kbits)
    ensures |sigma| == kbits + 1 && sigma[0] == sigma0 && sigma[kbits] == s && s <= 1
  {
    ghost var a, b := LeNat(m[..]), LeNat(n[..]);
    r := new nat[2 * kbits](_ => 0);
    s := sigma0;
    var pre := 0;
    sigma := [sigma0];
    assert Pow2(0) == 1;
    var i := 0;
    while i < kbits
      invariant 0 <= i <= kbits && |sigma| == i + 1
      invariant r.Length == 2 * kbits && fresh(r)
      invariant 0 <= s <= 1 && 0 <= pre <= 1 && sigma[i] == s && sigma[0] == sigma0
      invariant i < kbits ==> LeNat(m[..]) == Pick(pre, a, b) / Pow2(i) && LeNat(n[..]) == Pick(pre, b, a) / Pow2(i)
      invariant RecodedBelow(a, b, kbits, r[..], sigma, i)
    {
      ghost var was, sigmas := r[..], sigma;
      ghost var x, y := Pick(s, a, b), Pick(s, b, a);
      var d1, d2 := TakePair(m, n, s != pre, i == kbits - 1);
      DigitsOf(x, i, kbits, d1);
      DigitsOf(y, i, kbits, d2);
      r[2 * i] := d1;
      r[2 * i + 1] := d2;
      pre := s;
      if d2 == 1 {
        s := 1 - s;
      }
      sigma := sigma + [s];
      ExtendRecoded(a, b, kbits, was, r[..], sigmas, sigma, i);
      i := i + 1;
    }
  }

  lemma ExtendRecoded(a: nat, b: nat, k: nat, r: seq<nat>, r': seq<nat>, sigma: seq<nat>, sigma': seq<nat>, n: nat)
    requires RecodedBelow(a, b, k, r, sigma, n) && n < k && |r'| == 2 * k
    requires |sigma| == n + 1 && |sigma'| == n + 2 && sigma'[..n + 1] == sigma
    requires forall j: nat | j < 2 * n :: r[j] == r'[j]
    requires RecodedAt(a, b, k, r', sigma', n)
    ensures RecodedBelow(a, b, k, r', sigma', n + 1)
  {
    forall j: nat | j < n + 1 ensures RecodedAt(a, b, k, r', sigma', j) {
      if j < n {
        assert RecodedAt(a, b, k, r, sigma, j);
        assert sigma'[j] == sigma'[..n + 1][j] && sigma'[j + 1] == sigma'[..n + 1][j + 1];
      }
    }
  }

  // ----- evaluation -----

  /** The bits of both scalars read so far, from the top, and which coordinate of the mixed point is odd. */
  datatype Prefix = Prefix(u: nat, v: nat, s: nat)

  /** The even one and the odd one of n and n + 1. */
  function Even(n: nat): nat { n + n % 2 }
  function Odd(n: nat): nat { n + 1 - n % 2 }

  function MixedI(p: Prefix): nat { if p.s == 0 then Odd(p.u) else Even(p.u) }
  function MixedJ(p: Prefix): nat { if p.s == 0 then Even(p.v) else Odd(p.v) }

  /** +1 when u and v have the same parity, -1 otherwise. */
  function Sign(p: Prefix): int { if p.u % 2 == p.v % 2 then 1 else -1 }

  /** The three running points: both coordinates even, mixed, both odd. */
  datatype Points<X> = Points(r0: X, r1: X, r2: X)

  /** The four stored differences: of neighbours, and of the outer pair. */
  datatype Diffs<X> = Diffs(d1: X, d2: X, f1: X, f2: X)

  ghost predicate Running<X>(k: Coords<X>, t: Points<X>, p: Prefix) {
    && t.r0 == k.at(Even(p.u), Even(p.v))
    && t.r1 == k.at(MixedI(p), MixedJ(p))
    && t.r2 == k.at(Odd(p.u), Odd(p.v))
  }

  ghost predicate Stored<X>(k: Coords<X>, d: Diffs<X>, p: Prefix) {
    && d.d1 == Unit(k, p.s) && d.d2 == Unit(k, 1 - p.s)
    && d.f1 == k.at(1, Sign(p)) && d.f2 == k.at(1, -Sign(p))
  }

  ghost function Unit<X>(k: Coords<X>, s: int): X {
    if s == 0 then k.at(1, 0) else k.at(0, 1)
  }

  /** None of p, q, p + q, p - q is the identity or the point with x = 0. */
  ghost predicate RegularBasis<X>(k: Coords<X>) {
    k.ok(1, 0) && k.ok(0, 1) && k.ok(1, 1) && k.ok(1, -1)
  }

  /** Which of the three points is doubled, as coordinates. */
  function DoubledI(p: Prefix, h: nat): nat { if h / 2 == 1 then Odd(p.u) else if h % 2 == 1 then MixedI(p) else Even(p.u) }
  function DoubledJ(p: Prefix, h: nat): nat { if h / 2 == 1 then Odd(p.v) else if h % 2 == 1 then MixedJ(p) else Even(p.v) }

  /** q extends p by one bit of each scalar, and the digits a, b compare the parities. */
  predicate Extends(p: Prefix, q: Prefix, a: nat, b: nat) {
    && q.u / 2 == p.u && q.v / 2 == p.v && p.s <= 1 && q.s <= 1
    && a == Xor(Pick(q.s, q.u, q.v) % 2, Pick(q.s, p.u, p.v) % 2)
    && b == Xor(Pick(q.s, q.v, q.u) % 2, Pick(q.s, p.v, p.u) % 2)
    && p.s == if b == 1 then 1 - q.s else q.s
  }

  lemma StepDouble(p: Prefix, q: Prefix, a: nat, b: nat)
    requires Extends(p, q, a, b)
    ensures 2 * DoubledI(p, a + b) == Even(q.u) && 2 * DoubledJ(p, a + b) == Even(q.v)
  {
    EvenDouble(q.u);
    EvenDouble(q.v);
  }

  lemma EvenDouble(n: nat)
    ensures Even(n) == 2 * if n % 2 == n / 2 % 2 then Even(n / 2) else Odd(n / 2)
  {
  }

  /** The even and the mixed point add up to the new mixed point and differ by one basis point. */
  predicate LowerFits(p: Prefix, q: Prefix) {
    && Even(p.u) + MixedI(p) == MixedI(q) && Even(p.v) + MixedJ(p) == MixedJ(q)
    && UnitDifference(Even(p.u) - MixedI(p), Even(p.v) - MixedJ(p), q.s)
  }

  /** The same of the mixed and the odd point. */
  predicate UpperFits(p: Prefix, q: Prefix) {
    && MixedI(p) + Odd(p.u) == MixedI(q) && MixedJ(p) + Odd(p.v) == MixedJ(q)
    && UnitDifference(MixedI(p) - Odd(p.u), MixedJ(p) - Odd(p.v), q.s)
  }

  lemma StepMixed(p: Prefix, q: Prefix, a: nat)
    requires Extends(p, q, a, 0)
    ensures LowerFits(p, q)
  {
  }

  lemma StepMixedUpper(p: Prefix, q: Prefix, a: nat)
    requires Extends(p, q, a, 1)
    ensures UpperFits(p, q)
  {
  }

  predicate UnitDifference(i: int, j: int, s: nat) {
    if s == 0 then (i == 1 || i == -1) && j == 0 else i == 0 && (j == 1 || j == -1)
  }

  lemma StepOuter(p: Prefix, q: Prefix, a: nat, b: nat)
    requires Extends(p, q, a, b)
    ensures Sign(q) == if (a + b) % 2 == 1 then -Sign(p) else Sign(p)
  {
  }

  lemma OuterSum(p: Prefix, q: Prefix)
    requires q.u / 2 == p.u && q.v / 2 == p.v
    ensures Even(p.u) + Odd(p.u) == Odd(q.u) && Even(p.v) + Odd(p.v) == Odd(q.v)
    ensures var i, j := Even(p.u) - Odd(p.u), Even(p.v) - Odd(p.v);
            (i == 1 && j == Sign(p)) || (i == -1 && j == -Sign(p))
  {
  }

  /** The doubled point becomes the new even point. */
  method DoubleStep<X>(o: Ops<X>, t: Points<X>, a: nat, b: nat, ghost k: Coords<X>, ghost p: Prefix, ghost q: Prefix)
    returns (r: X)
    requires LadderLaws(o, k) && Running(k, t, p) && Extends(p, q, a, b)
    ensures r == k.at(Even(q.u), Even(q.v))
  {
    var h := a + b;
    StepDouble(p, q, a, b);
    assert DoubleLaw(o, k, DoubledI(p, h), DoubledJ(p, h));
    r := o.dbl(if h / 2 == 1 then t.r2 else if h % 2 == 1 then t.r1 else t.r0);
  }

  /** Differential addition of two points that differ by one basis point. */
  method AddUnit<X>(o: Ops<X>, x: X, y: X, d: X, ghost k: Coords<X>,
                    ghost i: int, ghost j: int, ghost i': int, ghost j': int, ghost s: nat)
    returns (r: X)
    requires LadderLaws(o, k) && RegularBasis(k) && UnitDifference(i - i', j - j', s)
    requires x == k.at(i, j) && y == k.at(i', j') && d == Unit(k, s)
    ensures r == k.at(i + i', j + j')
  {
    r := AddKnowing(o, x, y, d, k, i, j, i', j', Pick(s, 1, 0), Pick(s, 0, 1));
  }

  method LowerPair<X>(o: Ops<X>, t: Points<X>, d1: X, ghost k: Coords<X>, ghost p: Prefix, ghost q: Prefix)
    returns (r: X)
    requires LadderLaws(o, k) && RegularBasis(k) && LowerFits(p, q) && Running(k, t, p) && d1 == Unit(k, q.s)
    ensures r == k.at(MixedI(q), MixedJ(q))
  {
    r := AddUnit(o, t.r0, t.r1, d1, k, Even(p.u), Even(p.v), MixedI(p), MixedJ(p), q.s);
  }

  method UpperPair<X>(o: Ops<X>, t: Points<X>, d1: X, ghost k: Coords<X>, ghost p: Prefix, ghost q: Prefix)
    returns (r: X)
    requires LadderLaws(o, k) && RegularBasis(k) && UpperFits(p, q) && Running(k, t, p) && d1 == Unit(k, q.s)
    ensures r == k.at(MixedI(q), MixedJ(q))
  {
    r := AddUnit(o, t.r1, t.r2, d1, k, MixedI(p), MixedJ(p), Odd(p.u), Odd(p.v), q.s);
  }

  /** Adding the outer pair gives the new odd point. */
  method OuterStep<X>(o: Ops<X>, t: Points<X>, f1: X, ghost k: Coords<X>, ghost p: Prefix, ghost q: Prefix)
    returns (r: X)
    requires LadderLaws(o, k) && RegularBasis(k) && Running(k, t, p) && f1 == k.at(1, Sign(p))
    requires q.u / 2 == p.u && q.v / 2 == p.v
    ensures r == k.at(Odd(q.u), Odd(q.v))
  {
    OuterSum(p, q);
    r := AddKnowing(o, t.r0, t.r2, f1, k, Even(p.u), Even(p.v), Odd(p.u), Odd(p.v), 1, Sign(p));
  }

  /** The swaps of the stored differences follow the parities. */
  method SwapDiffs<X>(d: Diffs<X>, a: nat, b: nat, ghost k: Coords<X>, ghost p: Prefix, ghost q: Prefix)
    returns (d': Diffs<X>)
    requires Extends(p, q, a, b) && Stored(k, d, p)
    ensures Stored(k, d', q)
  {
    StepOuter(p, q, a, b);
    var (d1, d2) := if b == 1 then (d.d2, d.d1) else (d.d1, d.d2);
    var (f1, f2) := if (a + b) % 2 == 1 then (d.f2, d.f1) else (d.f1, d.f2);
    d' := Diffs(d1, d2, f1, f2);
  }

  /** One bit: double the point the digits name, add the neighbours, add the outer pair. */
  method EvalStep<X>(o: Ops<X>, t: Points<X>, d: Diffs<X>, a: nat, b: nat, ghost k: Coords<X>, ghost p: Prefix, ghost q: Prefix)
    returns (t': Points<X>, d': Diffs<X>)
    requires LadderLaws(o, k) && RegularBasis(k) && Extends(p, q, a, b)
    requires Running(k, t, p) && Stored(k, d, p)
    ensures Running(k, t', q) && Stored(k, d', q)
  {
    var t0 := DoubleStep(o, t, a, b, k, p, q);
    var t2 := OuterStep(o, t, d.f1, k, p, q);
    d' := SwapDiffs(d, a, b, k, p, q);
    var t1: X;
    if b == 1 {
      StepMixedUpper(p, q, a);
      t1 := UpperPair(o, t, d'.d1, k, p, q);
    } else {
      StepMixed(p, q, a);
      t1 := LowerPair(o, t, d'.d1, k, p, q);
    }
    t' := Points(t0, t1, t2);
  }

  /** The recoded digits connect consecutive prefixes. */
  lemma RecodedExtends(a: nat, b: nat, k: nat, r: seq<nat>, sigma: seq<nat>, i: nat)
    requires RecodedBelow(a, b, k, r, sigma, k) && i < k
    ensures Extends(PrefixFrom(a, b, k, sigma, i + 1), PrefixFrom(a, b, k, sigma, i), r[2 * i], r[2 * i + 1])
  {
    assert RecodedAt(a, b, k, r, sigma, i);
    HighParity(a, i, k);
    HighParity(b, i, k);
    HighParity(a, i + 1, k);
    HighParity(b, i + 1, k);
  }

  function PrefixFrom(a: nat, b: nat, k: nat, sigma: seq<nat>, i: nat): Prefix
    requires i < |sigma|
  {
    Prefix(High(a, i, k), High(b, i, k), sigma[i])
  }

  /** Before any bit is read the three points are the identity, one basis point and the sum. */
  method Start<X>(o: Ops<X>, x: X, y: X, diff: X, s: nat, ghost k: Coords<X>)
    returns (t: Points<X>, d: Diffs<X>)
    requires LadderLaws(o, k) && RegularBasis(k) && s <= 1
    requires x == k.at(1, 0) && y == k.at(0, 1) && diff == k.at(1, -1)
    ensures Running(k, t, Prefix(0, 0, s)) && Stored(k, d, Prefix(0, 0, s))
  {
    var d1, d2 := if s == 1 then y else x, if s == 1 then x else y;
    var sum: X;
    if s == 1 {
      sum := AddKnowing(o, d1, d2, diff, k, 0, 1, 1, 0, 1, -1);
    } else {
      sum := AddKnowing(o, d1, d2, diff, k, 1, 0, 0, 1, 1, -1);
    }
    t := Points(o.identity, d1, sum);
    d := Diffs(d1, d2, sum, diff);
  }

  /** The evaluation stage, from the top digit pair down. */
  method Evaluate<X>(o: Ops<X>, x: X, y: X, diff: X, r: array<nat>, s: nat, ghost k: Coords<X>,
                     ghost a: nat, ghost b: nat, ghost kbits: nat, ghost sigma: seq<nat>)
    returns (t: Points<X>)
    requires LadderLaws(o, k) && RegularBasis(k)
    requires x == k.at(1, 0) && y == k.at(0, 1) && diff == k.at(1, -1)
    requires RecodedBelow(a, b, kbits, r[..], sigma, kbits) && s == sigma[kbits] && s <= 1
    ensures Running(k, t, PrefixFrom(a, b, kbits, sigma, 0))
  {
    var d: Diffs<X>;
    t, d := Start(o, x, y, diff, s, k);
    var i := r.Length / 2;
    ghost var p := Prefix(0, 0, s);
    while i > 0
      invariant 0 <= i <= kbits
      invariant p == PrefixFrom(a, b, kbits, sigma, i)
      invariant Running(k, t, p) && Stored(k, d, p)
    {
      i := i - 1;
      RecodedExtends(a, b, kbits, r[..], sigma, i);
      ghost var q := PrefixFrom(a, b, kbits, sigma, i);
      t, d := EvalStep(o, t, d, r[2 * i], r[2 * i + 1], k, p, q);
      p := q;
    }
  }

  // ----- the whole ladder -----

  /** What the recoding starts from: an even scalar is lowered by one, with wrap-around. */
  function Lowered(m: seq<byte>): seq<byte> {
    if LeNat(m) % 2 == 0 then Decrement(m, 1) else m
  }

  /** The output point's coefficient agrees with the scalar modulo 2^k. */
  lemma Restored(m: seq<byte>, k: nat) returns (t: int)
    requires |m| == 32 && 1 <= k <= 256
    ensures Final(m, High(LeNat(Lowered(m)), 0, k)) == LeNat(m) + Pow2(k) * t
  {
    var a, b, d := LeNat(m), LeNat(Lowered(m)), Pow2(k);
    LoweredValue(m);
    ResidueOfLowered(b, k);
    Pow2Add(k, 256 - k);
    t := -(b / d) + if a == 0 then Pow2(256 - k) else 0;
    RestoredValue(a, b, d, Pow2(256 - k), High(b, 0, k), t);
  }

  /** The coefficient of the point that the output stage picks. */
  function Final(m: seq<byte>, u: nat): nat {
    if LeNat(m) % 2 == 0 then Even(u) else Odd(u)
  }

  lemma LoweredValue(m: seq<byte>)
    requires m != []
    ensures LeNat(Lowered(m)) == if LeNat(m) % 2 == 1 then LeNat(m) else if LeNat(m) == 0 then Pow2(8 * |m|) - 1 else LeNat(m) - 1
    ensures LeNat(Lowered(m)) % 2 == 1
  {
    if LeNat(m) % 2 == 0 {
      DecrementValue(m, 1);
      EvenLowered(LeNat(m), LeNat(Decrement(m, 1)), Pow2(8 * |m| - 1));
    }
  }

  lemma EvenLowered(a: nat, b: int, h: nat)
    requires a % 2 == 0 && b == a - 1 + if a < 1 then 2 * h else 0
    ensures b % 2 == 1 && b == if a == 0 then 2 * h - 1 else a - 1
  {
  }

  lemma ResidueOfLowered(b: nat, k: nat)
    requires k >= 1 && b % 2 == 1
    ensures b == Pow2(k) * (b / Pow2(k)) + High(b, 0, k) && High(b, 0, k) % 2 == 1
  {
    HighMod(b, 0, k);
    assert Pow2(0) == 1;
    DivisionLaw(b, Pow2(k));
    OddResidue(b, k);
  }

  lemma RestoredValue(a: int, b: int, d: int, w: int, u: int, t: int)
    requires d > 0 && b == d * (b / d) + u && t == -(b / d) + if a == 0 then w else 0
    requires b == if a % 2 == 0 then (if a == 0 then d * w - 1 else a - 1) else a
    ensures a + d * t == if a % 2 == 0 then u + 1 else u
  {
    if a == 0 {
      assert d * t == -(d * (b / d)) + d * w;
    } else {
      assert d * t == -(d * (b / d));
    }
  }

  lemma OddResidue(b: nat, k: nat)
    requires k >= 1
    ensures (b % Pow2(k)) % 2 == b % 2
  {
    EvenModulus(b, Pow2(k - 1), Pow2(k));
  }

  /** None of p, q, p - q, 2p - q degenerates. */
  ghost predicate LadderRegular<G, X>(c: Curve<G, X>, p: G, q: G) {
    Regular(c, p) && Regular(c, q) && Regular(c, Sub(c, p, q)) && Regular(c, c.group.add(p, Sub(c, p, q)))
  }

  /** m*p + n*(p - q) on x-coordinates. */
  ghost function Combination<G, X>(c: Curve<G, X>, p: G, q: G, m: int, n: int): X {
    c.x(c.group.add(Mul(c.group, m, p), Mul(c.group, n, Sub(c, p, q))))
  }

  lemma BasisFits<G(!new), X>(c: Curve<G, X>, b: TorsionBasis<X>, p: G, q: G, n: nat)
    requires Lawful(c) && Represents(c, b, p, q) && Killed(c, p, q, n)
    ensures var s := Sub(c, p, q); var k := CoordsOf(c, p, s);
            && Killed(c, p, s, n) && b.P == k.at(1, 0) && b.PmQ == k.at(0, 1) && b.Q == k.at(1, -1)
            && (LadderRegular(c, p, q) ==> RegularBasis(k))
  {
    DifferenceBasis(c, p, q, n);
  }

  /** A basis of order 2^e with e >= 2 meets the ladder's demand. */
  lemma TrueBasisFits<G(!new), X>(c: Curve<G, X>, p: G, q: G, e: nat)
    requires Lawful(c) && e >= 2 && IsBasis(c, p, q, Pow2(e))
    ensures LadderRegular(c, p, q)
  {
    var n := Pow2(e);
    assert n == 2 * Pow2(e - 1) && Pow2(e - 1) == 2 * Pow2(e - 2);
    PtUnits(c, p, q);
    PtNeg(c, p, q, 0, 1);
    PtAdd(c, p, q, 1, 0, 0, -1);
    PtAdd(c, p, q, 1, 0, 1, -1);
    BasisIsRegular(c, p, q, n, 1, 0);
    BasisIsRegular(c, p, q, n, 0, 1);
    BasisIsRegular(c, p, q, n, 1, -1);
    BasisIsRegular(c, p, q, n, 2, -1);
  }

  /** For a basis of exact order two, the answer is looked up by parities. */
  method LookUp<G, X>(c: Curve<G, X>, b: TorsionBasis<X>, m0: nat, n0: nat) returns (r: X)
    ensures r == if n0 == 1 then (if m0 == 1 then b.Q else b.PmQ) else if m0 == 1 then b.P else c.x(c.group.zero)
  {
    var r0 := if m0 == 1 then b.P else c.x(c.group.zero);
    var r1 := if m0 == 1 then b.Q else b.PmQ;
    r := if n0 == 1 then r1 else r0;
  }

  lemma ParityOnly<G(!new), X>(c: Curve<G, X>, p: G, q: G, m: nat, n: nat)
    requires Lawful(c) && Killed(c, p, q, 2)
    ensures Combination(c, p, q, m, n) ==
      if n % 2 == 1 then (if m % 2 == 1 then c.x(q) else c.x(Sub(c, p, q))) else if m % 2 == 1 then c.x(p) else c.x(c.group.zero)
  {
    var s := Sub(c, p, q);
    DifferenceBasis(c, p, q, 2);
    PtUnits(c, p, s);
    PtPeriodic(c, p, s, 2, m % 2, n % 2, m / 2, n / 2);
    PtPeriodic(c, p, s, 2, 1, -1, 0, 1);
  }

  method Parity(m: seq<byte>) returns (bit: nat)
    requires m != []
    ensures bit == LeNat(m) % 2 && bit <= 1
  {
    HalveValue(m);
    bit := m[0] as nat % 2;
  }

  method BiscalarMul<G(!new), X>(c: Curve<G, X>, basis: TorsionBasis<X>, m: seq<byte>, n: seq<byte>, e: nat, ghost p: G, ghost q: G)
    returns (r: X)
    requires Lawful(c) && Represents(c, basis, p, q) && Killed(c, p, q, Pow2(e))
    requires |m| == |n| == 32 && e <= 248
    requires e == 1 || LadderRegular(c, p, q)
    ensures r == Combination(c, p, q, LeNat(m), LeNat(n))
  {
    var m0 := Parity(m);
    var n0 := Parity(n);
    if e == 1 {
      TwoTorsion(c, p, q, e);
      ParityOnly(c, p, q, LeNat(m), LeNat(n));
      r := LookUp(c, basis, m0, n0);
    } else {
      NotTrivial(c, p, q, e);
      r := Ladder(c, basis, m, n, e, m0, n0, p, q);
    }
  }

  /** On every basis of order 2^e the demand on differences is met, as exponent one is looked up. */
  method BiscalarMulOnBasis<G(!new), X>(c: Curve<G, X>, basis: TorsionBasis<X>, m: seq<byte>, n: seq<byte>, e: nat, ghost p: G, ghost q: G)
    returns (r: X)
    requires Lawful(c) && Represents(c, basis, p, q) && IsBasis(c, p, q, Pow2(e))
    requires |m| == |n| == 32 && 1 <= e <= 248
    ensures r == Combination(c, p, q, LeNat(m), LeNat(n))
  {
    if e >= 2 { TrueBasisFits(c, p, q, e); }
    r := BiscalarMul(c, basis, m, n, e, p, q);
  }

  lemma TwoTorsion<G, X>(c: Curve<G, X>, p: G, q: G, e: nat)
    requires Killed(c, p, q, Pow2(e)) && e == 1
    ensures Killed(c, p, q, 2)
  {
    assert Pow2(e) == 2 * Pow2(e - 1) && Pow2(e - 1) == 1;
  }

  lemma NotTrivial<G(!new), X>(c: Curve<G, X>, p: G, q: G, e: nat)
    requires Lawful(c) && Killed(c, p, q, Pow2(e)) && Regular(c, p)
    ensures e >= 1
  {
    if e == 0 {
      assert Pow2(e) == 1;
      PtUnits(c, p, q);
      MulOne(c.group, p);
    }
  }

  /** The recoding stage: lower the even scalars, then read the digits. */
  method RecodeBoth(m: seq<byte>, n: seq<byte>, e: nat, m0: nat, n0: nat, sigma0: nat)
    returns (digits: array<nat>, s: nat, ghost sigma: seq<nat>)
    requires |m| == |n| == 32 && m0 == LeNat(m) % 2 && n0 == LeNat(n) % 2 && sigma0 <= 1
    ensures RecodedBelow(LeNat(Lowered(m)), LeNat(Lowered(n)), e, digits[..], sigma, e)
    ensures |sigma| == e + 1 && sigma[0] == sigma0 && sigma[e] == s && s <= 1
  {
    var mt, nt := new byte[32](i requires 0 <= i < 32 => m[i]), new byte[32](i requires 0 <= i < 32 => n[i]);
    assert mt[..] == m && nt[..] == n;
    SubOne(mt, m0 == 0);
    SubOne(nt, n0 == 0);
    digits, s, sigma := Recode(mt, nt, e, sigma0);
  }

  /** The output stage picks the point whose coefficients are the restored scalars. */
  method Choose<X>(t: Points<X>, m0: nat, n0: nat, ghost k: Coords<X>, ghost p: Prefix)
    returns (r: X)
    requires Running(k, t, p) && m0 <= 1 && n0 <= 1
    requires m0 + n0 == 1 ==> p.s == 1 - m0
    ensures r == k.at(if m0 == 0 then Even(p.u) else Odd(p.u), if n0 == 0 then Even(p.v) else Odd(p.v))
  {
    var evens := (1 - m0) + (1 - n0);
    r := if evens % 2 == 1 then t.r1 else t.r0;
    if m0 == 1 && n0 == 1 {
      r := t.r2;
    }
  }

  method Ladder<G(!new), X>(c: Curve<G, X>, basis: TorsionBasis<X>, m: seq<byte>, n: seq<byte>, e: nat, m0: nat, n0: nat,
                            ghost p: G, ghost q: G)
    returns (r: X)
    requires Lawful(c) && Represents(c, basis, p, q) && Killed(c, p, q, Pow2(e)) && LadderRegular(c, p, q)
    requires |m| == |n| == 32 && 1 <= e <= 248 && m0 == LeNat(m) % 2 && n0 == LeNat(n) % 2
    ensures r == Combination(c, p, q, LeNat(m), LeNat(n))
  {
    var sigma0 := if m0 + n0 == 1 then 1 - m0 else 0;
    var digits, s, sigma := RecodeBoth(m, n, e, m0, n0, sigma0);
    ghost var k := CoordsOf(c, p, Sub(c, p, q));
    CurveLadder(c, p, Sub(c, p, q));
    BasisFits(c, basis, p, q, Pow2(e));
    ghost var a, b := LeNat(Lowered(m)), LeNat(Lowered(n));
    var t := Evaluate(OpsOf(c), basis.P, basis.PmQ, basis.Q, digits, s, k, a, b, e, sigma);
    r := Choose(t, m0, n0, k, PrefixFrom(a, b, e, sigma, 0));
    FinalCombination(c, p, q, m, n, e);
  }

  lemma FinalCombination<G(!new), X>(c: Curve<G, X>, p: G, q: G, m: seq<byte>, n: seq<byte>, e: nat)
    requires Lawful(c) && Killed(c, p, Sub(c, p, q), Pow2(e)) && |m| == |n| == 32 && 1 <= e <= 248
    ensures var u, v := High(LeNat(Lowered(m)), 0, e), High(LeNat(Lowered(n)), 0, e);
            CoordsOf(c, p, Sub(c, p, q)).at(Final(m, u), Final(n, v)) == Combination(c, p, q, LeNat(m), LeNat(n))
  {
    var t1 := Restored(m, e);
    var t2 := Restored(n, e);
    var u, v := High(LeNat(Lowered(m)), 0, e), High(LeNat(Lowered(n)), 0, e);
    ShiftedCombination(c, p, q, LeNat(m), LeNat(n), Final(m, u), Final(n, v), Pow2(e), t1, t2);
  }

  lemma ShiftedCombination<G(!new), X>(c: Curve<G, X>, p: G, q: G, m: int, n: int, i: int, j: int, d: nat, t: int, u: int)
    requires Lawful(c) && Killed(c, p, Sub(c, p, q), d)
    requires i == m + d * t && j == n + d * u
    ensures CoordsOf(c, p, Sub(c, p, q)).at(i, j) == Combination(c, p, q, m, n)
  {
    PtPeriodic(c, p, Sub(c, p, q), d, m, n, t, u);
  }
}
