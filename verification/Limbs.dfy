/** Scalars as four 64-bit limbs, and setting fresh bits in them. */
module Limbs {
  import opened Arith

  const LIMB: nat := 0x1_0000_0000_0000_0000

  lemma LimbIsPower(n: nat)
    requires n == 64
    ensures Pow2(n) == LIMB
  {
    assert Pow2(8) == 256;
    Pow2Twice(8, 256);
    Pow2Twice(16, 0x1_0000);
    Pow2Twice(32, 0x1_0000_0000);
  }

  lemma Pow2Twice(n: nat, x: nat)
    requires Pow2(n) == x
    ensures Pow2(2 * n) == x * x
  {
    Pow2Add(n, n);
  }

  /** The value of 64-bit limbs, lowest first. */
  function LimbNat(m: seq<nat>): nat {
    if m == [] then 0 else m[0] + LIMB * LimbNat(m[1..])
  }

  predicate IsScalar(m: seq<nat>) {
    |m| == 4 && forall l: nat | l < 4 :: IsLimb(m[l])
  }

  predicate IsLimb(x: nat) {
    x < LIMB
  }

  // ----- or on disjoint bits -----

  function Or(a: nat, b: nat): nat {
    if a == 0 && b == 0 then 0 else (if a % 2 == 1 || b % 2 == 1 then 1 else 0) + 2 * Or(a / 2, b / 2)
  }

  lemma {:induction false} OrZero(a: nat)
    ensures Or(a, 0) == a && Or(0, a) == a
  {
    if a > 0 {
      OrZero(a / 2);
    }
  }

  /** Bits from p upward do not meet a number below 2^p. */
  lemma {:induction false} OrDisjoint(a: nat, b: nat, p: nat)
    requires a < Pow2(p)
    ensures Or(a, b * Pow2(p)) == a + b * Pow2(p)
  {
    if p == 0 {
      OrZero(b);
    } else {
      var h := b * Pow2(p - 1);
      assert b * Pow2(p) == 2 * h;
      OrDisjoint(a / 2, b, p - 1);
      OrStep(a, h);
    }
  }

  lemma OrStep(a: nat, h: nat)
    ensures Or(a, 2 * h) == a % 2 + 2 * Or(a / 2, h)
  {
    if a == 0 && h == 0 {
      OrZero(0);
    }
  }

  // ----- filling a scalar from the lowest bit -----

  /** How many of the lowest n bits lie in limb j. */
  function Room(n: nat, j: nat): nat {
    if n <= 64 * j then 0 else if n >= 64 * (j + 1) then 64 else n - 64 * j
  }

  predicate BelowAt(m: seq<nat>, n: nat, j: nat)
    requires j < |m|
  {
    m[j] < Pow2(Room(n, j))
  }

  /** Nothing is set from bit n on. */
  ghost predicate BelowBit(m: seq<nat>, n: nat) {
    |m| == 4 && forall j: nat | j < 4 :: BelowAt(m, n, j)
  }

  /** LIMB^l. */
  function Weight(l: nat): nat {
    if l == 0 then 1 else LIMB * Weight(l - 1)
  }

  lemma {:induction false} WeightIsPower(l: nat)
    ensures Weight(l) == Pow2(64 * l)
  {
    if l > 0 {
      WeightIsPower(l - 1);
      Pow2Add(64, 64 * (l - 1));
      LimbIsPower(64);
    }
  }

  lemma {:induction false} UpdateValue(m: seq<nat>, l: nat, v: nat)
    requires l < |m|
    ensures LimbNat(m[l := v]) == LimbNat(m) + Weight(l) * (v - m[l])
  {
    if l == 0 {
      assert m[0 := v][1..] == m[1..];
    } else {
      UpdateValue(m[1..], l - 1, v);
      assert m[l := v][1..] == m[1..][l - 1 := v];
      LimbStep(LimbNat(m[1..]), LimbNat(m[l := v][1..]), Weight(l - 1), v - m[l]);
    }
  }

  lemma LimbStep(x: int, y: int, w: int, d: int)
    requires y == x + w * d
    ensures LIMB * y == LIMB * x + (LIMB * w) * d
  {
  }

  /** Sets the w bits of v at bit n, which nothing has reached yet and which do not cross a limb. */
  method SetBits(m: seq<nat>, n: nat, w: nat, v: nat) returns (r: seq<nat>)
    requires BelowBit(m, n) && v < Pow2(w) && n / 64 < 4 && n % 64 + w <= 64
    ensures BelowBit(r, n + w) && LimbNat(r) == LimbNat(m) + v * Pow2(n)
  {
    var l, p := n / 64, n % 64;
    r := m[l := Or(m[l], v * Pow2(p))];
    BitsValue(m, n, l, p, v);
    BitsBelow(m, n, l, p, w, v);
  }

  lemma BitsValue(m: seq<nat>, n: nat, l: nat, p: nat, v: nat)
    requires BelowBit(m, n) && l < 4 && p < 64 && n == 64 * l + p
    ensures LimbNat(m[l := Or(m[l], v * Pow2(p))]) == LimbNat(m) + v * Pow2(n)
  {
    FreshBits(m, n, l, p, v);
    UpdateValue(m, l, m[l] + v * Pow2(p));
    BitsWeight(l, p, v);
  }

  /** In limb l nothing is set from bit p on, so or is addition. */
  lemma FreshBits(m: seq<nat>, n: nat, l: nat, p: nat, v: nat)
    requires BelowBit(m, n) && l < 4 && p < 64 && n == 64 * l + p
    ensures m[l] < Pow2(p) && Or(m[l], v * Pow2(p)) == m[l] + v * Pow2(p)
  {
    assert BelowAt(m, n, l) && Room(n, l) == p;
    OrDisjoint(m[l], v, p);
  }

  lemma BitsWeight(l: nat, p: nat, v: nat)
    ensures Weight(l) * (v * Pow2(p)) == v * Pow2(64 * l + p)
  {
    WeightIsPower(l);
    Pow2Add(64 * l, p);
    Swap(Pow2(64 * l), v, Pow2(p));
  }

  lemma Swap(x: int, y: int, z: int)
    ensures x * (y * z) == y * (x * z)
  {
  }

  lemma BitsBelow(m: seq<nat>, n: nat, l: nat, p: nat, w: nat, v: nat)
    requires BelowBit(m, n) && l < 4 && n == 64 * l + p && p + w <= 64 && p < 64 && v < Pow2(w)
    ensures BelowBit(m[l := Or(m[l], v * Pow2(p))], n + w)
  {
    var r, n' := m[l := Or(m[l], v * Pow2(p))], n + w;
    FreshBits(m, n, l, p, v);
    ShiftBound(m[l], v, Pow2(w), Pow2(p));
    Pow2Add(w, p);
    forall j: nat | j < 4 ensures BelowAt(r, n', j) {
      assert BelowAt(m, n, j);
      RoomGrows(n, l, p, w, j);
    }
  }

  lemma RoomGrows(n: nat, l: nat, p: nat, w: nat, j: nat)
    requires n == 64 * l + p && p + w <= 64 && p < 64
    ensures Room(n + w, j) == if j == l then p + w else Room(n, j)
  {
  }

  lemma ShiftBound(a: nat, v: nat, w: nat, p: nat)
    requires a < p && v < w
    ensures a + v * p < w * p
  {
    Grow(p, v + 1, w);
  }

  lemma Zeros()
    ensures BelowBit([0, 0, 0, 0], 0) && LimbNat([0, 0, 0, 0]) == 0
  {
    assert Pow2(0) == 1;
    var z := [0, 0, 0, 0];
    assert z[1..] == [0, 0, 0] && z[1..][1..] == [0, 0] && z[1..][1..][1..] == [0];
  }
}
