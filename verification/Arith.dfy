/** Divisibility and powers of two over the unbounded integers. */
module Arith {

  /** The field characteristic 5 * 2^248 - 1. */
  const P: int := 5 * 0x1_00000000_00000000_00000000_00000000_00000000_00000000_00000000_000000 - 1

  /** Division with a remainder in [0, |d|), which is what the big-integer type computes for either sign. */
  lemma DivisionLaw(x: int, d: int)
    requires d != 0
    ensures x == d * (x / d) + x % d
    ensures 0 <= x % d && (x % d < d || x % d < -d)
  {
  }

  lemma ExactQuotient(d: int, q: int)
    requires d != 0
    ensures (d * q) % d == 0 && (d * q) / d == q
  {
    var n := d * q;
    DivisionLaw(n, d);
    var k := q - n / d;
    assert d * k == n % d;
    SmallMultiple(d, k);
  }

  lemma SmallMultiple(d: int, k: int)
    requires d != 0 && 0 <= d * k && (d * k < d || d * k < -d)
    ensures k == 0
  {
    if k >= 1 {
      if d > 0 { Grow(d, 1, k); } else { Grow(-d, 1, k); }
    } else if k <= -1 {
      if d > 0 { Grow(d, 1, -k); } else { Grow(-d, 1, -k); }
    }
  }

  lemma Grow(d: int, x: int, y: int)
    requires d >= 0 && x <= y
    ensures d * x <= d * y
  {
  }

  lemma TimesAssoc(x: int, y: int, z: int)
    ensures x * (y * z) == (x * y) * z
  {
  }

  function Pow2(n: nat): (r: nat)
    ensures r > 0
  {
    if n == 0 then 1 else 2 * Pow2(n - 1)
  }

  lemma {:induction false} Pow2Add(m: nat, n: nat)
    ensures Pow2(m + n) == Pow2(m) * Pow2(n)
    decreases m
  {
    if m > 0 {
      Pow2Add(m - 1, n);
      DoubleFactor(Pow2(m - 1), Pow2(n));
    }
  }

  lemma DoubleFactor(x: int, y: int)
    ensures 2 * (x * y) == (2 * x) * y
  {
  }

  /** Dividing by one power of two and then by two is dividing by the next power. */
  lemma ShiftOnce(a: nat, i: nat)
    ensures a / Pow2(i) / 2 == a / Pow2(i + 1)
  {
    var d := Pow2(i);
    var q := a / d;
    DivisionLaw(a, d);
    DivisionLaw(q, 2);
    HalvedQuotient(a, d, q, a % d, q / 2, q % 2);
  }

  lemma HalvedQuotient(a: int, d: int, q: int, m: int, h: int, b: int)
    requires d > 0 && a == d * q + m && 0 <= m < d && q == 2 * h + b && 0 <= b <= 1
    ensures a / (2 * d) == h
  {
    assert d * q == 2 * d * h + d * b;
    QuotientUnique(2 * d, h, if b == 0 then m else d + m, a);
  }

  /** Dividing twice is dividing by the product. */
  lemma DivideTwice(a: nat, d: nat, e: nat)
    requires d > 0 && e > 0
    ensures d * e > 0 && a / d / e == a / (d * e)
  {
    var q := a / d;
    DivisionLaw(a, d);
    DivisionLaw(q, e);
    var r := d * (q % e) + a % d;
    Grow(d, q % e + 1, e);
    assert d * (e * (q / e) + q % e) == d * e * (q / e) + d * (q % e);
    Grow(d, 0, q % e);
    QuotientUnique(d * e, q / e, r, a);
  }

  lemma QuotientUnique(d: int, q: int, r: int, a: int)
    requires d > 0 && a == d * q + r && 0 <= r < d
    ensures a / d == q && a % d == r
  {
    DivisionLaw(a, d);
    var k := a / d - q;
    assert d * k == r - a % d;
    if k >= 1 {
      Grow(d, 1, k);
    } else if k <= -1 {
      Grow(d, 1, -k);
    }
  }
}
