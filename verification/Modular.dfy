/** Congruences, and the scalar arithmetic modulo a power of two. */
module Modular {
  import opened Arith
  import opened Options

  ghost predicate Shift(a: int, b: int, n: int, t: int) {
    a == b + n * t
  }

  ghost predicate Cong(a: int, b: int, n: int) {
    exists t: int :: Shift(a, b, n, t)
  }

  lemma CongIntro(a: int, b: int, n: int, t: int)
    requires a == b + n * t
    ensures Cong(a, b, n)
  {
    assert Shift(a, b, n, t);
  }

  lemma CongElim(a: int, b: int, n: int) returns (t: int)
    requires Cong(a, b, n)
    ensures a == b + n * t
  {
    t :| Shift(a, b, n, t);
  }

  lemma CongRefl(a: int, n: int)
    ensures Cong(a, a, n)
  {
    CongIntro(a, a, n, 0);
  }

  /** Being congruent to zero is being divisible. */
  lemma CongZero(a: int, n: int)
    requires n > 0
    ensures Cong(a, 0, n) <==> a % n == 0
  {
    if Cong(a, 0, n) {
      var t := CongElim(a, 0, n);
      ExactQuotient(n, t);
    } else {
      DivisionLaw(a, n);
      if a % n == 0 {
        CongIntro(a, 0, n, a / n);
      }
    }
  }

  lemma DifferenceZero(i: int, k: int, n: int)
    requires n > 0 && (i - k) % n == 0
    ensures Cong(i, k, n)
  {
    CongZero(i - k, n);
    var t := CongElim(i - k, 0, n);
    CongIntro(i, k, n, t);
  }

  lemma CongMod(a: int, n: int)
    requires n > 0
    ensures Cong(a % n, a, n) && Cong(a, a % n, n)
  {
    DivisionLaw(a, n);
    CongIntro(a, a % n, n, a / n);
    CongIntro(a % n, a, n, -(a / n));
  }

  lemma CongSym(a: int, b: int, n: int)
    requires Cong(a, b, n)
    ensures Cong(b, a, n)
  {
    var t := CongElim(a, b, n);
    CongIntro(b, a, n, -t);
  }

  lemma CongTrans(a: int, b: int, c: int, n: int)
    requires Cong(a, b, n) && Cong(b, c, n)
    ensures Cong(a, c, n)
  {
    var t := CongElim(a, b, n);
    var u := CongElim(b, c, n);
    CongIntro(a, c, n, t + u);
  }

  lemma CongAdd(a: int, b: int, c: int, d: int, n: int)
    requires Cong(a, b, n) && Cong(c, d, n)
    ensures Cong(a + c, b + d, n) && Cong(a - c, b - d, n)
  {
    var t := CongElim(a, b, n);
    var u := CongElim(c, d, n);
    CongIntro(a + c, b + d, n, t + u);
    CongIntro(a - c, b - d, n, t - u);
  }

  lemma CongMul(a: int, b: int, c: int, d: int, n: int)
    requires Cong(a, b, n) && Cong(c, d, n)
    ensures Cong(a * c, b * d, n)
  {
    var t := CongElim(a, b, n);
    var u := CongElim(c, d, n);
    ProductOfShifts(a, b, c, d, n, t, u);
    CongIntro(a * c, b * d, n, t * c + b * u);
  }

  lemma ProductOfShifts(a: int, b: int, c: int, d: int, n: int, t: int, u: int)
    requires a == b + n * t && c == d + n * u
    ensures a * c == b * d + n * (t * c + b * u)
  {
    assert a * c == b * c + (n * t) * c;
    assert b * c == b * d + b * (n * u);
    assert (n * t) * c == n * (t * c) && b * (n * u) == n * (b * u);
  }

  /** Two reduced residues that are congruent are equal. */
  lemma CongEqual(a: int, b: int, n: int)
    requires n > 0 && Cong(a, b, n) && 0 <= a < n && 0 <= b < n
    ensures a == b
  {
    var t := CongElim(a, b, n);
    QuotientUnique(n, t, b, a);
    QuotientUnique(n, 0, a, a);
  }

  /** Equal residues are the same as congruent numbers. */
  lemma ModEqual(a: int, b: int, n: int)
    requires n > 0
    ensures a % n == b % n <==> Cong(a, b, n)
  {
    CongMod(a, n);
    CongMod(b, n);
    if Cong(a, b, n) {
      CongTrans(a % n, a, b, n);
      CongTrans(a % n, b, b % n, n);
      CongEqual(a % n, b % n, n);
    } else if a % n == b % n {
      CongTrans(a, a % n, b, n);
    }
  }

  /** A modulus may be replaced by a divisor. */
  lemma CongDivisor(a: int, b: int, m: int, n: int)
    requires Cong(a, b, m * n)
    ensures Cong(a, b, m)
  {
    var t := CongElim(a, b, m * n);
    assert m * n * t == m * (n * t);
    CongIntro(a, b, m, n * t);
  }

  // ----- scalars modulo 2^k -----

  function MulMod2k(a: nat, b: nat, k: nat): (r: nat)
    ensures r < Pow2(k) && Cong(r, a * b, Pow2(k))
  {
    CongMod(a * b, Pow2(k));
    (a * b) % Pow2(k)
  }

  function SubMod2k(a: nat, b: nat, k: nat): (r: nat)
    ensures r < Pow2(k) && Cong(r, a - b, Pow2(k))
  {
    CongMod(a - b, Pow2(k));
    (a - b) % Pow2(k)
  }

  function AddMod2k(a: nat, b: nat, k: nat): (r: nat)
    ensures r < Pow2(k) && Cong(r, a + b, Pow2(k))
  {
    CongMod(a + b, Pow2(k));
    (a + b) % Pow2(k)
  }

  /** Newton's step squares the error. */
  lemma NewtonStep(a: int, x: int, ax: int, correction: int, x': int, d: int, m: int)
    requires m > 0 && Cong(a * x, 1, d) && (d * d) % m == 0
    requires Cong(ax, a * x, m) && Cong(correction, 2 - ax, m) && Cong(x', x * correction, m)
    ensures Cong(a * x', 1, m)
  {
    var y := a * x;
    NewtonValue(a, x, ax, correction, x', m);
    var t := CongElim(y, 1, d);
    SquareError(y, d, t);
    DivisionLaw(d * d, m);
    SquareVanishes(y * (2 - y), d, t, m, (d * d) / m);
    CongTrans(a * x', y * (2 - y), 1, m);
  }

  lemma NewtonValue(a: int, x: int, ax: int, correction: int, x': int, m: int)
    requires Cong(ax, a * x, m) && Cong(correction, 2 - ax, m) && Cong(x', x * correction, m)
    ensures Cong(a * x', a * x * (2 - a * x), m)
  {
    CongRefl(a, m);
    CongMul(a, a, x', x * correction, m);
    Associate(a, x, correction);
    CorrectedValue(a * x, ax, correction, a * x', m);
  }

  lemma CorrectedValue(y: int, ax: int, correction: int, z: int, m: int)
    requires Cong(ax, y, m) && Cong(correction, 2 - ax, m) && Cong(z, y * correction, m)
    ensures Cong(z, y * (2 - y), m)
  {
    CongRefl(2, m);
    CongRefl(y, m);
    CongAdd(2, 2, ax, y, m);
    CongTrans(correction, 2 - ax, 2 - y, m);
    CongMul(y, y, correction, 2 - y, m);
    CongTrans(z, y * correction, y * (2 - y), m);
  }

  lemma Associate(x: int, y: int, z: int)
    ensures x * (y * z) == x * y * z
  {
  }

  lemma SquareVanishes(z: int, d: int, t: int, m: int, q: int)
    requires z == 1 - (d * d) * (t * t) && d * d == m * q
    ensures Cong(z, 1, m)
  {
    Associate(m, q, t * t);
    CongIntro(z, 1, m, -(q * (t * t)));
  }

  lemma SquareError(y: int, d: int, t: int)
    requires y == 1 + d * t
    ensures y * (2 - y) == 1 - (d * d) * (t * t)
  {
    var e := d * t;
    assert y * (2 - y) == (1 + e) * (1 - e) == 1 - e * e;
    assert e * e == (d * d) * (t * t);
  }

  lemma DoubledExponent(p: nat, q: nat)
    requires q <= 2 * p
    ensures (Pow2(p) * Pow2(p)) % Pow2(q) == 0
  {
    Pow2Add(p, p);
    Pow2Add(q, 2 * p - q);
    ExactQuotient(Pow2(q), Pow2(2 * p - q));
  }

  /** Inversion modulo 2^k by Hensel lifting; an even number has no inverse. */
  method InvMod2k(a: nat, k: nat) returns (r: Option<nat>)
    requires k >= 1
    ensures r.None? <==> a % 2 == 0
    ensures r.Some? ==> r.value < Pow2(k) && Cong(a * r.value, 1, Pow2(k))
  {
    if a % 2 == 0 {
      return None;
    }
    var x: nat := 1;
    var pow: nat := 1;
    OddIsOne(a, pow);
    while pow < k
      invariant 1 <= pow <= k
      invariant x < Pow2(pow) && Cong(a * x, 1, Pow2(pow))
    {
      var next := if pow * 2 < k then pow * 2 else k;
      var ax := MulMod2k(a, x, next);
      var correction := SubMod2k(2, ax, next);
      var x' := MulMod2k(x, correction, next);
      DoubledExponent(pow, next);
      NewtonStep(a, x, ax, correction, x', Pow2(pow), Pow2(next));
      x, pow := x', next;
    }
    r := Some(x);
  }

  lemma OddIsOne(a: nat, p: nat)
    requires a % 2 == 1 && p == 1
    ensures Pow2(p) == 2 && Cong(a * 1, 1, Pow2(p))
  {
    assert Pow2(p - 1) == 1;
    CongIntro(a * 1, 1, Pow2(p), a / 2);
  }

  /** Being invertible modulo 2^k is being odd. */
  lemma InvertibleIsOdd(a: int, x: int, k: nat)
    requires k >= 1 && Cong(a * x, 1, Pow2(k))
    ensures a % 2 == 1
  {
    var t := CongElim(a * x, 1, Pow2(k));
    OddFactor(a, x, Pow2(k - 1) * t);
  }

  lemma OddFactor(a: int, x: int, t: int)
    requires a * x == 1 + 2 * t
    ensures a % 2 == 1
  {
    if a % 2 == 0 {
      EvenProduct(a, x);
    }
  }

  lemma EvenProduct(a: int, x: int)
    requires a % 2 == 0
    ensures (a * x) % 2 == 0
  {
    assert a * x == 2 * (a / 2 * x);
  }
}
