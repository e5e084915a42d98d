/** Greatest common divisors and the extended Euclidean algorithm. */
module Gcds {
  import opened Arith

  function Abs(x: int): nat {
    if x < 0 then -x else x
  }

  function Gcd(a: nat, b: nat): nat
    decreases b
  {
    if b == 0 then a else Gcd(b, a % b)
  }

  ghost predicate Divides(d: int, x: int) {
    exists k: int :: x == d * k
  }

  lemma DividesLinear(d: int, x: int, y: int, u: int, v: int)
    requires Divides(d, x) && Divides(d, y)
    ensures Divides(d, u * x + v * y)
  {
    var j: int :| x == d * j;
    var k: int :| y == d * k;
    LinearRaw(d, j, k, u, v);
    assert u * x + v * y == d * (u * j + v * k);
  }

  lemma LinearRaw(d: int, j: int, k: int, u: int, v: int)
    ensures u * (d * j) + v * (d * k) == d * (u * j + v * k)
  {
  }

  /** The gcd is a common divisor and an integer combination, which makes it the greatest one. */
  lemma {:induction false} GcdLaw(a: nat, b: nat) returns (u: int, v: int)
    ensures Divides(Gcd(a, b), a) && Divides(Gcd(a, b), b)
    ensures Gcd(a, b) == u * a + v * b
    ensures Gcd(a, b) == 0 <==> a == 0 && b == 0
    decreases b
  {
    if b == 0 {
      u, v := 1, 0;
      assert a == a * 1 && b == a * 0;
    } else {
      var q, r := a / b, a % b;
      DivisionLaw(a, b);
      var u', v' := GcdLaw(b, r);
      u, v := v', u' - v' * q;
      EuclidStep(a, b, q, r, u', v');
      DividesLinear(Gcd(a, b), b, r, q, 1);
      assert a == q * b + 1 * r;
    }
  }

  lemma EuclidStep(a: int, b: int, q: int, r: int, u: int, v: int)
    requires a == b * q + r
    ensures u * b + v * r == v * a + (u - v * q) * b
  {
    assert v * a == v * (b * q) + v * r;
    assert v * (b * q) == (v * q) * b;
  }

  lemma DividesZero(d: int)
    ensures Divides(d, 0)
  {
    assert 0 == d * 0;
  }

  lemma DividesTrans(d: int, e: int, x: int)
    requires Divides(d, e) && Divides(e, x)
    ensures Divides(d, x)
  {
    var j: int :| e == d * j;
    var k: int :| x == e * k;
    assert x == d * (j * k);
  }

  lemma DividesAbs(d: int, x: int)
    ensures Divides(d, Abs(x)) <==> Divides(d, x)
    ensures Divides(Abs(d), x) <==> Divides(d, x)
  {
    if k: int :| x == d * k {
      assert -x == d * -k;
      assert x == -d * -k;
    }
    if k: int :| Abs(x) == d * k {
      assert -1 * Abs(x) == d * -k;
    }
    if k: int :| x == Abs(d) * k {
      assert x == d * (if d < 0 then -k else k);
    }
  }

  /** Signed extended Euclid: a non-negative gcd with its two cofactors. */
  method Xgcd(a: int, b: int) returns (g: int, u: int, v: int)
    ensures g == u * a + v * b
    ensures Divides(g, a) && Divides(g, b)
    ensures g >= 0 && (g == 0 <==> a == 0 && b == 0)
    ensures a > 0 && b == 0 ==> u == 1 && v == 0
  {
    if a == 0 {
      g, u, v := Abs(b), 0, if b < 0 then -1 else 1;
      DividesZero(g);
      assert b == g * v;
      return;
    }
    if b == 0 {
      g, u, v := Abs(a), if a < 0 then -1 else 1, 0;
      DividesZero(g);
      assert a == g * u;
      return;
    }
    g, u, v := Euclid(Abs(a), Abs(b));
    u := if a < 0 then -u else u;
    v := if b < 0 then -v else v;
    DividesAbs(g, a);
    DividesAbs(g, b);
  }

  method Euclid(a: nat, b: nat) returns (g: int, u: int, v: int)
    requires a > 0 && b > 0
    ensures g == u * a + v * b && g > 0
    ensures Divides(g, a) && Divides(g, b)
  {
    var y, uy, vy := b, 0, 1;
    g, u, v := a, 1, 0;
    while y != 0
      invariant g > 0 && y >= 0
      invariant g == u * a + v * b
      invariant y == uy * a + vy * b
      invariant forall d: int :: Divides(d, g) && Divides(d, y) ==> Divides(d, a) && Divides(d, b)
      decreases y
    {
      var q, r := g / y, g % y;
      DivisionLaw(g, y);
      CofactorStep(a, b, u, v, uy, vy, q, g, y, r);
      forall d: int | Divides(d, y) && Divides(d, r) ensures Divides(d, g) {
        DividesLinear(d, y, r, q, 1);
        assert g == q * y + 1 * r;
      }
      u, uy := uy, u - q * uy;
      v, vy := vy, v - q * vy;
      g, y := y, r;
    }
    assert g == g * 1;
    DividesZero(g);
  }

  lemma CofactorStep(a: int, b: int, ux: int, vx: int, uy: int, vy: int, q: int, x: int, y: int, r: int)
    requires x == ux * a + vx * b && y == uy * a + vy * b && r == x - y * q
    ensures (ux - q * uy) * a + (vx - q * vy) * b == r
  {
    assert (ux - q * uy) * a == ux * a - q * (uy * a);
    assert (vx - q * vy) * b == vx * b - q * (vy * b);
    assert y * q == q * (uy * a) + q * (vy * b);
  }
}
