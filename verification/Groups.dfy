/** Abelian groups given by their operations, and integer multiples in them. */
module Groups {

  datatype Group<!G> = Group(zero: G, add: (G, G) -> G, neg: G -> G)

  ghost predicate Associates<G>(g: Group<G>, p: G, q: G, r: G) {
    g.add(g.add(p, q), r) == g.add(p, g.add(q, r))
  }

  ghost predicate Commutes<G>(g: Group<G>, p: G, q: G) {
    g.add(p, q) == g.add(q, p)
  }

  ghost predicate HasInverse<G>(g: Group<G>, p: G) {
    g.add(p, g.zero) == p && g.add(p, g.neg(p)) == g.zero
  }

  ghost predicate IsGroup<G(!new)>(g: Group<G>) {
    && (forall p: G, q: G, r: G :: Associates(g, p, q, r))
    && (forall p: G, q: G :: Commutes(g, p, q))
    && (forall p: G :: HasInverse(g, p))
  }

  function Mul<G>(g: Group<G>, k: int, p: G): G
    decreases if k < 0 then -k + 1 else k
  {
    if k == 0 then g.zero
    else if k > 0 then g.add(p, Mul(g, k - 1, p))
    else g.neg(Mul(g, -k, p))
  }

  lemma Cancel<G(!new)>(g: Group<G>, p: G, q: G, r: G)
    requires IsGroup(g) && g.add(p, r) == g.add(q, r)
    ensures p == q
  {
    assert Associates(g, p, r, g.neg(r)) && Associates(g, q, r, g.neg(r)) && HasInverse(g, r);
    assert HasInverse(g, p) && HasInverse(g, q);
  }

  lemma NegUnique<G(!new)>(g: Group<G>, p: G, q: G)
    requires IsGroup(g) && g.add(p, q) == g.zero
    ensures q == g.neg(p)
  {
    assert HasInverse(g, p) && Commutes(g, p, q) && Commutes(g, p, g.neg(p));
    Cancel(g, q, g.neg(p), p);
  }

  /** The middle terms of a sum of two sums may be exchanged. */
  lemma Interchange<G(!new)>(g: Group<G>, p: G, q: G, r: G, s: G)
    requires IsGroup(g)
    ensures g.add(g.add(p, q), g.add(r, s)) == g.add(g.add(p, r), g.add(q, s))
  {
    assert Associates(g, p, q, g.add(r, s)) && Associates(g, q, r, s) && Commutes(g, q, r);
    assert Associates(g, r, q, s) && Associates(g, p, r, g.add(q, s));
  }

  lemma MulSucc<G(!new)>(g: Group<G>, k: int, p: G)
    requires IsGroup(g)
    ensures Mul(g, k + 1, p) == g.add(p, Mul(g, k, p))
  {
    if k < 0 {
      var m := Mul(g, -k - 1, p);
      assert Mul(g, -k, p) == g.add(p, m);
      assert HasInverse(g, p) && HasInverse(g, m) && HasInverse(g, g.add(p, m)) && HasInverse(g, g.neg(m));
      var n := g.neg(g.add(p, m));
      assert Associates(g, m, p, n) && Commutes(g, m, p);
      NegUnique(g, m, g.add(p, n));
      if k == -1 {
        assert m == g.zero && HasInverse(g, g.zero);
        NegUnique(g, g.zero, g.zero);
      }
    }
  }

  lemma {:induction false} MulAdd<G(!new)>(g: Group<G>, j: int, k: int, p: G)
    requires IsGroup(g)
    ensures Mul(g, j + k, p) == g.add(Mul(g, j, p), Mul(g, k, p))
    decreases if j < 0 then -j else j
  {
    var m := Mul(g, k, p);
    if j == 0 {
      assert HasInverse(g, m) && Commutes(g, m, g.zero);
    } else if j > 0 {
      MulAdd(g, j - 1, k, p);
      MulSucc(g, j - 1 + k, p);
      assert Associates(g, p, Mul(g, j - 1, p), m);
    } else {
      MulAdd(g, j + 1, k, p);
      MulSucc(g, j + k, p);
      MulSucc(g, j, p);
      assert Associates(g, p, Mul(g, j, p), m);
      assert Commutes(g, p, Mul(g, j + k, p)) && Commutes(g, p, g.add(Mul(g, j, p), m));
      Cancel(g, Mul(g, j + k, p), g.add(Mul(g, j, p), m), p);
    }
  }

  lemma MulNeg<G(!new)>(g: Group<G>, k: int, p: G)
    requires IsGroup(g)
    ensures Mul(g, -k, p) == g.neg(Mul(g, k, p))
  {
    MulAdd(g, k, -k, p);
    NegUnique(g, Mul(g, k, p), Mul(g, -k, p));
  }

  lemma {:induction false} MulPeriodic<G(!new)>(g: Group<G>, p: G, n: int, t: int)
    requires IsGroup(g) && Mul(g, n, p) == g.zero
    ensures Mul(g, n * t, p) == g.zero
    decreases if t < 0 then -t + 1 else t
  {
    if t < 0 {
      MulPeriodic(g, p, n, -t);
      MulNeg(g, n * -t, p);
      assert -(n * -t) == n * t;
      assert HasInverse(g, g.zero);
      NegUnique(g, g.zero, g.zero);
    } else if t > 0 {
      MulPeriodic(g, p, n, t - 1);
      assert n * t == n + n * (t - 1);
      MulAdd(g, n, n * (t - 1), p);
      assert HasInverse(g, g.zero);
    }
  }

  lemma MulOne<G(!new)>(g: Group<G>, p: G)
    requires IsGroup(g)
    ensures Mul(g, 1, p) == p
  {
    assert HasInverse(g, p) && Mul(g, 0, p) == g.zero;
  }
}
