/** Torsion-basis hints: the four searches for an x-coordinate, and why a hint leads back to the same basis. */
module Hints {
  import opened Options

  /** The searches' bound. */
  const MAX_TRIES: nat := 1024

  // ----- the hint byte -----

  newtype hint = b: int | 0 <= b < 256

  function NewHint(hA: nat, h: nat): hint
    requires hA <= 1 && h < 128
  {
    (2 * h + hA) as hint
  }

  function FlagOf(b: hint): nat { b as nat % 2 }
  function IndexOf(b: hint): nat { b as nat / 2 }

  // ----- the field, as far as the searches look at it -----

  /** i is a root of -1, and complex(m, n) is m + i*n for small m and n. */
  datatype Field<!F> = Field(zero: F, one: F, i: F, add: (F, F) -> F, neg: F -> F, mul: (F, F) -> F, invert: F -> F,
                             complex: (nat, nat) -> F, isSquare: F -> bool)

  ghost predicate AddLaws<F>(f: Field<F>, x: F, y: F, z: F) {
    && f.add(x, y) == f.add(y, x) && f.add(f.add(x, y), z) == f.add(x, f.add(y, z))
    && f.add(x, f.zero) == x && f.add(x, f.neg(x)) == f.zero
  }

  ghost predicate MulLaws<F>(f: Field<F>, x: F, y: F, z: F) {
    && f.mul(x, y) == f.mul(y, x) && f.mul(f.mul(x, y), z) == f.mul(x, f.mul(y, z))
    && f.mul(x, f.one) == x && (x != f.zero ==> f.mul(x, f.invert(x)) == f.one)
    && f.mul(f.add(x, y), z) == f.add(f.mul(x, z), f.mul(y, z))
  }

  ghost predicate SmallLaws<F>(f: Field<F>, m: nat, n: nat) {
    && f.complex(0, 0) == f.zero && f.complex(m + 1, n) == f.add(f.complex(m, n), f.one)
    && f.complex(m, n + 1) == f.add(f.complex(m, n), f.i) && f.complex(1, n) != f.zero
  }

  ghost predicate SquareLaw<F(!new)>(f: Field<F>, z: F) {
    f.isSquare(z) <==> IsSquareOf(f, z)
  }

  ghost predicate IsSquareOf<F(!new)>(f: Field<F>, z: F) {
    exists y: F :: f.mul(y, y) == z
  }

  /** A field with a root of -1, in which no 1 + i*n vanishes for a small n, and a correct test for squares. */
  ghost predicate FieldLaws<F(!new)>(f: Field<F>) {
    && (forall x: F, y: F, z: F :: AddLaws(f, x, y, z)) && (forall x: F, y: F, z: F :: MulLaws(f, x, y, z))
    && (forall m: nat, n: nat :: SmallLaws(f, m, n)) && (forall z: F :: SquareLaw(f, z))
    && f.mul(f.i, f.i) == f.neg(f.one)
  }

  // ----- what makes an x-coordinate usable, said without the tests -----

  /** x^3 + a*x^2 + x */
  function Cubic<F>(f: Field<F>, a: F, x: F): F {
    f.add(f.add(f.mul(f.mul(x, x), x), f.mul(a, f.mul(x, x))), x)
  }

  /** A point of y^2 = x^3 + a*x^2 + x lies over x, and x is not a square. */
  ghost predicate Good<F(!new)>(f: Field<F>, a: F, x: F) {
    IsSquareOf(f, Cubic(f, a, x)) && !IsSquareOf(f, x)
  }

  /** The n-th candidate: n*a with flag zero, and the x with x*(1 + i*n) = -a with flag one. */
  ghost predicate IsCandidate<F>(f: Field<F>, a: F, flag: nat, n: nat, x: F) {
    if flag == 0 then x == f.mul(f.complex(n, 0), a) else f.mul(x, f.complex(1, n)) == f.neg(a)
  }

  /** x is the n-th candidate and good, and no candidate from the first index up to n is. */
  ghost predicate FirstGood<F(!new)>(f: Field<F>, a: F, flag: nat, from: nat, n: nat, x: F) {
    && from <= n && IsCandidate(f, a, flag, n, x) && Good(f, a, x)
    && forall k: nat, z: F :: from <= k < n && IsCandidate(f, a, flag, k, z) ==> !Good(f, a, z)
  }

  ghost predicate NoneGood<F(!new)>(f: Field<F>, a: F, flag: nat, from: nat, to: nat) {
    forall k: nat, z: F :: from <= k < to && IsCandidate(f, a, flag, k, z) ==> !Good(f, a, z)
  }

  // ----- the tests -----

  ghost predicate SmallMultipleLaw<F>(f: Field<F>, a: F, n: nat) {
    && f.mul(f.complex(n + 1, 0), a) == f.add(f.mul(f.complex(n, 0), a), a)
    && f.mul(f.complex(n, 0), a) == f.mul(a, f.complex(n, 0))
    && f.mul(f.complex(1, 0), a) == a
  }

  /** Multiples by small integers are repeated sums, in either order of the factors. */
  ghost predicate SmallMultiples<F>(f: Field<F>, a: F) {
    forall n: nat :: SmallMultipleLaw(f, a, n)
  }

  lemma MultiplesAreSums<F(!new)>(f: Field<F>, a: F)
    requires FieldLaws(f)
    ensures SmallMultiples(f, a)
  {
    forall n: nat ensures SmallMultipleLaw(f, a, n) {
      var c := f.complex(n, 0);
      assert SmallLaws(f, n, 0) && SmallLaws(f, 0, 0);
      assert MulLaws(f, c, f.one, a) && MulLaws(f, c, a, a) && MulLaws(f, a, f.one, a) && MulLaws(f, f.one, a, a);
      assert AddLaws(f, f.one, f.zero, f.zero) && AddLaws(f, f.zero, f.one, f.one);
    }
  }

  function OnCurve<F>(f: Field<F>, x: F, a: F): bool {
    var t := f.mul(f.add(x, a), x);
    f.isSquare(f.mul(f.add(t, f.one), x))
  }

  /** Usable as the x-coordinate of the first basis point. */
  function Valid<F>(f: Field<F>, x: F, a: F): bool {
    OnCurve(f, x, a) && !f.isSquare(x)
  }

  /** The test on the curve finds out whether a point lies over x. */
  lemma OnCurveMeans<F(!new)>(f: Field<F>, x: F, a: F)
    requires FieldLaws(f)
    ensures OnCurve(f, x, a) <==> IsSquareOf(f, Cubic(f, a, x))
  {
    var x2, ax := f.mul(x, x), f.mul(a, x);
    var t := f.mul(f.add(x, a), x);
    assert MulLaws(f, x, a, x);
    assert t == f.add(x2, ax);
    assert MulLaws(f, t, f.one, x) && MulLaws(f, x2, ax, x) && MulLaws(f, f.one, x, x) && MulLaws(f, x, f.one, x);
    assert f.mul(f.add(t, f.one), x) == f.add(f.add(f.mul(x2, x), f.mul(ax, x)), x);
    assert MulLaws(f, a, x, x);
    assert SquareLaw(f, Cubic(f, a, x));
  }

  lemma ValidMeans<F(!new)>(f: Field<F>, x: F, a: F)
    requires FieldLaws(f)
    ensures Valid(f, x, a) <==> Good(f, a, x)
  {
    OnCurveMeans(f, x, a);
    assert SquareLaw(f, x);
  }

  /** The candidates: n*A when A is not a square, -A/(1 + i*n) when it is. */
  function Candidate<F>(f: Field<F>, a: F, hA: nat, n: nat): F {
    if hA == 0 then f.mul(a, f.complex(n, 0)) else f.mul(f.neg(a), f.invert(f.complex(1, n)))
  }

  lemma CandidateMeans<F(!new)>(f: Field<F>, a: F, flag: nat, n: nat, x: F)
    requires FieldLaws(f)
    ensures IsCandidate(f, a, flag, n, x) <==> x == Candidate(f, a, flag, n)
  {
    if flag == 0 {
      assert MulLaws(f, f.complex(n, 0), a, a);
    } else {
      var z, v := f.complex(1, n), f.neg(a);
      var w := f.invert(z);
      assert SmallLaws(f, 0, n) && MulLaws(f, z, w, w) && MulLaws(f, w, z, z);
      assert MulLaws(f, x, z, w) && MulLaws(f, x, f.one, f.one) && MulLaws(f, v, w, z) && MulLaws(f, v, f.one, f.one);
    }
  }

  predicate ValidAt<F>(f: Field<F>, a: F, hA: nat, n: nat) {
    Valid(f, Candidate(f, a, hA, n), a)
  }

  /** The first n in [from, to) whose candidate is valid. */
  function FirstValid<F>(f: Field<F>, a: F, hA: nat, from: nat, to: nat): Option<nat>
    decreases to - from
  {
    if from >= to then None
    else if ValidAt(f, a, hA, from) then Some(from)
    else FirstValid(f, a, hA, from + 1, to)
  }

  lemma {:induction false} FirstValidMeans<F>(f: Field<F>, a: F, hA: nat, from: nat, to: nat, n: nat)
    ensures FirstValid(f, a, hA, from, to) == Some(n) <==>
            from <= n < to && ValidAt(f, a, hA, n) && (forall k: nat | from <= k < n :: !ValidAt(f, a, hA, k))
    decreases if from < to then to - from else 0
  {
    if from < to && !ValidAt(f, a, hA, from) {
      FirstValidMeans(f, a, hA, from + 1, to, n);
    }
  }

  /** The first valid index is that of the first good candidate. */
  lemma FirstValidGood<F(!new)>(f: Field<F>, a: F, flag: nat, from: nat, to: nat)
    requires FieldLaws(f)
    ensures match FirstValid(f, a, flag, from, to)
            case None => NoneGood(f, a, flag, from, to)
            case Some(n) => n < to && FirstGood(f, a, flag, from, n, Candidate(f, a, flag, n))
  {
    forall k: nat, z: F | IsCandidate(f, a, flag, k, z) ensures Good(f, a, z) <==> ValidAt(f, a, flag, k) {
      CandidateMeans(f, a, flag, k, z);
      ValidMeans(f, z, a);
    }
    match FirstValid(f, a, flag, from, to) {
      case None => FirstValidExists(f, a, flag, from, to);
      case Some(n) =>
        FirstValidMeans(f, a, flag, from, to, n);
        CandidateMeans(f, a, flag, n, Candidate(f, a, flag, n));
    }
  }

  // ----- the four searches -----

  /** n*A by repeated addition, from start on. */
  method FindNaX<F>(f: Field<F>, a: F, start: nat) returns (r: Option<F>)
    requires SmallMultiples(f, a)
    ensures r == match FirstValid(f, a, 0, start, start + MAX_TRIES)
                 case None => None
                 case Some(n) => Some(Candidate(f, a, 0, n))
  {
    var x := f.mul(f.complex(start, 0), a);
    assert SmallMultipleLaw(f, a, start);
    var i := 0;
    while i < MAX_TRIES
      invariant 0 <= i <= MAX_TRIES
      invariant x == Candidate(f, a, 0, start + i)
      invariant FirstValid(f, a, 0, start, start + MAX_TRIES) == FirstValid(f, a, 0, start + i, start + MAX_TRIES)
    {
      if OnCurve(f, x, a) && !f.isSquare(x) {
        return Some(x);
      }
      assert SmallMultipleLaw(f, a, start + i) && SmallMultipleLaw(f, a, start + i + 1);
      x := f.add(x, a);
      i := i + 1;
    }
    r := None;
  }

  /** n*A from n = 1 on; the index is kept when it fits seven bits. */
  method FindNaXWithHint<F>(f: Field<F>, a: F) returns (r: Option<(F, nat)>)
    requires SmallMultiples(f, a)
    ensures r == WithHint(f, a, 0)
  {
    var x := a;
    assert SmallMultipleLaw(f, a, 1);
    var n := 1;
    while n <= MAX_TRIES
      invariant 1 <= n <= MAX_TRIES + 1
      invariant x == Candidate(f, a, 0, n)
      invariant FirstValid(f, a, 0, 1, MAX_TRIES + 1) == FirstValid(f, a, 0, n, MAX_TRIES + 1)
    {
      if OnCurve(f, x, a) && !f.isSquare(x) {
        return Some((x, if n < 128 then n else 0));
      }
      assert SmallMultipleLaw(f, a, n) && SmallMultipleLaw(f, a, n + 1);
      x := f.add(x, a);
      n := n + 1;
    }
    r := None;
  }

  method FindNqrFactor<F>(f: Field<F>, a: F, start: nat) returns (r: Option<F>)
    ensures r == match FirstValid(f, a, 1, start, start + MAX_TRIES)
                 case None => None
                 case Some(n) => Some(Candidate(f, a, 1, n))
  {
    var offset := 0;
    while offset < MAX_TRIES
      invariant 0 <= offset <= MAX_TRIES
      invariant FirstValid(f, a, 1, start, start + MAX_TRIES) == FirstValid(f, a, 1, start + offset, start + MAX_TRIES)
    {
      var z := f.complex(1, start + offset);
      var x := f.mul(f.neg(a), f.invert(z));
      if OnCurve(f, x, a) && !f.isSquare(x) {
        return Some(x);
      }
      offset := offset + 1;
    }
    r := None;
  }

  method FindNqrFactorWithHint<F>(f: Field<F>, a: F) returns (r: Option<(F, nat)>)
    ensures r == WithHint(f, a, 1)
  {
    var n := 1;
    while n <= MAX_TRIES
      invariant 1 <= n <= MAX_TRIES + 1
      invariant FirstValid(f, a, 1, 1, MAX_TRIES + 1) == FirstValid(f, a, 1, n, MAX_TRIES + 1)
    {
      var z := f.complex(1, n);
      var x := f.mul(f.neg(a), f.invert(z));
      if OnCurve(f, x, a) && !f.isSquare(x) {
        return Some((x, if n < 128 then n else 0));
      }
      n := n + 1;
    }
    r := None;
  }

  /** The first valid candidate from 1 on, with its index or zero. */
  function WithHint<F>(f: Field<F>, a: F, hA: nat): (r: Option<(F, nat)>)
    ensures r.Some? ==> r.value.1 < 128
  {
    match FirstValid(f, a, hA, 1, MAX_TRIES + 1)
    case None => None
    case Some(n) => Some((Candidate(f, a, hA, n), if n < 128 then n else 0))
  }

  // ----- hints both ways -----

  /** What the rest of the construction makes of the curve and the two x-coordinates, and the basis for A = 0. */
  datatype Completion<!F, B> = Completion(basis: (F, F, F) -> B, special: B)

  /** The second x-coordinate: the three points over x, x' and zero-sum lines have x + x' = -a. */
  function Partner<F>(f: Field<F>, a: F, x: F): F {
    f.neg(f.add(a, x))
  }

  lemma PartnerSum<F(!new)>(f: Field<F>, a: F, x: F)
    requires FieldLaws(f)
    ensures f.add(f.add(x, Partner(f, a, x)), a) == f.zero
  {
    var y := Partner(f, a, x);
    assert AddLaws(f, x, y, a) && AddLaws(f, y, a, a) && AddLaws(f, x, a, y) && AddLaws(f, a, x, y) && AddLaws(f, f.add(a, x), y, y);
  }

  /** The basis made from x and the partner x' with x + x' + a = 0. */
  ghost predicate BasisFrom<F(!new), B>(f: Field<F>, c: Completion<F, B>, a: F, x: F, basis: B) {
    exists x': F :: f.add(f.add(x, x'), a) == f.zero && basis == c.basis(a, x, x')
  }

  function Completed<F, B>(f: Field<F>, c: Completion<F, B>, a: F, x: F): B {
    c.basis(a, x, Partner(f, a, x))
  }

  /** The residuosity flag of the coefficient. */
  function Flag<F>(f: Field<F>, a: F): nat {
    if f.isSquare(a) then 1 else 0
  }

  function ToHintSpec<F(==), B>(f: Field<F>, c: Completion<F, B>, a: F): Option<(B, hint)> {
    if a == f.zero then Some((c.special, 0))
    else
      var hA := Flag(f, a);
      match WithHint(f, a, hA)
      case None => None
      case Some(p) => Some((Completed(f, c, a, p.0), NewHint(hA, p.1)))
  }

  function FromHintSpec<F(==), B>(f: Field<F>, c: Completion<F, B>, a: F, b: hint): Option<B> {
    if a == f.zero then Some(c.special)
    else match HintedX(f, a, FlagOf(b), IndexOf(b))
         case None => None
         case Some(x) => Some(Completed(f, c, a, x))
  }

  function HintedX<F>(f: Field<F>, a: F, hA: nat, h: nat): Option<F> {
    if h != 0 then Some(Candidate(f, a, hA, h))
    else match FirstValid(f, a, hA, 128, 128 + MAX_TRIES)
         case None => None
         case Some(n) => Some(Candidate(f, a, hA, n))
  }

  /** The hint of a curve with a != 0: the first good candidate in the order that the residuosity of a selects; twice its index
      plus the flag when the index fits, and the flag alone when it does not. */
  ghost predicate HintOf<F(!new), B>(f: Field<F>, c: Completion<F, B>, a: F, basis: B, b: hint) {
    var flag := if IsSquareOf(f, a) then 1 else 0;
    exists n: nat, x: F :: n <= MAX_TRIES && FirstGood(f, a, flag, 1, n, x) && BasisFrom(f, c, a, x, basis)
                           && b as nat == flag + 2 * if n < 128 then n else 0
  }

  method ToHint<F(==, !new), B>(f: Field<F>, c: Completion<F, B>, a: F) returns (r: Option<(B, hint)>)
    requires FieldLaws(f)
    ensures r == ToHintSpec(f, c, a)
    ensures a == f.zero ==> r == Some((c.special, 0))
    ensures a != f.zero && r.None? ==> NoneGood(f, a, if IsSquareOf(f, a) then 1 else 0, 1, MAX_TRIES + 1)
    ensures a != f.zero && r.Some? ==> HintOf(f, c, a, r.value.0, r.value.1)
  {
    MultiplesAreSums(f, a);
    ghost var flag := Flag(f, a);
    assert SquareLaw(f, a);
    FirstValidGood(f, a, flag, 1, MAX_TRIES + 1);
    if a == f.zero {
      return Some((c.special, 0));
    }
    var hA := f.isSquare(a);
    var found: Option<(F, nat)>;
    if !hA {
      found := FindNaXWithHint(f, a);
    } else {
      found := FindNqrFactorWithHint(f, a);
    }
    if found.None? {
      return None;
    }
    var xP := found.value.0;
    CompletedFrom(f, c, a, xP);
    var xQ := f.neg(f.add(a, xP));
    r := Some((c.basis(a, xP, xQ), NewHint(if hA then 1 else 0, found.value.1)));
  }

  /** The basis of a hint byte with index zero: that of the first good candidate from 128 on. */
  ghost predicate SearchedBasis<F(!new), B>(f: Field<F>, c: Completion<F, B>, a: F, flag: nat, basis: B) {
    exists n: nat, x: F :: n < 128 + MAX_TRIES && FirstGood(f, a, flag, 128, n, x) && BasisFrom(f, c, a, x, basis)
  }

  ghost predicate IndexedBasis<F(!new), B>(f: Field<F>, c: Completion<F, B>, a: F, flag: nat, n: nat, basis: B) {
    exists x: F :: IsCandidate(f, a, flag, n, x) && BasisFrom(f, c, a, x, basis)
  }

  method FromHint<F(==, !new), B>(f: Field<F>, c: Completion<F, B>, a: F, b: hint) returns (r: Option<B>)
    requires FieldLaws(f)
    ensures r == FromHintSpec(f, c, a, b)
    ensures a == f.zero ==> r == Some(c.special)
    ensures a != f.zero && b as nat / 2 != 0 ==> r.Some? && IndexedBasis(f, c, a, b as nat % 2, b as nat / 2, r.value)
    ensures a != f.zero && b as nat / 2 == 0 && r.None? ==> NoneGood(f, a, b as nat % 2, 128, 128 + MAX_TRIES)
    ensures a != f.zero && b as nat / 2 == 0 && r.Some? ==> SearchedBasis(f, c, a, b as nat % 2, r.value)
  {
    MultiplesAreSums(f, a);
    HintMeaning(f, c, a, b);
    if a == f.zero {
      return Some(c.special);
    }
    var x := RestoreX(f, a, FlagOf(b), IndexOf(b));
    if x.None? {
      return None;
    }
    var xQ := f.neg(f.add(a, x.value));
    r := Some(c.basis(a, x.value, xQ));
  }

  /** The first x-coordinate of a hint: searched for when the index is zero, computed otherwise. */
  method RestoreX<F>(f: Field<F>, a: F, hA: nat, h: nat) returns (x: Option<F>)
    requires SmallMultiples(f, a) && hA <= 1
    ensures x == HintedX(f, a, hA, h)
  {
    if h == 0 {
      if hA == 0 {
        x := FindNaX(f, a, 128);
      } else {
        x := FindNqrFactor(f, a, 128);
      }
    } else if hA == 0 {
      x := Some(f.mul(a, f.complex(h, 0)));
    } else {
      var z := f.complex(1, h);
      x := Some(f.mul(f.neg(a), f.invert(z)));
    }
  }

  lemma CompletedFrom<F(!new), B>(f: Field<F>, c: Completion<F, B>, a: F, x: F)
    requires FieldLaws(f)
    ensures BasisFrom(f, c, a, x, Completed(f, c, a, x))
  {
    PartnerSum(f, a, x);
  }

  lemma HintMeaning<F(!new), B>(f: Field<F>, c: Completion<F, B>, a: F, b: hint)
    requires FieldLaws(f)
    ensures var r := FromHintSpec(f, c, a, b);
            && (a != f.zero && b as nat / 2 != 0 ==> r.Some? && IndexedBasis(f, c, a, b as nat % 2, b as nat / 2, r.value))
            && (a != f.zero && b as nat / 2 == 0 && r.None? ==> NoneGood(f, a, b as nat % 2, 128, 128 + MAX_TRIES))
            && (a != f.zero && b as nat / 2 == 0 && r.Some? ==> SearchedBasis(f, c, a, b as nat % 2, r.value))
  {
    var flag, n := FlagOf(b), IndexOf(b);
    if n != 0 {
      var x := Candidate(f, a, flag, n);
      CandidateMeans(f, a, flag, n, x);
      CompletedFrom(f, c, a, x);
    } else {
      FirstValidGood(f, a, flag, 128, 128 + MAX_TRIES);
      match FirstValid(f, a, flag, 128, 128 + MAX_TRIES) {
        case None =>
        case Some(k) => CompletedFrom(f, c, a, Candidate(f, a, flag, k));
      }
    }
  }

  lemma HintParts(hA: nat, h: nat)
    requires hA <= 1 && h < 128
    ensures FlagOf(NewHint(hA, h)) == hA && IndexOf(NewHint(hA, h)) == h
  {
  }

  /** A hit from 128 on is the first one that the second search meets. */
  lemma SearchResumes<F>(f: Field<F>, a: F, hA: nat, n: nat)
    requires FirstValid(f, a, hA, 1, MAX_TRIES + 1) == Some(n) && n >= 128
    ensures FirstValid(f, a, hA, 128, 128 + MAX_TRIES) == Some(n)
  {
    FirstValidMeans(f, a, hA, 1, MAX_TRIES + 1, n);
    FirstValidMeans(f, a, hA, 128, 128 + MAX_TRIES, n);
  }

  /** The hint made for a curve leads back to the same basis. */
  lemma HintRoundTrip<F, B>(f: Field<F>, c: Completion<F, B>, a: F)
    requires ToHintSpec(f, c, a).Some?
    ensures FromHintSpec(f, c, a, ToHintSpec(f, c, a).value.1) == Some(ToHintSpec(f, c, a).value.0)
  {
    if a != f.zero {
      var hA := Flag(f, a);
      var p := WithHint(f, a, hA).value;
      HintParts(hA, p.1);
      var n := FirstValid(f, a, hA, 1, MAX_TRIES + 1).value;
      FirstValidMeans(f, a, hA, 1, MAX_TRIES + 1, n);
      if n >= 128 {
        SearchResumes(f, a, hA, n);
      }
    }
  }

  /** No hint is made exactly when none of the first candidates is valid. */
  lemma ToHintFailsIff<F, B>(f: Field<F>, c: Completion<F, B>, a: F)
    requires a != f.zero
    ensures ToHintSpec(f, c, a).None? <==>
            !exists n: nat :: 1 <= n <= MAX_TRIES && ValidAt(f, a, Flag(f, a), n)
  {
    FirstValidExists(f, a, Flag(f, a), 1, MAX_TRIES + 1);
  }

  lemma {:induction false} FirstValidExists<F>(f: Field<F>, a: F, hA: nat, from: nat, to: nat)
    ensures FirstValid(f, a, hA, from, to).Some? <==> exists n: nat :: from <= n < to && ValidAt(f, a, hA, n)
    decreases if from < to then to - from else 0
  {
    if from < to {
      if ValidAt(f, a, hA, from) {
        assert from <= from < to && ValidAt(f, a, hA, from);
      } else {
        FirstValidExists(f, a, hA, from + 1, to);
      }
    }
  }
}
