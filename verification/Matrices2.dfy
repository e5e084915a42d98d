/** Two-by-two integer matrices and their congruences. */
module Matrices2 {
  import opened Modular

  /** The rows (a, b) and (c, d). */
  datatype Mat2 = Mat2(a: int, b: int, c: int, d: int)

  const I2 := Mat2(1, 0, 0, 1)

  function Plus(m: Mat2, n: Mat2): Mat2 {
    Mat2(m.a + n.a, m.b + n.b, m.c + n.c, m.d + n.d)
  }

  predicate NonNegative2(m: Mat2) {
    m.a >= 0 && m.b >= 0 && m.c >= 0 && m.d >= 0
  }

  function Times(m: Mat2, n: Mat2): Mat2 {
    Mat2(m.a * n.a + m.b * n.c, m.a * n.b + m.b * n.d, m.c * n.a + m.d * n.c, m.c * n.b + m.d * n.d)
  }

  function ScaleBy(k: int, m: Mat2): Mat2 {
    Mat2(k * m.a, k * m.b, k * m.c, k * m.d)
  }

  function Det2(m: Mat2): int {
    m.a * m.d - m.b * m.c
  }

  function Adj2(m: Mat2): Mat2 {
    Mat2(m.d, -m.b, -m.c, m.a)
  }

  /** The residues modulo n. */
  function Mod2(m: Mat2, n: int): Mat2
    requires n > 0
  {
    Mat2(m.a % n, m.b % n, m.c % n, m.d % n)
  }

  ghost predicate Cong2(m: Mat2, n: Mat2, k: int) {
    Cong(m.a, n.a, k) && Cong(m.b, n.b, k) && Cong(m.c, n.c, k) && Cong(m.d, n.d, k)
  }

  /** Every entry reduced. */
  predicate Reduced2(m: Mat2, n: int) {
    0 <= m.a < n && 0 <= m.b < n && 0 <= m.c < n && 0 <= m.d < n
  }

  lemma Cong2Refl(m: Mat2, k: int)
    ensures Cong2(m, m, k)
  {
    CongRefl(m.a, k);
    CongRefl(m.b, k);
    CongRefl(m.c, k);
    CongRefl(m.d, k);
  }

  lemma Cong2Sym(m: Mat2, n: Mat2, k: int)
    requires Cong2(m, n, k)
    ensures Cong2(n, m, k)
  {
    CongSym(m.a, n.a, k);
    CongSym(m.b, n.b, k);
    CongSym(m.c, n.c, k);
    CongSym(m.d, n.d, k);
  }

  lemma Cong2Trans(l: Mat2, m: Mat2, n: Mat2, k: int)
    requires Cong2(l, m, k) && Cong2(m, n, k)
    ensures Cong2(l, n, k)
  {
    CongTrans(l.a, m.a, n.a, k);
    CongTrans(l.b, m.b, n.b, k);
    CongTrans(l.c, m.c, n.c, k);
    CongTrans(l.d, m.d, n.d, k);
  }

  /** A sum of two products respects congruence. */
  lemma CongDot(a: int, a': int, b: int, b': int, c: int, c': int, d: int, d': int, k: int)
    requires Cong(a, a', k) && Cong(b, b', k) && Cong(c, c', k) && Cong(d, d', k)
    ensures Cong(a * b + c * d, a' * b' + c' * d', k) && Cong(a * b - c * d, a' * b' - c' * d', k)
  {
    CongMul(a, a', b, b', k);
    CongMul(c, c', d, d', k);
    CongAdd(a * b, a' * b', c * d, c' * d', k);
  }

  lemma Cong2Times(m: Mat2, m': Mat2, n: Mat2, n': Mat2, k: int)
    requires Cong2(m, m', k) && Cong2(n, n', k)
    ensures Cong2(Times(m, n), Times(m', n'), k)
  {
    CongDot(m.a, m'.a, n.a, n'.a, m.b, m'.b, n.c, n'.c, k);
    CongDot(m.a, m'.a, n.b, n'.b, m.b, m'.b, n.d, n'.d, k);
    CongDot(m.c, m'.c, n.a, n'.a, m.d, m'.d, n.c, n'.c, k);
    CongDot(m.c, m'.c, n.b, n'.b, m.d, m'.d, n.d, n'.d, k);
  }

  lemma Cong2Plus(m: Mat2, m': Mat2, n: Mat2, n': Mat2, k: int)
    requires Cong2(m, m', k) && Cong2(n, n', k)
    ensures Cong2(Plus(m, n), Plus(m', n'), k)
  {
    CongAdd(m.a, m'.a, n.a, n'.a, k);
    CongAdd(m.b, m'.b, n.b, n'.b, k);
    CongAdd(m.c, m'.c, n.c, n'.c, k);
    CongAdd(m.d, m'.d, n.d, n'.d, k);
  }

  lemma Cong2Det(m: Mat2, n: Mat2, k: int)
    requires Cong2(m, n, k)
    ensures Cong(Det2(m), Det2(n), k)
  {
    CongDot(m.a, n.a, m.d, n.d, m.b, n.b, m.c, n.c, k);
  }

  lemma Cong2Adj(m: Mat2, n: Mat2, k: int)
    requires Cong2(m, n, k)
    ensures Cong2(Adj2(m), Adj2(n), k)
  {
    CongRefl(0, k);
    CongAdd(0, 0, m.b, n.b, k);
    CongAdd(0, 0, m.c, n.c, k);
  }

  lemma Product4(a: int, b: int, c: int, d: int, e: int, f: int)
    ensures (a * b + c * d) * e == a * (b * e) + c * (d * e) && f * (a * b + c * d) == (f * a) * b + (f * c) * d
  {
    assert (a * b) * e == a * (b * e) && (c * d) * e == c * (d * e);
    assert f * (a * b) == (f * a) * b && f * (c * d) == (f * c) * d;
  }

  lemma EntryAssoc(r: int, s: int, n: Mat2, x: int, y: int)
    ensures (r * n.a + s * n.c) * x + (r * n.b + s * n.d) * y == r * (n.a * x + n.b * y) + s * (n.c * x + n.d * y)
  {
    Product4(r, n.a, s, n.c, x, 0);
    Product4(r, n.b, s, n.d, y, 0);
    assert r * (n.a * x + n.b * y) == r * (n.a * x) + r * (n.b * y);
    assert s * (n.c * x + n.d * y) == s * (n.c * x) + s * (n.d * y);
  }

  lemma ScaleTimes(k: int, m: Mat2, n: Mat2)
    ensures Times(ScaleBy(k, m), n) == ScaleBy(k, Times(m, n)) && Times(m, ScaleBy(k, n)) == ScaleBy(k, Times(m, n))
  {
    ScaleEntry(k, m.a, n.a, m.b, n.c);
    ScaleEntry(k, m.a, n.b, m.b, n.d);
    ScaleEntry(k, m.c, n.a, m.d, n.c);
    ScaleEntry(k, m.c, n.b, m.d, n.d);
  }

  lemma ScaleEntry(k: int, a: int, b: int, c: int, d: int)
    ensures (k * a) * b + (k * c) * d == k * (a * b + c * d) && a * (k * b) + c * (k * d) == k * (a * b + c * d)
  {
    assert k * (a * b + c * d) == k * (a * b) + k * (c * d);
  }

  lemma AdjTimes(m: Mat2)
    ensures Times(m, Adj2(m)) == ScaleBy(Det2(m), I2) && Times(Adj2(m), m) == ScaleBy(Det2(m), I2)
  {
  }

  lemma DetTimes(m: Mat2, n: Mat2)
    ensures Det2(Times(m, n)) == Det2(m) * Det2(n)
  {
    DetProduct(m.a, m.b, m.c, m.d, n.a, n.b, n.c, n.d);
  }

  lemma DetProduct(a: int, b: int, c: int, d: int, e: int, f: int, g: int, h: int)
    ensures (a * e + b * g) * (c * f + d * h) - (a * f + b * h) * (c * e + d * g) == (a * d - b * c) * (e * h - f * g)
  {
    FourTerms(a * e, b * g, c * f, d * h);
    FourTerms(a * f, b * h, c * e, d * g);
    TwoDifferences(a * d, b * c, e * h, f * g);
    Crossed(a, e, c, f);
    Crossed(b, g, d, h);
    Paired(a, e, d, h);
    Paired(b, g, c, f);
    Paired(a, f, d, g);
    Paired(b, h, c, e);
  }

  lemma TwoDifferences(x: int, y: int, z: int, w: int)
    ensures (x - y) * (z - w) == x * z - x * w - y * z + y * w
  {
  }

  lemma Crossed(x: int, y: int, z: int, w: int)
    ensures (x * y) * (z * w) == (x * w) * (z * y)
  {
    assert (x * y) * (z * w) == x * (y * (z * w)) && (x * w) * (z * y) == x * (w * (z * y));
    assert y * (z * w) == w * (z * y);
  }

  lemma Paired(x: int, y: int, z: int, w: int)
    ensures (x * y) * (z * w) == (x * z) * (y * w) == (x * z) * (w * y)
  {
    assert (x * y) * (z * w) == x * (y * (z * w)) && (x * z) * (y * w) == x * (z * (y * w));
    assert y * (z * w) == z * (y * w) && y * w == w * y;
  }

  lemma FourTerms(x: int, y: int, z: int, w: int)
    ensures (x + y) * (z + w) == x * z + x * w + y * z + y * w
  {
  }

  lemma DetScale(k: int, m: Mat2)
    ensures Det2(ScaleBy(k, m)) == k * k * Det2(m)
  {
    assert (k * m.a) * (k * m.d) == k * k * (m.a * m.d) && (k * m.b) * (k * m.c) == k * k * (m.b * m.c);
  }
}
