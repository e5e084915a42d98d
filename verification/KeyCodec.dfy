/** The signing key's byte layout: public key, ideal norm, generator coordinates, secret matrix. */
module KeyCodec {
  import opened Arith
  import opened Bytes
  import opened Gcds
  import opened TwosComplement
  import opened Linear4
  import opened Modular
  import opened Matrices2

  datatype Error = InvalidCurve | NonCanonical
  datatype Result<T> = Ok(value: T) | Err(error: Error)

  const VK_BYTES: nat := 65
  const KEY_BYTES: nat := 353

  /** Bytes per number: norm, coordinate or matrix entry. */
  const FIELD_BYTES: nat := 32

  /** The generator's coordinates are kept without their denominator. */
  datatype SigningKey = SigningKey(vk: seq<byte>, norm: nat, gen: Vec, msk: Mat2)

  // ----- the slot exchange at the byte boundary -----

  /** The matrix T = [[1, 1], [0, -1]] applied modulo 2^f. */
  function ExchangeSlots(m: Mat2, f: nat): (r: Mat2)
    requires m.a >= 0 && m.b >= 0 && m.c >= 0 && m.d >= 0
    ensures Reduced2(r, Pow2(f))
  {
    Mat2(AddMod2k(m.a, m.c, f), AddMod2k(m.b, m.d, f), SubMod2k(0, m.c, f), SubMod2k(0, m.d, f))
  }

  /** Exchanging twice only reduces the entries. */
  lemma ExchangeTwice(m: Mat2, f: nat)
    requires m.a >= 0 && m.b >= 0 && m.c >= 0 && m.d >= 0
    ensures ExchangeSlots(ExchangeSlots(m, f), f) == Mod2(m, Pow2(f))
  {
    ExchangeColumn(m.a, m.c, f);
    ExchangeColumn(m.b, m.d, f);
  }

  /** The matrix T. */
  const EXCHANGE := Mat2(1, 1, 0, -1)

  /** The exchange multiplies by T from the left. */
  lemma ExchangeIsProduct(m: Mat2, f: nat)
    requires NonNegative2(m)
    ensures Cong2(ExchangeSlots(m, f), Times(EXCHANGE, m), Pow2(f))
  {
    TimesExchange(m);
  }

  lemma TimesExchange(m: Mat2)
    ensures Times(EXCHANGE, m) == Mat2(m.a + m.c, m.b + m.d, 0 - m.c, 0 - m.d)
  {
    ExchangeEntries(1, 1, 0, -1, m);
  }

  lemma ExchangeEntries(p: int, q: int, r: int, s: int, m: Mat2)
    ensures Times(Mat2(p, q, r, s), m) == Mat2(p * m.a + q * m.c, p * m.b + q * m.d, r * m.a + s * m.c, r * m.b + s * m.d)
  {
  }

  lemma ExchangeColumn(x: nat, y: nat, f: nat)
    ensures AddMod2k(AddMod2k(x, y, f), SubMod2k(0, y, f), f) == x % Pow2(f)
    ensures SubMod2k(0, SubMod2k(0, y, f), f) == y % Pow2(f)
  {
    var s, t := AddMod2k(x, y, f), SubMod2k(0, y, f);
    ExchangedResidues(x, y, s, t, AddMod2k(s, t, f), SubMod2k(0, t, f), Pow2(f));
  }

  lemma ExchangedResidues(x: int, y: int, s: int, t: int, u: int, v: int, n: int)
    requires Cong(s, x + y, n) && Cong(t, 0 - y, n) && Cong(u, s + t, n) && Cong(v, 0 - t, n)
    requires n > 0 && 0 <= u < n && 0 <= v < n
    ensures u == x % n && v == y % n
  {
    CongAdd(s, x + y, t, 0 - y, n);
    SameResidue(u, s + t, x, n);
    CongRefl(0, n);
    CongAdd(0, 0, t, 0 - y, n);
    SameResidue(v, 0 - t, y, n);
  }

  lemma SameResidue(r: int, s: int, x: int, n: int)
    requires n > 0 && 0 <= r < n && Cong(r, s, n) && Cong(s, x, n)
    ensures r == x % n
  {
    CongTrans(r, s, x, n);
    CongMod(x, n);
    CongTrans(r, x, x % n, n);
    CongEqual(r, x % n, n);
  }

  // ----- layout -----

  function PrintMatrix(w: Mat2): (s: seq<byte>)
    requires NonNegative2(w)
    ensures |s| == 128
  {
    LeBytes(w.a, FIELD_BYTES) + LeBytes(w.b, FIELD_BYTES) + LeBytes(w.c, FIELD_BYTES) + LeBytes(w.d, FIELD_BYTES)
  }

  function PrintVec(v: Vec): (s: seq<byte>)
    ensures |s| == 128
  {
    SignedBytes(v.a, FIELD_BYTES) + SignedBytes(v.b, FIELD_BYTES) + SignedBytes(v.c, FIELD_BYTES) + SignedBytes(v.d, FIELD_BYTES)
  }

  function PrintKey(k: SigningKey, f: nat): seq<byte>
    requires NonNegative2(k.msk)
  {
    k.vk + LeBytes(k.norm, FIELD_BYTES) + PrintVec(k.gen) + PrintMatrix(ExchangeSlots(k.msk, f))
  }

  function ParseVec(s: seq<byte>): Vec
    requires |s| == 128
  {
    Vec(DecodeSigned(s[..32]), DecodeSigned(s[32..64]), DecodeSigned(s[64..96]), DecodeSigned(s[96..]))
  }

  function ParseMatrix(s: seq<byte>): (m: Mat2)
    requires |s| == 128
    ensures NonNegative2(m)
  {
    Mat2(LeNat(s[..32]), LeNat(s[32..64]), LeNat(s[64..96]), LeNat(s[96..]))
  }

  /** The bytes of a printed key: the public key, then little-endian blocks of 32 bytes for the norm, the four signed
      coordinates in two's complement, and the entries of T times the secret matrix, row by row. */
  ghost predicate KeyLayout(b: seq<byte>, k: SigningKey, f: nat) {
    var w, n, p := Times(EXCHANGE, k.msk), Pow2(f), Pow2(8 * FIELD_BYTES);
    && |b| == KEY_BYTES && b[..65] == k.vk && HoldsBytes(b[65..97], k.norm)
    && HoldsBytes(b[97..129], k.gen.a % p) && HoldsBytes(b[129..161], k.gen.b % p)
    && HoldsBytes(b[161..193], k.gen.c % p) && HoldsBytes(b[193..225], k.gen.d % p)
    && HoldsBytes(b[225..257], w.a % n) && HoldsBytes(b[257..289], w.b % n)
    && HoldsBytes(b[289..321], w.c % n) && HoldsBytes(b[321..353], w.d % n)
  }

  lemma PrintedKey(k: SigningKey, f: nat)
    requires |k.vk| == VK_BYTES && NonNegative2(k.msk)
    ensures KeyLayout(PrintKey(k, f), k, f)
  {
    var b, wire := PrintKey(k, f), ExchangeSlots(k.msk, f);
    PrintedFields(k.vk, LeBytes(k.norm, FIELD_BYTES), PrintVec(k.gen), PrintMatrix(wire));
    LeBytesHold(k.norm, FIELD_BYTES);
    PrintedVec(k.gen);
    PrintedMatrix(wire);
    KeyBlocks(b);
    ExchangeIsProduct(k.msk, f);
    ReducedIsResidue(wire, Times(EXCHANGE, k.msk), Pow2(f));
  }

  /** Blocks of 32 bytes inside a part of 128. */
  lemma BlocksOf(b: seq<byte>, pos: nat)
    requires pos + 128 <= |b|
    ensures var s := b[pos..pos + 128];
            && s[..32] == b[pos..pos + 32] && s[32..64] == b[pos + 32..pos + 64]
            && s[64..96] == b[pos + 64..pos + 96] && s[96..] == b[pos + 96..pos + 128]
  {
    SliceOfSlice(b, pos, pos + 128, 0, 32);
    SliceOfSlice(b, pos, pos + 128, 32, 64);
    SliceOfSlice(b, pos, pos + 128, 64, 96);
    SliceOfSlice(b, pos, pos + 128, 96, 128);
    var s := b[pos..pos + 128];
    assert s[..32] == s[0..32] && s[96..] == s[96..128];
  }

  lemma SliceOfSlice(b: seq<byte>, lo: nat, hi: nat, i: nat, j: nat)
    requires lo <= hi <= |b| && i <= j <= hi - lo
    ensures b[lo..hi][i..j] == b[lo + i..lo + j]
  {
    forall k | 0 <= k < j - i ensures b[lo..hi][i..j][k] == b[lo + i..lo + j][k] {
      assert b[lo..hi][i..j][k] == b[lo..hi][i + k] == b[lo + (i + k)];
    }
  }

  lemma KeyBlocks(b: seq<byte>)
    requires |b| == 353
    ensures var s, t := b[97..225], b[225..];
            && s[..32] == b[97..129] && s[32..64] == b[129..161] && s[64..96] == b[161..193] && s[96..] == b[193..225]
            && t[..32] == b[225..257] && t[32..64] == b[257..289] && t[64..96] == b[289..321] && t[96..] == b[321..353]
  {
    BlocksOf(b, 97);
    BlocksOf(b, 225);
    assert b[225..] == b[225..225 + 128] && b[97..225] == b[97..97 + 128];
  }

  lemma PrintedVec(v: Vec)
    ensures var s, p := PrintVec(v), Pow2(8 * FIELD_BYTES);
            && HoldsBytes(s[..32], v.a % p) && HoldsBytes(s[32..64], v.b % p)
            && HoldsBytes(s[64..96], v.c % p) && HoldsBytes(s[96..], v.d % p)
  {
    SignedResidue(v.a, FIELD_BYTES);
    SignedResidue(v.b, FIELD_BYTES);
    SignedResidue(v.c, FIELD_BYTES);
    SignedResidue(v.d, FIELD_BYTES);
    Quarters(SignedBytes(v.a, FIELD_BYTES), SignedBytes(v.b, FIELD_BYTES), SignedBytes(v.c, FIELD_BYTES), SignedBytes(v.d, FIELD_BYTES), FIELD_BYTES);
  }

  lemma PrintedMatrix(m: Mat2)
    requires NonNegative2(m)
    ensures var s := PrintMatrix(m);
            HoldsBytes(s[..32], m.a) && HoldsBytes(s[32..64], m.b) && HoldsBytes(s[64..96], m.c) && HoldsBytes(s[96..], m.d)
  {
    LeBytesHold(m.a, FIELD_BYTES);
    LeBytesHold(m.b, FIELD_BYTES);
    LeBytesHold(m.c, FIELD_BYTES);
    LeBytesHold(m.d, FIELD_BYTES);
    Quarters(LeBytes(m.a, FIELD_BYTES), LeBytes(m.b, FIELD_BYTES), LeBytes(m.c, FIELD_BYTES), LeBytes(m.d, FIELD_BYTES), FIELD_BYTES);
  }

  lemma ReducedIsResidue(r: Mat2, m: Mat2, n: int)
    requires n > 0 && Reduced2(r, n) && Cong2(r, m, n)
    ensures r == Mod2(m, n)
  {
    CongRefl(r.a, n);
    CongRefl(r.b, n);
    CongRefl(r.c, n);
    CongRefl(r.d, n);
    SameResidue(r.a, r.a, m.a, n);
    SameResidue(r.b, r.b, m.b, n);
    SameResidue(r.c, r.c, m.c, n);
    SameResidue(r.d, r.d, m.d, n);
  }

  /** Parsing; validKey is the check of the public-key prefix. */
  function ParseKey(b: seq<byte>, validKey: seq<byte> -> bool, f: nat): Result<SigningKey>
    requires |b| == KEY_BYTES
  {
    if !validKey(b[..65]) then Err(InvalidCurve)
    else if LeNat(b[65..97]) % 2 == 0 then Err(NonCanonical)
    else Ok(SigningKey(b[..65], LeNat(b[65..97]), ParseVec(b[97..225]), ExchangeSlots(ParseMatrix(b[225..]), f)))
  }

  /** Prints into one buffer, negative coordinates in place. */
  method ToBytes(k: SigningKey, f: nat) returns (out: array<byte>)
    requires |k.vk| == VK_BYTES && NonNegative2(k.msk)
    ensures fresh(out) && out[..] == PrintKey(k, f) && KeyLayout(out[..], k, f)
  {
    out := new byte[353](_ => 0);
    ghost var norm, gen, msk := LeBytes(k.norm, FIELD_BYTES), PrintVec(k.gen), PrintMatrix(ExchangeSlots(k.msk, f));
    assert out[..0] == [];
    Append(out, 0, k.vk);
    assert out[..65] == k.vk;
    Append(out, 65, LeBytes(k.norm, FIELD_BYTES));
    assert out[..97] == k.vk + norm;
    AppendVec(out, 97, k.gen);
    assert out[..225] == k.vk + norm + gen;
    AppendMatrix(out, 225, ExchangeSlots(k.msk, f));
    assert out[..353] == k.vk + norm + gen + msk;
    PrintedKey(k, f);
    assert out[..353] == out[..];
  }

  method AppendVec(a: array<byte>, pos: nat, v: Vec)
    requires pos + 128 <= a.Length
    modifies a
    ensures a[..pos + 128] == old(a[..pos]) + PrintVec(v)
  {
    var i := 0;
    ghost var start := a[..pos];
    while i < 4
      invariant 0 <= i <= 4
      invariant a[..pos + 32 * i] == start + PrintVec(v)[..32 * i]
    {
      AppendSigned(a, pos + 32 * i, At(v, i), FIELD_BYTES);
      VecPart(v, i);
      assert PrintVec(v)[..32 * (i + 1)] == PrintVec(v)[..32 * i] + SignedBytes(At(v, i), FIELD_BYTES);
      i := i + 1;
    }
    assert PrintVec(v)[..128] == PrintVec(v);
  }

  lemma VecPart(v: Vec, i: nat)
    requires i < 4
    ensures PrintVec(v)[32 * i..32 * (i + 1)] == SignedBytes(At(v, i), FIELD_BYTES)
  {
  }

  method AppendMatrix(a: array<byte>, pos: nat, w: Mat2)
    requires pos + 128 <= a.Length && NonNegative2(w)
    modifies a
    ensures a[..pos + 128] == old(a[..pos]) + PrintMatrix(w)
  {
    Append(a, pos, LeBytes(w.a, FIELD_BYTES));
    Append(a, pos + 32, LeBytes(w.b, FIELD_BYTES));
    Append(a, pos + 64, LeBytes(w.c, FIELD_BYTES));
    Append(a, pos + 96, LeBytes(w.d, FIELD_BYTES));
  }

  // ----- round trips -----

  /** In the range of a 32-byte two's complement number. */
  predicate Signed32(c: int, w: nat)
    requires w >= 1
  {
    c + Pow2(w - 1) >= 0 && c < Pow2(w - 1)
  }

  predicate SignedVec(v: Vec, w: nat)
    requires w >= 1
  {
    Signed32(v.a, w) && Signed32(v.b, w) && Signed32(v.c, w) && Signed32(v.d, w)
  }

  predicate FitsVec(v: Vec, w: nat) {
    Abs(v.a) < Pow2(w) && Abs(v.b) < Pow2(w) && Abs(v.c) < Pow2(w) && Abs(v.d) < Pow2(w)
  }

  lemma VecRoundTrip(v: Vec, w: nat)
    requires w == 8 * 32 && FitsVec(v, w)
    ensures ParseVec(PrintVec(v)) == v <==> SignedVec(v, w)
  {
    SignedRoundTrip(v.a, FIELD_BYTES);
    SignedRoundTrip(v.b, FIELD_BYTES);
    SignedRoundTrip(v.c, FIELD_BYTES);
    SignedRoundTrip(v.d, FIELD_BYTES);
    Quarters(SignedBytes(v.a, FIELD_BYTES), SignedBytes(v.b, FIELD_BYTES), SignedBytes(v.c, FIELD_BYTES), SignedBytes(v.d, FIELD_BYTES), FIELD_BYTES);
  }

  /** Four equal parts of a concatenation. */
  lemma Quarters(a: seq<byte>, b: seq<byte>, c: seq<byte>, d: seq<byte>, n: nat)
    requires |a| == |b| == |c| == |d| == n
    ensures var s := a + b + c + d;
            |s| == 4 * n && s[..n] == a && s[n..2 * n] == b && s[2 * n..3 * n] == c && s[3 * n..] == d
  {
  }

  lemma Rejoin(s: seq<byte>, n: nat)
    requires |s| == 4 * n
    ensures s == s[..n] + s[n..2 * n] + s[2 * n..3 * n] + s[3 * n..]
  {
  }

  lemma MatrixRoundTrip(m: Mat2, w: nat)
    requires w == 8 * 32 && Reduced2(m, Pow2(w))
    ensures ParseMatrix(PrintMatrix(m)) == m
  {
    LeBytesValue(m.a, FIELD_BYTES);
    LeBytesValue(m.b, FIELD_BYTES);
    LeBytesValue(m.c, FIELD_BYTES);
    LeBytesValue(m.d, FIELD_BYTES);
    Quarters(LeBytes(m.a, FIELD_BYTES), LeBytes(m.b, FIELD_BYTES), LeBytes(m.c, FIELD_BYTES), LeBytes(m.d, FIELD_BYTES), FIELD_BYTES);
  }

  /** The four fields of a printed key. */
  lemma PrintedFields(vk: seq<byte>, norm: seq<byte>, gen: seq<byte>, msk: seq<byte>)
    requires |vk| == 65 && |norm| == 32 && |gen| == 128 && |msk| == 128
    ensures var b := vk + norm + gen + msk;
            |b| == 353 && b[..65] == vk && b[65..97] == norm && b[97..225] == gen && b[225..] == msk
  {
  }

  /** Printing and parsing gives the key back exactly when the generator's coordinates fit two's complement. */
  lemma KeyRoundTrip(k: SigningKey, validKey: seq<byte> -> bool, f: nat, w: nat)
    requires f == 248 && w == 8 * 32
    requires |k.vk| == VK_BYTES && validKey(k.vk) && k.norm % 2 == 1 && k.norm < Pow2(w)
    requires FitsVec(k.gen, w) && Reduced2(k.msk, Pow2(f))
    ensures var b := PrintKey(k, f); |b| == KEY_BYTES && ParseKey(b, validKey, f).Ok?
    ensures var r := ParseKey(PrintKey(k, f), validKey, f).value; r.vk == k.vk && r.norm == k.norm && r.msk == k.msk
    ensures ParseKey(PrintKey(k, f), validKey, f) == Ok(k) <==> SignedVec(k.gen, w)
  {
    var wire := ExchangeSlots(k.msk, f);
    PrintedFields(k.vk, LeBytes(k.norm, FIELD_BYTES), PrintVec(k.gen), PrintMatrix(wire));
    LeBytesValue(k.norm, FIELD_BYTES);
    VecRoundTrip(k.gen, w);
    WiderBound(wire, f, w);
    MatrixRoundTrip(wire, w);
    ExchangeTwice(k.msk, f);
    ReducedStays(k.msk, Pow2(f));
  }

  /** Which bytes parse, and to what: the key's parts hold the bytes, the coordinates are signed, and the secret matrix is T times the
      stored one. */
  lemma ParsedKey(b: seq<byte>, validKey: seq<byte> -> bool, f: nat, w: nat) returns (wire: Mat2)
    requires |b| == KEY_BYTES && w == 8 * FIELD_BYTES
    ensures Reduced2(wire, Pow2(w)) && HoldsBytes(b[225..257], wire.a) && HoldsBytes(b[257..289], wire.b)
    ensures HoldsBytes(b[289..321], wire.c) && HoldsBytes(b[321..353], wire.d)
    ensures var r := ParseKey(b, validKey, f);
            && (r == Err(InvalidCurve) <==> !validKey(b[..65]))
            && (r == Err(NonCanonical) <==> validKey(b[..65]) && b[65] as nat % 2 == 0)
    ensures ParseKey(b, validKey, f).Ok? ==>
              var k := ParseKey(b, validKey, f).value;
              && k.vk == b[..65] && k.norm < Pow2(w) && HoldsBytes(b[65..97], k.norm) && SignedVec(k.gen, w)
              && HoldsBytes(b[97..129], k.gen.a % Pow2(w)) && HoldsBytes(b[129..161], k.gen.b % Pow2(w))
              && HoldsBytes(b[161..193], k.gen.c % Pow2(w)) && HoldsBytes(b[193..225], k.gen.d % Pow2(w))
              && Reduced2(k.msk, Pow2(f)) && Cong2(k.msk, Times(EXCHANGE, wire), Pow2(f))
  {
    var norm, gen, msk := b[65..97], b[97..225], b[225..];
    assert norm[0] == b[65];
    HalveValue(norm);
    ParsedEntry(norm, w);
    KeyBlocks(b);
    ParsedVec(gen, w);
    wire := ParseMatrix(msk);
    ParsedMatrix(msk, w);
    ExchangeIsProduct(wire, f);
  }

  lemma ParsedVec(s: seq<byte>, w: nat)
    requires |s| == 128 && w == 8 * FIELD_BYTES
    ensures var v := ParseVec(s);
            && SignedVec(v, w) && HoldsBytes(s[..32], v.a % Pow2(w)) && HoldsBytes(s[32..64], v.b % Pow2(w))
            && HoldsBytes(s[64..96], v.c % Pow2(w)) && HoldsBytes(s[96..], v.d % Pow2(w))
  {
    ParsedCoordinate(s[..32], w);
    ParsedCoordinate(s[32..64], w);
    ParsedCoordinate(s[64..96], w);
    ParsedCoordinate(s[96..], w);
  }

  lemma ParsedMatrix(s: seq<byte>, w: nat)
    requires |s| == 128 && w == 8 * FIELD_BYTES
    ensures var m := ParseMatrix(s);
            && Reduced2(m, Pow2(w)) && HoldsBytes(s[..32], m.a) && HoldsBytes(s[32..64], m.b)
            && HoldsBytes(s[64..96], m.c) && HoldsBytes(s[96..], m.d)
  {
    ParsedEntry(s[..32], w);
    ParsedEntry(s[32..64], w);
    ParsedEntry(s[64..96], w);
    ParsedEntry(s[96..], w);
  }

  lemma ParsedCoordinate(s: seq<byte>, w: nat)
    requires |s| == FIELD_BYTES && w == 8 * FIELD_BYTES
    ensures Signed32(DecodeSigned(s), w) && HoldsBytes(s, DecodeSigned(s) % Pow2(w))
  {
    DecodeValue(s);
    LeNatBound(s);
    assert Pow2(w) == 2 * Pow2(w - 1);
    SignedReprint(s);
    SignedResidue(DecodeSigned(s), |s|);
  }

  lemma ParsedEntry(s: seq<byte>, w: nat)
    requires w == 8 * |s|
    ensures 0 <= LeNat(s) < Pow2(w) && HoldsBytes(s, LeNat(s))
  {
    LeNatBound(s);
    ValueHolds(s);
  }

  lemma WiderBound(m: Mat2, f: nat, w: nat)
    requires f <= w && Reduced2(m, Pow2(f))
    ensures Reduced2(m, Pow2(w))
  {
    Pow2Add(f, w - f);
    Grow(Pow2(f), 1, Pow2(w - f));
  }

  lemma ReducedStays(m: Mat2, n: int)
    requires n > 0
    ensures NonNegative2(m) ==> (Mod2(m, n) == m <==> Reduced2(m, n))
  {
    if NonNegative2(m) && Reduced2(m, n) {
      QuotientUnique(n, 0, m.a, m.a);
      QuotientUnique(n, 0, m.b, m.b);
      QuotientUnique(n, 0, m.c, m.c);
      QuotientUnique(n, 0, m.d, m.d);
    }
  }

  lemma VecReprint(s: seq<byte>)
    requires |s| == 128
    ensures PrintVec(ParseVec(s)) == s
  {
    SignedReprint(s[..32]);
    SignedReprint(s[32..64]);
    SignedReprint(s[64..96]);
    SignedReprint(s[96..]);
    Rejoin(s, FIELD_BYTES);
  }

  lemma MatrixReprint(s: seq<byte>, n: nat)
    requires |s| == 128 && n > 0
    ensures PrintMatrix(ParseMatrix(s)) == s
    ensures PrintMatrix(Mod2(ParseMatrix(s), n)) == s <==> Reduced2(ParseMatrix(s), n)
  {
    MatrixBytes(s);
    var m := ParseMatrix(s);
    ReducedStays(m, n);
    if PrintMatrix(Mod2(m, n)) == s {
      SmallerFits(m, n, s);
    }
  }

  lemma MatrixBytes(s: seq<byte>)
    requires |s| == 128
    ensures PrintMatrix(ParseMatrix(s)) == s
  {
    LeNatBytes(s[..32]);
    LeNatBytes(s[32..64]);
    LeNatBytes(s[64..96]);
    LeNatBytes(s[96..]);
    Rejoin(s, FIELD_BYTES);
  }

  /** Residues that print the same are the numbers themselves. */
  lemma SmallerFits(m: Mat2, n: nat, s: seq<byte>)
    requires n > 0 && |s| == 128 && m == ParseMatrix(s) && PrintMatrix(Mod2(m, n)) == s
    ensures Reduced2(m, n)
  {
    var w := 8 * 32;
    LeNatBound(s[..32]);
    LeNatBound(s[32..64]);
    LeNatBound(s[64..96]);
    LeNatBound(s[96..]);
    ResidueSmaller(m.a, n);
    ResidueSmaller(m.b, n);
    ResidueSmaller(m.c, n);
    ResidueSmaller(m.d, n);
    MatrixRoundTrip(Mod2(m, n), w);
  }

  lemma ResidueSmaller(x: nat, n: nat)
    requires n > 0
    ensures x % n <= x && x % n < n
  {
    DivisionLaw(x, n);
    if x / n < 0 {
      Grow(n, x / n, -1);
    }
    Grow(n, 0, x / n);
  }

  /** Parsing and printing gives the bytes back exactly when the four matrix entries were already below 2^f. */
  lemma KeyReprint(b: seq<byte>, validKey: seq<byte> -> bool, f: nat)
    requires |b| == KEY_BYTES && ParseKey(b, validKey, f).Ok?
    ensures PrintKey(ParseKey(b, validKey, f).value, f) == b <==> Reduced2(ParseMatrix(b[225..]), Pow2(f))
  {
    var wire := ParseMatrix(b[225..]);
    ExchangeTwice(wire, f);
    LeNatBytes(b[65..97]);
    VecReprint(b[97..225]);
    MatrixReprint(b[225..], Pow2(f));
    var p := PrintMatrix(Mod2(wire, Pow2(f)));
    PrintedFields(b[..65], b[65..97], b[97..225], p);
    assert b == b[..65] + b[65..97] + b[97..225] + b[225..];
  }
}
