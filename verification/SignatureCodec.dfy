/** The signature's byte layout and the checks of its parser. */
module SignatureCodec {
  import opened Arith
  import opened Bytes
  import opened TwosComplement
  import opened Matrices2
  import opened KeyCodec
  import Response

  const SIGNATURE_BYTES: nat := 148

  /** Bytes per matrix entry, and of the challenge. */
  const COMP_BYTES: nat := 16

  /** The curve coefficient's codec: 64 bytes each way, and the test for a singular model. */
  datatype CurveCodec<!C> = CurveCodec(decode: seq<byte> -> C, encode: C -> seq<byte>, singular: C -> bool)

  ghost predicate Encodes64<C(!new)>(c: CurveCodec<C>) {
    forall x: C :: |c.encode(x)| == 64
  }

  /** e is the exponent the matrix carries for its later use. */
  datatype Signature<C> = Signature(curve: C, nBt: nat, rRsp: nat, m: Mat2, e: nat, chl: nat, hintAux: byte, hintChl: byte)

  function PrintEntries(m: Mat2): (s: seq<byte>)
    requires NonNegative2(m)
    ensures |s| == 64
  {
    LeBytes(m.a, COMP_BYTES) + LeBytes(m.b, COMP_BYTES) + LeBytes(m.c, COMP_BYTES) + LeBytes(m.d, COMP_BYTES)
  }

  function ParseEntries(s: seq<byte>): (m: Mat2)
    requires |s| == 64
    ensures NonNegative2(m)
  {
    Mat2(LeNat(s[..16]), LeNat(s[16..32]), LeNat(s[32..48]), LeNat(s[48..]))
  }

  function PrintSignature<C>(c: CurveCodec<C>, s: Signature<C>): seq<byte>
    requires s.nBt <= 248 && s.rRsp <= 248 && NonNegative2(s.m)
  {
    c.encode(s.curve) + [s.nBt as byte, s.rRsp as byte] + PrintEntries(s.m) + LeBytes(s.chl, COMP_BYTES) + [s.hintAux, s.hintChl]
  }

  /** Parsing the separate fields, in the order of the checks. */
  function ParseFields<C>(c: CurveCodec<C>, curveBytes: seq<byte>, n: byte, r: byte, entries: seq<byte>, chl: seq<byte>,
                          hintAux: byte, hintChl: byte): Result<Signature<C>>
    requires |entries| == 64
  {
    var curve := c.decode(curveBytes);
    if c.singular(curve) then Err(InvalidCurve)
    else
      var nBt, rRsp := n as nat, r as nat;
      if nBt > 248 || rRsp > 248 then Err(NonCanonical)
      else if nBt > 126 + 2 then Err(NonCanonical)
      else
        var bound := 126 + 2 - nBt;
        var m := ParseEntries(entries);
        if !Reduced2(m, Pow2(bound)) then Err(NonCanonical)
        else Ok(Signature(curve, nBt, rRsp, m, bound, LeNat(chl), hintAux, hintChl))
  }

  function ParseSignature<C>(c: CurveCodec<C>, b: seq<byte>): Result<Signature<C>>
    requires |b| == SIGNATURE_BYTES
  {
    ParseFields(c, b[..64], b[64], b[65], b[66..130], b[130..146], b[146], b[147])
  }

  method AppendEntries(a: array<byte>, pos: nat, m: Mat2)
    requires pos + 64 <= a.Length && NonNegative2(m)
    modifies a
    ensures a[..pos + 64] == old(a[..pos]) + PrintEntries(m)
  {
    Append(a, pos, LeBytes(m.a, COMP_BYTES));
    Append(a, pos + 16, LeBytes(m.b, COMP_BYTES));
    Append(a, pos + 32, LeBytes(m.c, COMP_BYTES));
    Append(a, pos + 48, LeBytes(m.d, COMP_BYTES));
  }

  /** Prints field by field into one buffer. */
  method ToBytes<C(!new)>(c: CurveCodec<C>, s: Signature<C>) returns (out: array<byte>)
    requires Encodes64(c) && s.nBt <= 248 && s.rRsp <= 248 && NonNegative2(s.m)
    ensures fresh(out) && out[..] == PrintSignature(c, s) && SignatureLayout(out[..], c, s)
  {
    out := new byte[148](_ => 0);
    Append(out, 0, c.encode(s.curve));
    Append(out, 64, [s.nBt as byte, s.rRsp as byte]);
    AppendEntries(out, 66, s.m);
    Append(out, 130, LeBytes(s.chl, COMP_BYTES));
    Append(out, 146, [s.hintAux, s.hintChl]);
    assert out[..148] == out[..];
    PrintedSignature(c, s);
  }

  /** The bytes of a printed signature: the curve, the two lengths, the matrix entries row by row and the challenge in
      little-endian blocks of 16 bytes, and the two hints. */
  ghost predicate SignatureLayout<C>(b: seq<byte>, c: CurveCodec<C>, s: Signature<C>) {
    && |b| == SIGNATURE_BYTES && b[..64] == c.encode(s.curve) && b[64] as nat == s.nBt && b[65] as nat == s.rRsp
    && NonNegative2(s.m) && HoldsEntries(b[66..130], s.m) && HoldsBytes(b[130..146], s.chl)
    && b[146] == s.hintAux && b[147] == s.hintChl
  }

  ghost predicate HoldsEntries(e: seq<byte>, m: Mat2)
    requires |e| == 64 && NonNegative2(m)
  {
    HoldsBytes(e[..16], m.a) && HoldsBytes(e[16..32], m.b) && HoldsBytes(e[32..48], m.c) && HoldsBytes(e[48..], m.d)
  }

  lemma PrintedSignature<C(!new)>(c: CurveCodec<C>, s: Signature<C>)
    requires Encodes64(c) && s.nBt <= 248 && s.rRsp <= 248 && NonNegative2(s.m)
    ensures SignatureLayout(PrintSignature(c, s), c, s)
  {
    SignatureFields(c.encode(s.curve), [s.nBt as byte, s.rRsp as byte], PrintEntries(s.m), LeBytes(s.chl, COMP_BYTES), [s.hintAux, s.hintChl]);
    PrintedEntries(s.m);
    LeBytesHold(s.chl, COMP_BYTES);
  }

  lemma PrintedEntries(m: Mat2)
    requires NonNegative2(m)
    ensures HoldsEntries(PrintEntries(m), m)
  {
    LeBytesHold(m.a, COMP_BYTES);
    LeBytesHold(m.b, COMP_BYTES);
    LeBytesHold(m.c, COMP_BYTES);
    LeBytesHold(m.d, COMP_BYTES);
    Quarters(LeBytes(m.a, COMP_BYTES), LeBytes(m.b, COMP_BYTES), LeBytes(m.c, COMP_BYTES), LeBytes(m.d, COMP_BYTES), COMP_BYTES);
  }

  /** Which bytes parse, and to what. The curve is judged first; then the lengths, the first of which bounds the entries. */
  lemma ParsedSignature<C(!new)>(c: CurveCodec<C>, b: seq<byte>, w: nat) returns (m: Mat2)
    requires |b| == SIGNATURE_BYTES && w == 8 * COMP_BYTES
    ensures NonNegative2(m) && HoldsEntries(b[66..130], m) && Reduced2(m, Pow2(w))
    ensures ParseSignature(c, b) == Err(InvalidCurve) <==> c.singular(c.decode(b[..64]))
    ensures ParseSignature(c, b).Ok? <==>
              && !c.singular(c.decode(b[..64])) && b[64] as nat <= 128 && b[65] as nat <= 248
              && Reduced2(m, Pow2(128 - b[64] as nat))
    ensures ParseSignature(c, b).Ok? ==>
              var s := ParseSignature(c, b).value;
              && s.curve == c.decode(b[..64]) && s.nBt == b[64] as nat && s.rRsp == b[65] as nat && s.m == m
              && s.e == 128 - s.nBt && HoldsBytes(b[130..146], s.chl) && s.chl < Pow2(w) && s.hintAux == b[146] && s.hintChl == b[147]
  {
    var e := b[66..130];
    m := ParseEntries(e);
    ParsedEntry(e[..16], w);
    ParsedEntry(e[16..32], w);
    ParsedEntry(e[32..48], w);
    ParsedEntry(e[48..], w);
    ParsedEntry(b[130..146], w);
  }

  /** What the printed form can carry. */
  predicate Canonical<C(==)>(c: CurveCodec<C>, s: Signature<C>, w: nat) {
    && c.decode(c.encode(s.curve)) == s.curve && !c.singular(s.curve)
    && s.nBt <= 128 && s.rRsp <= 248 && s.e == 128 - s.nBt && Reduced2(s.m, Pow2(128 - s.nBt)) && s.chl < Pow2(w)
  }

  lemma SignatureFields(curve: seq<byte>, ns: seq<byte>, m: seq<byte>, chl: seq<byte>, hints: seq<byte>)
    requires |curve| == 64 && |ns| == 2 && |m| == 64 && |chl| == 16 && |hints| == 2
    ensures var b := curve + ns + m + chl + hints;
            |b| == 148 && b[..64] == curve && b[64] == ns[0] && b[65] == ns[1] && b[66..130] == m && b[130..146] == chl
    ensures var b := curve + ns + m + chl + hints; b[146] == hints[0] && b[147] == hints[1]
  {
  }

  lemma EntriesRoundTrip(m: Mat2, w: nat)
    requires w == 8 * 16 && Reduced2(m, Pow2(w))
    ensures ParseEntries(PrintEntries(m)) == m
  {
    LeBytesValue(m.a, COMP_BYTES);
    LeBytesValue(m.b, COMP_BYTES);
    LeBytesValue(m.c, COMP_BYTES);
    LeBytesValue(m.d, COMP_BYTES);
    Quarters(LeBytes(m.a, COMP_BYTES), LeBytes(m.b, COMP_BYTES), LeBytes(m.c, COMP_BYTES), LeBytes(m.d, COMP_BYTES), COMP_BYTES);
  }

  /** Printing and parsing gives a signature back exactly when it is canonical. */
  lemma SignatureRoundTrip<C(!new)>(c: CurveCodec<C>, s: Signature<C>, w: nat)
    requires Encodes64(c) && s.nBt <= 248 && s.rRsp <= 248 && NonNegative2(s.m) && w == 8 * 16
    ensures var b := PrintSignature(c, s);
            |b| == SIGNATURE_BYTES && (ParseSignature(c, b) == Ok(s) <==> Canonical(c, s, w))
  {
    SignatureFields(c.encode(s.curve), [s.nBt as byte, s.rRsp as byte], PrintEntries(s.m), LeBytes(s.chl, COMP_BYTES), [s.hintAux, s.hintChl]);
    FieldsRoundTrip(c, s, w);
  }

  function Reparsed<C>(c: CurveCodec<C>, s: Signature<C>): Result<Signature<C>>
    requires s.nBt <= 248 && s.rRsp <= 248 && NonNegative2(s.m)
  {
    ParseFields(c, c.encode(s.curve), s.nBt as byte, s.rRsp as byte, PrintEntries(s.m), LeBytes(s.chl, COMP_BYTES), s.hintAux, s.hintChl)
  }

  lemma FieldsRoundTrip<C>(c: CurveCodec<C>, s: Signature<C>, w: nat)
    requires s.nBt <= 248 && s.rRsp <= 248 && NonNegative2(s.m) && w == 8 * 16
    ensures Reparsed(c, s) == Ok(s) <==> Canonical(c, s, w)
  {
    if Canonical(c, s, w) {
      CanonicalParses(c, s, w);
    }
    if Reparsed(c, s) == Ok(s) {
      OnlyCanonicalParses(c, s, w);
    }
  }

  lemma OnlyCanonicalParses<C>(c: CurveCodec<C>, s: Signature<C>, w: nat)
    requires s.nBt <= 248 && s.rRsp <= 248 && NonNegative2(s.m) && w == 8 * 16 && Reparsed(c, s) == Ok(s)
    ensures Canonical(c, s, w)
  {
    ParsedIsCanonical(c, c.encode(s.curve), s.nBt as byte, s.rRsp as byte, PrintEntries(s.m), LeBytes(s.chl, COMP_BYTES),
                      s.hintAux, s.hintChl, s, w);
  }

  /** Whatever parses is within the bounds. */
  lemma ParsedIsCanonical<C>(c: CurveCodec<C>, curveBytes: seq<byte>, n: byte, r: byte, entries: seq<byte>, chl: seq<byte>,
                             hintAux: byte, hintChl: byte, s: Signature<C>, w: nat)
    requires |entries| == 64 && w == 8 * |chl|
    requires ParseFields(c, curveBytes, n, r, entries, chl, hintAux, hintChl) == Ok(s)
    ensures s.curve == c.decode(curveBytes) && !c.singular(s.curve)
    ensures s.nBt <= 128 && s.rRsp <= 248 && s.e == 128 - s.nBt && Reduced2(s.m, Pow2(128 - s.nBt)) && s.chl < Pow2(w)
  {
    LeNatBound(chl);
  }

  lemma CanonicalParses<C>(c: CurveCodec<C>, s: Signature<C>, w: nat)
    requires NonNegative2(s.m) && w == 8 * 16 && Canonical(c, s, w)
    ensures Reparsed(c, s) == Ok(s)
  {
    NarrowEntries(s.m, 128 - s.nBt, w);
    LeBytesValue(s.chl, COMP_BYTES);
  }

  lemma NarrowEntries(m: Mat2, bits: nat, w: nat)
    requires w == 8 * 16 && bits <= w && Reduced2(m, Pow2(bits))
    ensures ParseEntries(PrintEntries(m)) == m
  {
    WiderBound(m, bits, w);
    EntriesRoundTrip(m, w);
  }

  lemma EntriesReprint(s: seq<byte>)
    requires |s| == 64
    ensures PrintEntries(ParseEntries(s)) == s
  {
    LeNatBytes(s[..16]);
    LeNatBytes(s[16..32]);
    LeNatBytes(s[32..48]);
    LeNatBytes(s[48..]);
    Rejoin(s, COMP_BYTES);
  }

  /** Parsing and printing gives the bytes back exactly when the curve coefficient was encoded canonically. */
  lemma SignatureReprint<C(!new)>(c: CurveCodec<C>, b: seq<byte>)
    requires Encodes64(c) && |b| == SIGNATURE_BYTES && ParseSignature(c, b).Ok?
    ensures PrintSignature(c, ParseSignature(c, b).value) == b <==> c.encode(c.decode(b[..64])) == b[..64]
  {
    var s := ParseSignature(c, b).value;
    EntriesReprint(b[66..130]);
    LeNatBytes(b[130..146]);
    SignatureFields(c.encode(s.curve), [s.nBt as byte, s.rRsp as byte], PrintEntries(s.m), LeBytes(s.chl, COMP_BYTES), [s.hintAux, s.hintChl]);
    assert b == b[..64] + [b[64], b[65]] + b[66..130] + b[130..146] + [b[146], b[147]];
  }

  /** The signer's exponents meet the parser's bound: what it prints is accepted unchanged, and the verifier's
      first check passes with the signer's remaining length. */
  lemma SignerOutputParses<C(!new)>(c: CurveCodec<C>, s: Signature<C>, x: Response.Exponents, w: nat)
    requires Encodes64(c) && Response.SoundExponents(x, s.nBt) && s.rRsp == x.r && s.e == x.e + x.r + 2
    requires Reduced2(s.m, Pow2(s.e)) && s.chl < Pow2(w) && w == 8 * 16
    requires c.decode(c.encode(s.curve)) == s.curve && !c.singular(s.curve)
    ensures var b := PrintSignature(c, s); |b| == SIGNATURE_BYTES && ParseSignature(c, b) == Ok(s)
    ensures s.nBt + s.rRsp < Response.E_RSP && x.e == Response.E_RSP - s.nBt - s.rRsp
  {
    SignatureRoundTrip(c, s, w);
  }
}
