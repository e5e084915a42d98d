/** Writing byte buffers, and two's complement in place. */
module TwosComplement {
  import opened Arith
  import opened Bytes
  import opened Gcds

  // ----- writing into a buffer, front to back -----

  method Append(a: array<byte>, pos: nat, s: seq<byte>)
    requires pos + |s| <= a.Length
    modifies a
    ensures a[..pos + |s|] == old(a[..pos]) + s
    ensures a[pos + |s|..] == old(a[pos + |s|..])
  {
    var i := 0;
    while i < |s|
      invariant 0 <= i <= |s|
      invariant a[..pos + i] == old(a[..pos]) + s[..i]
      invariant a[pos + i..] == old(a[pos + i..])
    {
      a[pos + i] := s[i];
      i := i + 1;
    }
    assert s[..i] == s;
  }

  // ----- two's complement -----

  function Flip(s: seq<byte>): (r: seq<byte>)
    ensures |r| == |s|
  {
    if s == [] then [] else [255 - s[0]] + Flip(s[1..])
  }

  lemma {:induction false} FlipValue(s: seq<byte>)
    ensures LeNat(Flip(s)) == Pow2(8 * |s|) - 1 - LeNat(s)
  {
    if s != [] {
      FlipValue(s[1..]);
      BytePower(|s[1..]|);
      assert Flip(s)[1..] == Flip(s[1..]);
    }
  }

  function Increment(s: seq<byte>, carry: nat): (r: seq<byte>)
    requires carry <= 1
    ensures |r| == |s|
  {
    if s == [] then [] else
      var sum := s[0] as int + carry;
      [(sum % 256) as byte] + Increment(s[1..], sum / 256)
  }

  lemma {:induction false} IncrementValue(s: seq<byte>, carry: nat)
    requires carry <= 1
    ensures LeNat(Increment(s, carry)) == LeNat(s) + carry - if LeNat(s) + carry == Pow2(8 * |s|) then Pow2(8 * |s|) else 0
  {
    if s != [] {
      var sum := s[0] as int + carry;
      IncrementValue(s[1..], sum / 256);
      BytePower(|s[1..]|);
      assert Increment(s, carry)[1..] == Increment(s[1..], sum / 256);
      LeNatBound(s[1..]);
      Carried(s[0] as int, LeNat(s[1..]), carry, Pow2(8 * |s[1..]|), LeNat(Increment(s[1..], sum / 256)));
    }
  }

  lemma Carried(x: int, h: int, carry: int, p: int, d: int)
    requires 0 <= x < 256 && 0 <= carry <= 1 && 0 <= h < p
    requires var c := (x + carry) / 256; d == h + c - if h + c == p then p else 0
    ensures (x + carry) % 256 + 256 * d == x + 256 * h + carry - if x + 256 * h + carry == 256 * p then 256 * p else 0
  {
  }

  method FlipRange(a: array<byte>, lo: nat, hi: nat)
    requires lo <= hi <= a.Length
    modifies a
    ensures a[..lo] == old(a[..lo]) && a[lo..hi] == Flip(old(a[lo..hi])) && a[hi..] == old(a[hi..])
  {
    ghost var was := a[..];
    var i := lo;
    while i < hi
      invariant lo <= i <= hi
      invariant forall j | lo <= j < i :: a[j] == 255 - was[j]
      invariant forall j | 0 <= j < a.Length && !(lo <= j < i) :: a[j] == was[j]
    {
      a[i] := 255 - a[i];
      i := i + 1;
    }
    FlipAt(was[lo..hi]);
    assert a[lo..hi] == Flip(was[lo..hi]);
  }

  lemma {:induction false} FlipAt(s: seq<byte>)
    ensures forall j | 0 <= j < |s| :: Flip(s)[j] == 255 - s[j]
  {
    if s != [] {
      FlipAt(s[1..]);
    }
  }

  /** One byte of the carry chain. */
  method AddCarry(x: byte, carry: nat) returns (r: byte, out: nat)
    requires carry <= 1
    ensures r as int == (x as int + carry) % 256 && out == (x as int + carry) / 256 && out <= 1
  {
    var sum := carry + x as int;
    r := (sum % 256) as byte;
    out := sum / 256;
  }

  lemma IncrementStep(s: seq<byte>, carry: nat, r: byte, out: nat)
    requires s != [] && carry <= 1 && r as int == (s[0] as int + carry) % 256 && out == (s[0] as int + carry) / 256
    ensures Increment(s, carry) == [r] + Increment(s[1..], out)
  {
  }

  method IncrementRange(a: array<byte>, lo: nat, hi: nat)
    requires lo <= hi <= a.Length
    modifies a
    ensures a[..lo] == old(a[..lo]) && a[lo..hi] == Increment(old(a[lo..hi]), 1) && a[hi..] == old(a[hi..])
  {
    ghost var was := a[..];
    ghost var full := Increment(was[lo..hi], 1);
    Whole(full, lo);
    var carry := 1;
    var i := lo;
    while i < hi
      invariant lo <= i <= hi && 0 <= carry <= 1
      invariant forall j | lo <= j < i :: a[j] == full[j - lo]
      invariant forall j | 0 <= j < a.Length && !(lo <= j < i) :: a[j] == was[j]
      invariant full[i - lo..] == Increment(was[i..hi], carry)
    {
      var r, out := AddCarry(a[i], carry);
      CarryStep(was, full, lo, i, hi, carry, r, out);
      a[i] := r;
      carry, i := out, i + 1;
    }
    SameSlice(a[..], lo, hi, full);
    Outside(a[..], was, lo, hi);
    assert was[lo..hi] == old(a[lo..hi]) && a[..][lo..hi] == a[lo..hi];
  }

  lemma Whole(s: seq<byte>, lo: nat)
    ensures s[lo - lo..] == s
  {
  }

  lemma Outside(s: seq<byte>, was: seq<byte>, lo: nat, hi: nat)
    requires lo <= hi <= |s| == |was| && forall j | 0 <= j < |s| && !(lo <= j < hi) :: s[j] == was[j]
    ensures s[..lo] == was[..lo] && s[hi..] == was[hi..]
  {
  }

  lemma CarryStep(was: seq<byte>, full: seq<byte>, lo: nat, i: nat, hi: nat, carry: nat, r: byte, out: nat)
    requires lo <= i < hi <= |was| && |full| == hi - lo && carry <= 1
    requires full[i - lo..] == Increment(was[i..hi], carry)
    requires r as int == (was[i] as int + carry) % 256 && out == (was[i] as int + carry) / 256
    ensures full[i - lo] == r && full[i + 1 - lo..] == Increment(was[i + 1..hi], out)
  {
    var left := was[i..hi];
    assert left[0] == was[i] && left[1..] == was[i + 1..hi];
    IncrementStep(left, carry, r, out);
    NextByte(full, i - lo, r, Increment(left[1..], out));
  }

  lemma SameSlice(s: seq<byte>, lo: nat, hi: nat, full: seq<byte>)
    requires lo <= hi <= |s| && |full| == hi - lo && forall j | lo <= j < hi :: s[j] == full[j - lo]
    ensures s[lo..hi] == full
  {
  }

  lemma NextByte(s: seq<byte>, k: nat, r: byte, rest: seq<byte>)
    requires k < |s| && s[k..] == [r] + rest
    ensures s[k] == r && s[k + 1..] == rest
  {
    assert s[k] == s[k..][0] && s[k + 1..] == s[k..][1..];
  }

  // ----- signed numbers as bytes -----

  /** Magnitude bytes, flipped and incremented for a negative number. */
  function SignedBytes(c: int, len: nat): (s: seq<byte>)
    ensures |s| == len
  {
    var m := LeBytes(Abs(c), len);
    if c < 0 then Increment(Flip(m), 1) else m
  }

  /** The top bit of the last byte is the sign. */
  function DecodeSigned(s: seq<byte>): int
    requires s != []
  {
    if s[|s| - 1] < 128 then LeNat(s) else -(LeNat(Flip(s)) + 1)
  }

  lemma {:induction false} LeNatAppend(s: seq<byte>, t: seq<byte>)
    ensures LeNat(s + t) == LeNat(s) + Pow2(8 * |s|) * LeNat(t)
  {
    if s == [] {
      assert s + t == t;
    } else {
      LeNatAppend(s[1..], t);
      assert (s + t)[1..] == s[1..] + t;
      BytePower(|s[1..]|);
      WeightedStep(LeNat(s[1..]), Pow2(8 * |s[1..]|), LeNat(t));
    }
  }

  lemma WeightedStep(x: int, p: int, y: int)
    ensures 256 * (x + p * y) == 256 * x + (256 * p) * y
  {
  }

  lemma TopBit(s: seq<byte>)
    requires s != []
    ensures s[|s| - 1] < 128 <==> LeNat(s) < Pow2(8 * |s| - 1)
  {
    var n := |s| - 1;
    var low, top := s[..n], s[n];
    assert s == low + [top];
    LeNatAppend(low, [top]);
    assert [top][1..] == [];
    assert LeNat([top]) == top as int;
    LeNatBound(low);
    Pow2Add(8 * n, 7);
    assert Pow2(7) == 128;
    SplitTop(LeNat(low), Pow2(8 * n), top as int);
  }

  lemma SplitTop(low: int, p: int, top: int)
    requires 0 <= low < p
    ensures low + p * top < p * 128 <==> top < 128
  {
    if top < 128 { Grow(p, top + 1, 128); } else { Grow(p, 128, top); }
  }

  /** Parsing reads the upper half of the range as negative numbers. */
  lemma DecodeValue(s: seq<byte>)
    requires s != []
    ensures DecodeSigned(s) == if LeNat(s) < Pow2(8 * |s| - 1) then LeNat(s) else LeNat(s) - Pow2(8 * |s|)
  {
    TopBit(s);
    FlipValue(s);
  }

  /** For every number, in range or not, the bytes are those of its residue modulo 2^(8*len). */
  lemma SignedResidue(c: int, len: nat)
    ensures LeNat(SignedBytes(c, len)) == c % Pow2(8 * len) && HoldsBytes(SignedBytes(c, len), c % Pow2(8 * len))
  {
    var m, p := LeBytes(Abs(c), len), Pow2(8 * len);
    LeBytesTruncate(Abs(c), len);
    if c < 0 {
      FlipValue(m);
      IncrementValue(Flip(m), 1);
      NegatedResidue(-c, p);
    }
    ValueHolds(SignedBytes(c, len));
  }

  lemma NegatedResidue(x: int, p: int)
    requires p > 0 && x >= 0
    ensures -x % p == if x % p == 0 then 0 else p - x % p
  {
    DivisionLaw(x, p);
    if x % p == 0 {
      assert -x == p * -(x / p);
      ExactQuotient(p, -(x / p));
    } else {
      assert -x == p * (-(x / p) - 1) + (p - x % p);
      QuotientUnique(p, -(x / p) - 1, p - x % p, -x);
    }
  }

  lemma SignedValue(c: int, len: nat)
    requires Abs(c) < Pow2(8 * len)
    ensures LeNat(SignedBytes(c, len)) == if c < 0 then c + Pow2(8 * len) else c
  {
    var m := LeBytes(Abs(c), len);
    LeBytesValue(Abs(c), len);
    if c < 0 {
      FlipValue(m);
      IncrementValue(Flip(m), 1);
    }
  }

  /** A number survives printing and parsing exactly when it lies in the two's complement range. */
  lemma SignedRoundTrip(c: int, len: nat)
    requires len >= 1 && Abs(c) < Pow2(8 * len)
    ensures DecodeSigned(SignedBytes(c, len)) == c <==> c + Pow2(8 * len - 1) >= 0 && c < Pow2(8 * len - 1)
  {
    SignedValue(c, len);
    DecodeValue(SignedBytes(c, len));
  }

  /** Parsing and printing gives every byte string back. */
  lemma SignedReprint(s: seq<byte>)
    requires s != []
    ensures SignedBytes(DecodeSigned(s), |s|) == s
  {
    var c := DecodeSigned(s);
    DecodeValue(s);
    LeNatBound(s);
    SignedValue(c, |s|);
    LeNatBytes(s);
    LeNatBytes(SignedBytes(c, |s|));
  }

  /** Two's complement of a block in place: flip, then add one. */
  method NegateRange(a: array<byte>, lo: nat, hi: nat)
    requires lo <= hi <= a.Length
    modifies a
    ensures a[..lo] == old(a[..lo]) && a[lo..hi] == Increment(Flip(old(a[lo..hi])), 1) && a[hi..] == old(a[hi..])
  {
    FlipRange(a, lo, hi);
    IncrementRange(a, lo, hi);
  }

  /** Writes the magnitude and negates the block in place when the number is negative. */
  method AppendSigned(a: array<byte>, pos: nat, c: int, len: nat)
    requires pos + len <= a.Length
    modifies a
    ensures a[..pos + len] == old(a[..pos]) + SignedBytes(c, len)
    ensures a[pos + len..] == old(a[pos + len..])
  {
    ghost var before, m := a[..pos], LeBytes(Abs(c), len);
    Append(a, pos, LeBytes(Abs(c), len));
    if c < 0 {
      Block(a[..], before, m);
      NegateRange(a, pos, pos + len);
      Block'(a[..], pos, pos + len);
    }
  }

  lemma Block(s: seq<byte>, x: seq<byte>, y: seq<byte>)
    requires |x| + |y| <= |s| && s[..|x| + |y|] == x + y
    ensures s[..|x|] == x && s[|x|..|x| + |y|] == y
  {
    SplitAt(s[..|x| + |y|], x, y);
    assert s[..|x|] == s[..|x| + |y|][..|x|] && s[|x|..|x| + |y|] == s[..|x| + |y|][|x|..];
  }

  lemma Block'(s: seq<byte>, lo: nat, hi: nat)
    requires lo <= hi <= |s|
    ensures s[..hi] == s[..lo] + s[lo..hi]
  {
  }

  lemma SplitAt(s: seq<byte>, x: seq<byte>, y: seq<byte>)
    requires s == x + y
    ensures s[..|x|] == x && s[|x|..] == y
  {
  }
}
