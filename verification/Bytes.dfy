/** Little-endian byte strings and the byte-wise steps of the scalar recoding. */
module Bytes {
  import opened Arith

  newtype byte = b: int | 0 <= b < 256

  /** The value of a little-endian byte string. */
  function LeNat(s: seq<byte>): nat {
    if s == [] then 0 else s[0] as int + 256 * LeNat(s[1..])
  }

  lemma {:induction false} LeNatBound(s: seq<byte>)
    ensures LeNat(s) < Pow2(8 * |s|)
  {
    if s != [] {
      LeNatBound(s[1..]);
      BytePower(|s[1..]|);
    }
  }

  // ----- subtract one -----

  function Decrement(s: seq<byte>, borrow: nat): (r: seq<byte>)
    requires borrow <= 1
    ensures |r| == |s|
  {
    if s == [] then [] else
      var diff := s[0] as int - borrow;
      [if diff < 0 then 255 as byte else diff as byte] + Decrement(s[1..], if diff < 0 then 1 else 0)
  }

  lemma {:induction false} DecrementValue(s: seq<byte>, borrow: nat)
    requires borrow <= 1
    ensures LeNat(Decrement(s, borrow)) == LeNat(s) - borrow + if LeNat(s) < borrow then Pow2(8 * |s|) else 0
  {
    if s != [] {
      var diff := s[0] as int - borrow;
      var b := if diff < 0 then 1 else 0;
      DecrementValue(s[1..], b);
      BytePower(|s[1..]|);
      assert Decrement(s, borrow)[1..] == Decrement(s[1..], b);
      Borrowed(s[0] as int, LeNat(s[1..]), borrow, Pow2(8 * |s[1..]|), LeNat(Decrement(s[1..], b)));
    }
  }

  /** One more byte multiplies the range by 256. */
  lemma BytePower(n: nat)
    ensures Pow2(8 * (n + 1)) == 256 * Pow2(8 * n)
  {
    Pow2Add(8, 8 * n);
    assert Pow2(8) == 256;
  }

  lemma Borrowed(x: int, h: nat, borrow: nat, p: int, d: int)
    requires 0 <= x < 256 && borrow <= 1
    requires var b := if x < borrow then 1 else 0; d == h - b + if h < b then p else 0
    ensures (if x < borrow then 255 else x - borrow) + 256 * d == x + 256 * h - borrow + if x + 256 * h < borrow then 256 * p else 0
  {
  }

  /** Subtracts one in place when asked to, letting the borrow run off the top byte. */
  method SubOne(a: array<byte>, subtract: bool)
    modifies a
    ensures a[..] == if subtract then Decrement(old(a[..]), 1) else old(a[..])
  {
    NoBorrow(a[..]);
    SubBorrow(a, if subtract then 1 else 0);
  }

  method SubBorrow(a: array<byte>, initial: nat)
    requires initial <= 1
    modifies a
    ensures a[..] == Decrement(old(a[..]), initial)
  {
    var borrow := initial;
    ghost var was := a[..];
    ghost var done: seq<byte> := [];
    var i := 0;
    while i < a.Length
      invariant 0 <= i <= a.Length && 0 <= borrow <= 1
      invariant a[i..] == was[i..] && a[..i] == done
      invariant done + Decrement(was[i..], borrow) == Decrement(was, initial)
    {
      assert was[i..][0] == a[i] && was[i..][1..] == was[i + 1..];
      var r, out := SubByte(a[i], borrow);
      DecrementStep(was[i..], borrow, r, out);
      AppendAssoc(done, [r], Decrement(was[i + 1..], out));
      a[i] := r;
      done, borrow, i := done + [r], out, i + 1;
    }
    assert was[i..] == [];
    assert done + [] == done;
  }

  lemma AppendAssoc(x: seq<byte>, y: seq<byte>, z: seq<byte>)
    ensures (x + y) + z == x + (y + z)
  {
  }

  lemma DecrementStep(s: seq<byte>, borrow: nat, r: byte, out: nat)
    requires s != [] && borrow <= 1 && out == (if s[0] as int < borrow then 1 else 0)
    requires r as int == s[0] as int - borrow + 256 * out
    ensures Decrement(s, borrow) == [r] + Decrement(s[1..], out)
  {
  }

  /** The borrow step in sixteen-bit wrapping arithmetic. */
  method SubByte(x: byte, borrow: nat) returns (r: byte, out: nat)
    requires borrow <= 1
    ensures out == (if x as int < borrow then 1 else 0) && out <= 1
    ensures r as int == x as int - borrow + 256 * out
  {
    var diff := (x as int - borrow) % 0x1_0000;
    r := (diff % 256) as byte;
    out := (diff / 256) % 2;
  }

  lemma {:induction false} NoBorrow(s: seq<byte>)
    ensures Decrement(s, 0) == s
  {
    if s != [] {
      NoBorrow(s[1..]);
    }
  }

  // ----- shift right by one -----

  function Halve(s: seq<byte>): (r: seq<byte>)
    ensures |r| == |s|
  {
    if s == [] then [] else [HalfByte(s[0], if |s| > 1 then s[1] else 0)] + Halve(s[1..])
  }

  /** (low >> 1) | (high << 7) on bytes. */
  function HalfByte(low: byte, high: byte): byte {
    low / 2 + (high % 2) * 128
  }

  lemma {:induction false} HalveValue(s: seq<byte>)
    ensures LeNat(Halve(s)) == LeNat(s) / 2
    ensures s != [] ==> LeNat(s) % 2 == s[0] as int % 2
  {
    if s != [] {
      HalveValue(s[1..]);
      assert Halve(s)[1..] == Halve(s[1..]);
    }
  }

  /** Shifts in place and returns the bit that falls out. */
  method Shr1(a: array<byte>) returns (lsb: nat)
    requires a.Length > 0
    modifies a
    ensures a[..] == Halve(old(a[..])) && lsb == old(a[0]) as int % 2
  {
    lsb := a[0] as int % 2;
    ghost var was := a[..];
    var i := 0;
    while i < a.Length - 1
      invariant 0 <= i <= a.Length - 1
      invariant a[i..] == was[i..]
      invariant a[..i] + Halve(was[i..]) == Halve(was)
    {
      assert was[i..][0] == a[i] && was[i..][1] == a[i + 1] && was[i..][1..] == was[i + 1..];
      a[i] := HalfByte(a[i], a[i + 1]);
      assert a[..i + 1] == a[..i] + [a[i]];
      i := i + 1;
    }
    assert was[i..] == [a[i]];
    LastHalf(a[i]);
    a[i] := a[i] / 2;
    assert a[..] == a[..i] + [a[i]];
  }

  lemma LastHalf(b: byte)
    ensures Halve([b]) == [b / 2]
  {
    assert [b][1..] == [];
  }

  method SwapBytes(a: array<byte>, b: array<byte>, swap: bool)
    requires a != b && a.Length == b.Length
    modifies a, b
    ensures a[..] == if swap then old(b[..]) else old(a[..])
    ensures b[..] == if swap then old(a[..]) else old(b[..])
  {
    var i := 0;
    while i < a.Length
      invariant 0 <= i <= a.Length
      invariant a[i..] == old(a[i..]) && b[i..] == old(b[i..])
      invariant a[..i] == if swap then old(b[..i]) else old(a[..i])
      invariant b[..i] == if swap then old(a[..i]) else old(b[..i])
    {
      if swap {
        a[i], b[i] := b[i], a[i];
      }
      i := i + 1;
    }
  }

  // ----- numbers as byte strings -----

  /** The lowest len bytes of n. */
  function LeBytes(n: nat, len: nat): (s: seq<byte>)
    ensures |s| == len
  {
    if len == 0 then [] else [(n % 256) as byte] + LeBytes(n / 256, len - 1)
  }

  lemma {:induction false} LeBytesValue(n: nat, len: nat)
    requires n < Pow2(8 * len)
    ensures LeNat(LeBytes(n, len)) == n
  {
    if len > 0 {
      BytePower(len - 1);
      LeBytesValue(n / 256, len - 1);
      assert LeBytes(n, len)[1..] == LeBytes(n / 256, len - 1);
    }
  }

  /** A byte string is the bytes of its value. */
  lemma {:induction false} LeNatBytes(s: seq<byte>)
    ensures LeBytes(LeNat(s), |s|) == s
  {
    if s != [] {
      LeNatBytes(s[1..]);
      QuotientUnique(256, LeNat(s[1..]), s[0] as int, LeNat(s));
      assert s == [s[0]] + s[1..];
    }
  }

  // ----- single bytes -----

  /** Byte j of n, counted from the lowest. */
  function ByteAt(n: nat, j: nat): nat {
    n / Pow2(8 * j) % 256
  }

  /** s holds the bytes of n from the lowest up. */
  predicate HoldsBytes(s: seq<byte>, n: nat) {
    forall j: nat | j < |s| :: s[j] as nat == ByteAt(n, j)
  }

  lemma {:induction false} LeBytesAt(n: nat, len: nat, j: nat)
    requires j < len
    ensures LeBytes(n, len)[j] as nat == ByteAt(n, j)
  {
    if j == 0 {
      assert Pow2(8 * j) == 1;
    } else {
      LeBytesAt(n / 256, len - 1, j - 1);
      BytePower(j - 1);
      DivideTwice(n, 256, Pow2(8 * (j - 1)));
      assert LeBytes(n, len)[j] == LeBytes(n / 256, len - 1)[j - 1];
    }
  }

  lemma LeBytesHold(n: nat, len: nat)
    ensures HoldsBytes(LeBytes(n, len), n)
  {
    forall j: nat | j < len ensures LeBytes(n, len)[j] as nat == ByteAt(n, j) {
      LeBytesAt(n, len, j);
    }
  }

  /** A byte string holds its value. */
  lemma ValueHolds(s: seq<byte>)
    ensures HoldsBytes(s, LeNat(s))
  {
    LeNatBytes(s);
    LeBytesHold(LeNat(s), |s|);
  }

  /** Writing a number that is too large drops its high part. */
  lemma {:induction false} LeBytesTruncate(n: nat, len: nat)
    ensures LeNat(LeBytes(n, len)) == n % Pow2(8 * len)
  {
    if len > 0 {
      LeBytesTruncate(n / 256, len - 1);
      BytePower(len - 1);
      assert LeBytes(n, len)[1..] == LeBytes(n / 256, len - 1);
      LowPart(n, Pow2(8 * (len - 1)));
    } else {
      assert Pow2(8 * len) == 1;
    }
  }

  lemma LowPart(n: nat, p: nat)
    requires p > 0
    ensures n % 256 + 256 * (n / 256 % p) == n % (256 * p)
  {
    var q := n / 256;
    DivisionLaw(n, 256);
    DivisionLaw(q, p);
    assert n == 256 * p * (q / p) + (256 * (q % p) + n % 256);
    QuotientUnique(256 * p, q / p, 256 * (q % p) + n % 256, n);
  }
}
