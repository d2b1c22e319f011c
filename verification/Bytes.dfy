/** Bytes, fixed-width integers and C strings. */
module Bytes {

  type byte = x: int | 0 <= x < 0x100
  type u16 = x: int | 0 <= x < 0x1_0000
  type u32 = x: int | 0 <= x < 0x1_0000_0000
  type u64 = x: int | 0 <= x < 0x1_0000_0000_0000_0000

  type bytes = seq<byte>

  /** A C string without its terminating NUL. */
  type CString = s: seq<byte> | 0 !in s

  lemma ConcatAssociative(x: bytes, y: bytes, z: bytes)
    ensures x + (y + z) == (x + y) + z
  {
  }

  function Pow256(n: nat): (p: nat)
    ensures p > 0
  {
    if n == 0 then 1 else 256 * Pow256(n - 1)
  }

  /** The low `n` bytes of `x`, most significant first: what `htonl` and
      `htobe64` leave in memory on every host. */
  function BigEndian(n: nat, x: nat): (b: bytes)
    ensures |b| == n
  {
    if n == 0 then [] else BigEndian(n - 1, x / 256) + [x % 256]
  }

  function FromBigEndian(b: bytes): nat {
    if b == [] then 0 else FromBigEndian(b[..|b| - 1]) * 256 + b[|b| - 1]
  }

  lemma {:induction false} FromBigEndianBound(b: bytes)
    ensures FromBigEndian(b) < Pow256(|b|)
  {
    if b != [] {
      FromBigEndianBound(b[..|b| - 1]);
    }
  }

  lemma {:induction false} BigEndianRoundTrip(n: nat, x: nat)
    requires x < Pow256(n)
    ensures FromBigEndian(BigEndian(n, x)) == x
  {
    if n > 0 {
      var b := BigEndian(n, x);
      BigEndianRoundTrip(n - 1, x / 256);
      assert b[..n - 1] == BigEndian(n - 1, x / 256);
    }
  }

  lemma PowValues()
    ensures Pow256(4) == 0x1_0000_0000
    ensures Pow256(8) == 0x1_0000_0000_0000_0000
  {
    assert Pow256(2) == 0x1_0000;
    assert Pow256(4) == 256 * (256 * Pow256(2));
    assert Pow256(6) == 256 * (256 * Pow256(4));
    assert Pow256(8) == 256 * (256 * Pow256(6));
  }

  function BE32(x: u32): (b: bytes)
    ensures |b| == 4
  {
    BigEndian(4, x)
  }

  function BE64(x: u64): (b: bytes)
    ensures |b| == 8
  {
    BigEndian(8, x)
  }

  /** `ntohl(mnl_attr_get_u32(attr))`: the first four bytes of a payload. */
  function GetBE32(b: bytes): (x: u32)
    requires |b| >= 4
  {
    FromBigEndianBound(b[..4]);
    PowValues();
    FromBigEndian(b[..4])
  }

  function GetBE64(b: bytes): (x: u64)
    requires |b| >= 8
  {
    FromBigEndianBound(b[..8]);
    PowValues();
    FromBigEndian(b[..8])
  }

  lemma BigEndianStep(n: nat, x: nat, y: nat)
    requires y == x / 0x100
    ensures BigEndian(n + 1, x) == BigEndian(n, y) + [x % 0x100]
  {
  }

  /** The four bytes, from the most significant one. */
  lemma BE32Bytes(x: u32)
    ensures BE32(x) == [x / 0x100_0000, x / 0x1_0000 % 0x100, x / 0x100 % 0x100, x % 0x100]
  {
    hide BigEndian;
    BigEndianStep(3, x, x / 0x100);
    BigEndianStep(2, x / 0x100, x / 0x1_0000);
    BigEndianStep(1, x / 0x1_0000, x / 0x100_0000);
    BigEndianStep(0, x / 0x100_0000, 0);
  }

  /** A 64-bit number is its high half, then its low half. */
  lemma BE64Halves(x: u64)
    ensures BE64(x) == BE32(x / 0x1_0000_0000) + BE32(x % 0x1_0000_0000)
  {
    hide BigEndian;
    var hi, lo := x / 0x1_0000_0000, x % 0x1_0000_0000;
    LowHalf(hi, lo, x);
    BE32Bytes(lo);
    BigEndianStep(7, x, x / 0x100);
    BigEndianStep(6, x / 0x100, x / 0x1_0000);
    BigEndianStep(5, x / 0x1_0000, x / 0x100_0000);
    BigEndianStep(4, x / 0x100_0000, hi);
  }

  lemma LowHalf(hi: nat, lo: nat, x: nat)
    requires x == hi * 0x1_0000_0000 + lo && lo < 0x1_0000_0000
    ensures x % 0x100 == lo % 0x100 && x / 0x100 % 0x100 == lo / 0x100 % 0x100
    ensures x / 0x1_0000 % 0x100 == lo / 0x1_0000 % 0x100 && x / 0x100_0000 % 0x100 == lo / 0x100_0000
    ensures x / 0x100_0000 / 0x100 == hi
  {
    var x1 := OneDigit(hi * 0x100_0000, lo, x);
    var x2 := OneDigit(hi * 0x1_0000, lo / 0x100, x1);
    var x3 := OneDigit(hi * 0x100, lo / 0x1_0000, x2);
    var x4 := OneDigit(hi, lo / 0x100_0000, x3);
    TwoDigits(x);
    TwoDigits(lo);
  }

  lemma OneDigit(a: nat, lo: nat, x: nat) returns (rest: nat)
    requires x == 0x100 * a + lo
    ensures rest == x / 0x100 == a + lo / 0x100 && x % 0x100 == lo % 0x100
  {
    rest := x / 0x100;
  }

  lemma TwoDigits(x: nat)
    ensures x / 0x100 / 0x100 == x / 0x1_0000 && x / 0x1_0000 / 0x100 == x / 0x100_0000
  {
  }

  lemma BE32RoundTrip(x: u32)
    ensures GetBE32(BE32(x)) == x
  {
    PowValues();
    BigEndianRoundTrip(4, x);
    assert BE32(x)[..4] == BE32(x);
  }

  lemma BE64RoundTrip(x: u64)
    ensures GetBE64(BE64(x)) == x
  {
    PowValues();
    BigEndianRoundTrip(8, x);
    assert BE64(x)[..8] == BE64(x);
  }

  /** A 16-bit and a 32-bit value in host order (little-endian host). */
  function LE16(x: u16): (b: bytes)
    ensures |b| == 2
  {
    [x % 256, x / 256]
  }

  function GetLE16(b: bytes): (x: u16)
    requires |b| >= 2
  {
    var lo: int, hi: int := b[0], b[1];
    256 * hi + lo
  }

  function LE32(x: u32): (b: bytes)
    ensures |b| == 4
  {
    LE16(x % 0x1_0000) + LE16(x / 0x1_0000)
  }

  function GetLE32(b: bytes): u32
    requires |b| >= 4
  {
    var lo: int, hi: int := GetLE16(b), GetLE16(b[2..]);
    lo + 0x1_0000 * hi
  }

  /** The bytes of a host-order number, from the least significant one. */
  lemma LE32Bytes(x: u32)
    ensures LE32(x) == [x % 0x100, x / 0x100 % 0x100, x / 0x1_0000 % 0x100, x / 0x100_0000]
  {
    LowWord(x);
    assert LE32(x) == [x % 0x1_0000 % 0x100, x % 0x1_0000 / 0x100, x / 0x1_0000 % 0x100, x / 0x1_0000 / 0x100];
  }

  lemma LowWord(x: nat)
    ensures x % 0x1_0000 % 0x100 == x % 0x100 && x % 0x1_0000 / 0x100 == x / 0x100 % 0x100
    ensures x / 0x1_0000 / 0x100 == x / 0x100_0000
  {
    var hi, lo := x / 0x1_0000, x % 0x1_0000;
    assert x == hi * 0x1_0000 + lo;
    assert x / 0x100 == hi * 0x100 + lo / 0x100;
  }

  lemma LE32RoundTrip(x: u32)
    ensures GetLE32(LE32(x)) == x
  {
    assert LE32(x)[2..] == LE16(x / 0x1_0000);
  }

  lemma LE16RoundTrip(x: u16)
    ensures GetLE16(LE16(x)) == x
    ensures LE16(x) == [x % 0x100, x / 0x100]
  {
  }

  function Zeros(n: nat): (z: bytes)
    ensures |z| == n
  {
    seq(n, _ => 0)
  }

  /** The bytes a C string occupies, and the C string found at an address. */
  function Strz(s: CString): bytes {
    s + [0]
  }

  function CStr(b: bytes): (s: CString)
    ensures |s| <= |b|
  {
    if b == [] || b[0] == 0 then [] else [b[0]] + CStr(b[1..])
  }

  /** A C string ends at the first NUL, whatever follows. */
  lemma {:induction false} CStrStops(s: CString, rest: bytes)
    ensures CStr(s + [0] + rest) == s
  {
    if s != [] {
      CStrStops(s[1..], rest);
      assert (s + [0] + rest)[1..] == s[1..] + [0] + rest;
    }
  }

  lemma {:induction false} StrzRoundTrip(s: CString)
    ensures CStr(Strz(s)) == s
  {
    if s != [] {
      StrzRoundTrip(s[1..]);
      assert Strz(s)[1..] == Strz(s[1..]);
    }
  }
}
