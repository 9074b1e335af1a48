// Octets and the big-endian integer fields that every wire format in the
// repository uses.
module Bytes {

  type byte = x: int | 0 <= x < 256

  const U16: nat := 0x1_0000
  const U32: nat := 0x1_0000_0000

  type u16 = x: int | 0 <= x < 0x1_0000
  type u32 = x: int | 0 <= x < 0x1_0000_0000

  // shared/ccsds/src/profile.c: write_u16_be, read_u16_be
  function WriteU16(n: nat): (s: seq<byte>)
    requires n < U16
    ensures |s| == 2
  {
    [n / 256, n % 256]
  }

  function ReadU16(s: seq<byte>): (n: nat)
    requires |s| == 2
    ensures n < U16
  {
    (s[0] as int) * 256 + s[1]
  }

  // shared/ccsds/src/profile.c: write_u32_be, read_u32_be
  function WriteU32(n: nat): (s: seq<byte>)
    requires n < U32
    ensures |s| == 4
  {
    [n / 0x100_0000, n / U16 % 256, n / 256 % 256, n % 256]
  }

  function ReadU32(s: seq<byte>): (n: nat)
    requires |s| == 4
    ensures n < U32
  {
    (s[0] as int) * 0x100_0000 + (s[1] as int) * U16 + (s[2] as int) * 256 + s[3]
  }

  lemma U16RoundTrip(n: nat)
    requires n < U16
    ensures ReadU16(WriteU16(n)) == n
  {
  }

  lemma U16Canonical(s: seq<byte>)
    requires |s| == 2
    ensures WriteU16(ReadU16(s)) == s
  {
  }

  lemma U32RoundTrip(n: nat)
    requires n < U32
    ensures ReadU32(WriteU32(n)) == n
  {
    var a, b, c := n / 256, n / U16, n / 0x100_0000;
    assert a / 256 == b && b / 256 == c;
    assert n == 256 * a + n % 256 && a == 256 * b + a % 256 && b == 256 * c + b % 256;
  }

  lemma U32Canonical(s: seq<byte>)
    requires |s| == 4
    ensures WriteU32(ReadU32(s)) == s
  {
    var n, a: int, b: int, c: int, d: int := ReadU32(s), s[0], s[1], s[2], s[3];
    assert n / 256 == a * U16 + b * 256 + c && n % 256 == d;
    assert n / U16 == a * 256 + b;
    assert n / 0x100_0000 == a;
  }

  // Different octets read as different values.
  lemma U32ReadInjective(s: seq<byte>, t: seq<byte>)
    requires |s| == |t| == 4 && ReadU32(s) == ReadU32(t)
    ensures s == t
  {
    U32Canonical(s);
    U32Canonical(t);
  }

  // Storing s into a from offset `at`: the source's memcpy.
  method Copy(a: array<byte>, at: nat, s: seq<byte>)
    requires at + |s| <= a.Length
    modifies a
    ensures a[..at] == old(a[..at]) && a[at..at + |s|] == s && a[at + |s|..] == old(a[at + |s|..])
    ensures a[..at + |s|] == old(a[..at]) + s
  {
    forall i | 0 <= i < |s| {
      a[at + i] := s[i];
    }
  }
}
