/** Bytes as the C code sees them: unsigned octets, and 32-bit integers stored in
    little-endian order, the byte order of the ESP32 family. */
module Bytes {
  type Byte = b: int | 0 <= b < 256

  const U32_RANGE := 0x1_0000_0000
  const I32_MAX := 0x7fff_ffff

  /** The value of a run of bytes, least significant first. */
  function Little(s: seq<Byte>): nat {
    if s == [] then 0
    else
      var low: int := s[0];
      low + 256 * Little(s[1..])
  }

  /** The four bytes that a store of the unsigned 32-bit value `n` leaves in memory. */
  function EncodeU32(n: nat): (s: seq<Byte>)
    requires n < U32_RANGE
    ensures |s| == 4
  {
    [n % 256, n / 256 % 256, n / 65536 % 256, n / 16777216]
  }

  /** The unsigned 32-bit value that a load from offset `at` yields. */
  function LoadU32(s: seq<Byte>, at: nat): nat
    requires at + 4 <= |s|
  {
    Little(s[at..at + 4])
  }

  /** The same four bytes taken as a signed int (two's complement). */
  function AsI32(n: nat): (i: int)
    ensures n < U32_RANGE ==> -I32_MAX - 1 <= i <= I32_MAX && (i == n || i == n - U32_RANGE)
  {
    if n <= I32_MAX then n else n - U32_RANGE
  }

  lemma LittleUnfolded(s: seq<Byte>)
    requires |s| == 4
    ensures var b0: int, b1: int, b2: int, b3: int := s[0], s[1], s[2], s[3];
            Little(s) == b0 + 256 * b1 + 65536 * b2 + 16777216 * b3
    ensures Little(s) < U32_RANGE
  {
    assert s[1..][1..] == s[2..] && s[2..][1..] == s[3..] && s[3..][1..] == [];
    assert Little(s[3..]) == s[3];
    assert Little(s[2..]) == s[2] as int + 256 * Little(s[3..]);
    assert Little(s[1..]) == s[1] as int + 256 * Little(s[2..]);
  }

  /** A store followed by a load gives the value back. */
  lemma StoreThenLoad(n: nat)
    requires n < U32_RANGE
    ensures Little(EncodeU32(n)) == n
  {
    var q1, q2, q3 := n / 256, n / 65536, n / 16777216;
    assert q2 == q1 / 256 && q3 == q2 / 256;
    LittleUnfolded(EncodeU32(n));
  }

  /** `s` with the bytes of `data` stored from offset `at` on. */
  function Put(s: seq<Byte>, at: nat, data: seq<Byte>): (r: seq<Byte>)
    requires at + |data| <= |s|
    ensures |r| == |s|
    ensures r[at..at + |data|] == data
    ensures forall i :: 0 <= i < at || at + |data| <= i < |s| ==> r[i] == s[i]
  {
    s[..at] + data + s[at + |data|..]
  }

  lemma SameSlice(a: seq<Byte>, b: seq<Byte>, lo: nat, hi: nat)
    requires lo <= hi <= |a| == |b|
    requires forall i :: lo <= i < hi ==> a[i] == b[i]
    ensures a[lo..hi] == b[lo..hi]
  {
  }
}
