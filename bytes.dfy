/** Bytes and the 4-byte little-endian integer fields of the binary file. */
module Bytes {

  type byte = x: int | 0 <= x < 256

  /** The values of a `uint32_t`. */
  type u32 = x: int | 0 <= x < 0x1_0000_0000

  function Pow256(n: nat): (p: nat)
    ensures p >= 1
  {
    if n == 0 then 1 else 256 * Pow256(n - 1)
  }

  lemma Pow256Four()
    ensures Pow256(4) == 0x1_0000_0000
  {
  }

  /** The low `n` bytes of `x`, least significant first. Writing a wider
      value through a narrower field keeps only its low bytes, the effect of
      a `static_cast` to an unsigned type. */
  function LittleEndian(x: nat, n: nat): (s: seq<byte>)
    ensures |s| == n
  {
    if n == 0 then [] else [x % 256] + LittleEndian(x / 256, n - 1)
  }

  /** The unsigned value of a little-endian byte sequence. */
  function FromLittleEndian(s: seq<byte>): (x: nat)
    ensures x < Pow256(|s|)
  {
    if s == [] then 0
    else
      var rest := FromLittleEndian(s[1..]);
      assert 256 * rest <= 256 * (Pow256(|s| - 1) - 1);
      s[0] + 256 * rest
  }

  lemma {:induction false} LittleEndianRoundTrip(x: nat, n: nat)
    requires x < Pow256(n)
    ensures FromLittleEndian(LittleEndian(x, n)) == x
  {
    if n > 0 {
      var s := LittleEndian(x, n);
      assert s[1..] == LittleEndian(x / 256, n - 1);
      assert x / 256 < Pow256(n - 1);
      LittleEndianRoundTrip(x / 256, n - 1);
    }
  }

  /** A `uint32_t` as the four bytes the file holds. */
  function U32Bytes(x: nat): (s: seq<byte>)
    ensures |s| == 4
  {
    LittleEndian(x, 4)
  }

  /** The `uint32_t` held in the first four bytes of `s`. */
  function ReadU32(s: seq<byte>): (x: u32)
    requires |s| >= 4
    ensures x == FromLittleEndian(s[..4])
  {
    Pow256Four();
    FromLittleEndian(s[..4])
  }

  lemma U32RoundTrip(x: u32, rest: seq<byte>)
    ensures ReadU32(U32Bytes(x) + rest) == x
  {
    Pow256Four();
    assert (U32Bytes(x) + rest)[..4] == U32Bytes(x);
    LittleEndianRoundTrip(x, 4);
  }

  /** Bytes read as a number and written back at the same width are the
      bytes themselves. */
  lemma {:induction false} FromLittleEndianInverse(s: seq<byte>)
    ensures LittleEndian(FromLittleEndian(s), |s|) == s
  {
    if s != [] {
      var rest := FromLittleEndian(s[1..]);
      var x := s[0] + 256 * rest;
      assert x % 256 == s[0] && x / 256 == rest;
      FromLittleEndianInverse(s[1..]);
    }
  }

  /** The four bytes holding a `uint32_t` determine it. */
  lemma ReadU32Bytes(s: seq<byte>)
    requires |s| >= 4
    ensures s[..4] == U32Bytes(ReadU32(s))
  {
    FromLittleEndianInverse(s[..4]);
  }

  /** The four bytes of a `uint32_t`, spelled out. */
  lemma U32BytesOf(x: nat)
    ensures U32Bytes(x) == [x % 256, x / 256 % 256, x / 256 / 256 % 256, x / 256 / 256 / 256 % 256]
  {
    var s := LittleEndian(x, 4);
    assert s[1..] == LittleEndian(x / 256, 3);
    assert s[2..] == LittleEndian(x / 256 / 256, 2);
    assert s[3..] == LittleEndian(x / 256 / 256 / 256, 1);
  }
}
