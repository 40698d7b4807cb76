/**
  Bytes, unsigned 32-bit integers and their little-endian encoding
  (Rust's `u32::to_le_bytes` and `u32::from_le_bytes`).
 */
module Bytes {

  /** An octet, as Rust's `u8`. */
  type Byte = b: int | 0 <= b < 0x100

  const U32_MAX: int := 0xFFFF_FFFF

  /** An unsigned 32-bit integer, as Rust's `u32`. */
  type U32 = x: int | 0 <= x <= U32_MAX

  /** 256 to the power `n`: the number of distinct values of `n` bytes. */
  function Pow256(n: nat): (p: nat)
    ensures p >= 1
  {
    if n == 0 then 1 else 256 * Pow256(n - 1)
  }

  /** The `n` low-order bytes of `x`, least significant first. */
  function LeBytes(x: nat, n: nat): (r: seq<Byte>)
    ensures |r| == n
  {
    if n == 0 then [] else [x % 256] + LeBytes(x / 256, n - 1)
  }

  /** The number whose little-endian encoding is `s`: the sum of `s[i] * 256^i`. */
  function LeValue(s: seq<Byte>): (x: nat)
    ensures x < Pow256(|s|)
  {
    if s == [] then 0 else s[0] + 256 * LeValue(s[1..])
  }

  /** Encoding a number that fits in `n` bytes and decoding it gives it back. */
  lemma {:induction false} LeValueOfLeBytes(x: nat, n: nat)
    requires x < Pow256(n)
    ensures LeValue(LeBytes(x, n)) == x
  {
    if n > 0 {
      assert x / 256 < Pow256(n - 1);
      LeValueOfLeBytes(x / 256, n - 1);
      assert LeBytes(x, n)[1..] == LeBytes(x / 256, n - 1);
    }
  }

  /** Decoding `s` and encoding the result in `|s|` bytes gives `s` back. */
  lemma {:induction false} LeBytesOfLeValue(s: seq<Byte>)
    ensures LeBytes(LeValue(s), |s|) == s
  {
    if s != [] {
      var rest := LeValue(s[1..]);
      assert LeValue(s) == s[0] + 256 * rest;
      assert LeValue(s) % 256 == s[0];
      assert LeValue(s) / 256 == rest;
      LeBytesOfLeValue(s[1..]);
    }
  }

  /** Four bytes hold exactly the values of a `u32`. */
  lemma Pow256Four()
    ensures Pow256(4) == U32_MAX + 1
  {
  }

  /** `u32::to_le_bytes`: the four bytes of `x`, least significant first. */
  function U32ToLeBytes(x: U32): (r: seq<Byte>)
    ensures |r| == 4
  {
    LeBytes(x, 4)
  }

  /** `u32::from_le_bytes`: the `u32` whose little-endian bytes are `b`. */
  function U32FromLeBytes(b: seq<Byte>): (x: U32)
    requires |b| == 4
    ensures U32ToLeBytes(x) == b
  {
    Pow256Four();
    LeBytesOfLeValue(b);
    LeValue(b)
  }

  /** `u32::from_le_bytes` inverts `u32::to_le_bytes`, for every `u32`. */
  lemma U32RoundTrip(x: U32)
    ensures U32FromLeBytes(U32ToLeBytes(x)) == x
  {
    Pow256Four();
    LeValueOfLeBytes(x, 4);
  }
}
