/**
 * Fixed-width little-endian integers over byte buffers, and the int32 view
 * of a 32-bit word, as Go's `encoding/binary` reads them.
 */
module Bytes {

  newtype byte = x: int | 0 <= x < 256

  /** 256^n: the number of distinct values of an n-byte unsigned integer. */
  function Pow256(n: nat): (r: nat)
    ensures r >= 1
  {
    if n == 0 then 1 else 256 * Pow256(n - 1)
  }

  /** The unsigned value of `s` read little-endian: s[0] is the least significant byte. */
  function LeValue(s: seq<byte>): (r: nat)
    ensures r < Pow256(|s|)
  {
    if s == [] then 0 else s[0] as nat + 256 * LeValue(s[1..])
  }

  /** The n-byte little-endian encoding of x (higher bytes of x are dropped). */
  function LeBytes(x: nat, n: nat): (s: seq<byte>)
    ensures |s| == n
  {
    if n == 0 then [] else [(x % 256) as byte] + LeBytes(x / 256, n - 1)
  }

  /** Encoding a value that fits in n bytes and reading it back gives the value. */
  lemma {:induction false} LeRoundTrip(x: nat, n: nat)
    requires x < Pow256(n)
    ensures LeValue(LeBytes(x, n)) == x
  {
    if n > 0 {
      var s := LeBytes(x, n);
      var q, m := x / 256, x % 256;
      assert x == 256 * q + m;
      assert s[1..] == LeBytes(q, n - 1);
      LeRoundTrip(q, n - 1);
      assert s[0] as nat == m;
    }
  }

  /** Go's uint16 and uint32, held as naturals. */
  type U16 = x: nat | x < 0x1_0000
  type U32 = x: nat | x < 0x1_0000_0000

  const Two31: int := 0x8000_0000
  const Two32: nat := 0x1_0000_0000
  const Two64: nat := 0x1_0000_0000_0000_0000

  predicate IsInt32(x: int) {
    -Two31 <= x < Two31
  }

  /** Two's-complement reinterpretation of an unsigned 32-bit word as int32. */
  function AsInt32(u: nat): (r: int)
    requires u < Two32
    ensures IsInt32(r)
    ensures r >= 0 <==> u < Two31
    ensures (r - u) % Two32 == 0
  {
    if u < Two31 then u else u - Two32
  }

  /** The unsigned 32-bit word holding the int32 value s. */
  function AsUint32(s: int): (u: nat)
    requires IsInt32(s)
    ensures u < Two32
    ensures AsInt32(u) == s
  {
    if s < 0 then s + Two32 else s
  }
}
