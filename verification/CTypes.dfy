/** The two readings of a C char, the ranges of the wider unsigned types, and what memset and the
    smaller of two sizes give. */
module CTypes {

  type byte = n: nat | n < 256

  type schar = v: int | -128 <= v < 128

  /** The low octet of a number, in two's complement. */
  function LowOctet(v: int): byte
  {
    v % 256
  }

  const TWO32: nat := 0x1_0000_0000
  const TWO64: nat := 0x1_0000_0000_0000_0000

  function Min(a: nat, b: nat): nat
  {
    if a < b then a else b
  }

  function ZeroBytes(n: nat): (z: seq<byte>)
    ensures |z| == n
  {
    seq(n, _ => 0)
  }
}
