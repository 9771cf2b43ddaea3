/**
 Machine integers of the visualisation code, written out over Dafny's
 unbounded naturals: the `u32` values the automaton reports and the `as u8`
 casts that keep only the low eight bits of an unsigned value.
 */
module Numeric {

  const U8_MODULUS: nat := 0x100
  const U32_MODULUS: nat := 0x1_0000_0000

  /** An unsigned 32-bit value. */
  type u32 = n: nat | n < U32_MODULUS

  /** Rust's `as u8` on an unsigned integer: the value modulo 256. */
  function AsU8(n: nat): (b: nat)
    ensures b < U8_MODULUS
    ensures n < U8_MODULUS ==> b == n
    ensures (n - b) % U8_MODULUS == 0
  {
    n % U8_MODULUS
  }

  /** `as u8` only sees the low byte: adding a multiple of 256 changes nothing. */
  lemma AsU8Periodic(n: nat, k: nat)
    ensures AsU8(n + k * U8_MODULUS) == AsU8(n)
  {
  }

  /** Unsigned 32-bit multiplication with overflow checking: `None` is the panic. */
  function CheckedMulU32(a: u32, b: u32): Option<u32>
  {
    if a * b < U32_MODULUS then Some(a * b) else None
  }

  datatype Option<+T> = None | Some(value: T)
}
