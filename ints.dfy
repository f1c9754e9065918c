/**
 * The fixed-width integer types of the Rust code, as ranges of mathematical
 * integers. Arithmetic that would overflow panics in a debug build; the
 * operations that do such arithmetic require that it does not overflow.
 */
module Ints {
  const I32_MIN: int := -0x8000_0000
  const I32_MAX: int := 0x7fff_ffff
  const U32_MAX: int := 0xffff_ffff
  const U32_MODULUS: int := 0x1_0000_0000

  type I32 = x: int | I32_MIN <= x <= I32_MAX
  type U32 = x: int | 0 <= x <= U32_MAX
  type U16 = x: int | 0 <= x < 0x1_0000
  type byte = x: int | 0 <= x < 0x100

  /** An `f32`, carried as its bit pattern: the model never computes with floats. */
  type F32 = bv32

  predicate IsI32(x: int) { I32_MIN <= x <= I32_MAX }

  /**
   * Rust's `u as i32` for a `u32`: the bit pattern is kept and read back as
   * two's complement, so values of 2^31 and above come out negative.
   */
  function AsI32(u: U32): (r: I32)
    ensures (u - r) % U32_MODULUS == 0
    ensures u <= I32_MAX ==> r == u
    ensures u > I32_MAX ==> r < 0
  {
    if u <= I32_MAX then u else u - U32_MODULUS
  }
}
