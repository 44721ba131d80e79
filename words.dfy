/** Fixed-width machine integers of the Rust source, as bounded naturals. */
module Words {

  const MAX_U32: nat := 0xFFFF_FFFF
  const MAX_U64: nat := 0xFFFF_FFFF_FFFF_FFFF
  /** Number of distinct `u32` values: an `as u32` cast keeps the value modulo this. */
  const U32_MODULUS: nat := 0x1_0000_0000
  /** Number of distinct `usize` values on a 64-bit target. */
  const USIZE_MODULUS: nat := 0x1_0000_0000_0000_0000

  type U32 = x: nat | x <= MAX_U32
  type U64 = x: nat | x <= MAX_U64
  type Usize = x: nat | x < USIZE_MODULUS

  /** `n as u32`: keeps the low 32 bits. */
  function AsU32(n: nat): (r: U32)
    ensures n <= MAX_U32 ==> r == n
    ensures (r - n) % U32_MODULUS == 0
  {
    n % U32_MODULUS
  }

  /** `c.wrapping_add(1)` on a 64-bit `usize`. */
  function WrappingInc(c: Usize): (r: Usize)
    ensures c + 1 < USIZE_MODULUS ==> r == c + 1
    ensures c + 1 == USIZE_MODULUS ==> r == 0
  {
    (c + 1) % USIZE_MODULUS
  }
}
