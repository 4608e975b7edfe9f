/** Fixed-width unsigned integers and their saturating operations. */
module Machine {

  const U16_MAX: nat := 0xFFFF
  const U32_MAX: nat := 0xFFFF_FFFF
  const U64_MAX: nat := 0xFFFF_FFFF_FFFF_FFFF
  const USIZE_MAX: nat := U64_MAX

  type u16 = n: nat | n <= U16_MAX
  type u32 = n: nat | n <= U32_MAX
  type u64 = n: nat | n <= U64_MAX
  type usize = n: nat | n <= USIZE_MAX

  /** Addition clamped to the largest value of the type. */
  function SaturatingAdd(a: nat, b: nat, max: nat): nat {
    if a + b <= max then a + b else max
  }

  /** Multiplication clamped to the largest value of the type. */
  function SaturatingMul(a: nat, b: nat, max: nat): nat {
    if a * b <= max then a * b else max
  }

  /** Subtraction clamped to zero. */
  function SaturatingSub(a: nat, b: nat): nat {
    if b <= a then a - b else 0
  }
}
