/** Durations as the timer stores them: unsigned 32-bit integers. */
module Units {

  /** The largest value of a Rust `u32`. */
  const U32_MAX: nat := 0xFFFF_FFFF

  /** A duration that fits in a `u32`; assigning to a variable of this type checks for overflow. */
  type U32 = x: nat | x <= U32_MAX

  /** `u32::saturating_sub`: the difference, clamped at zero instead of wrapping. */
  function SatSub(a: nat, b: nat): nat {
    if a >= b then a - b else 0
  }
}
