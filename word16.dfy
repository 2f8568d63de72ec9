/**
 * Swift's `UInt16` arithmetic. Swift's `+` and `*` on fixed-width integers
 * do not wrap: an overflowing result traps. The model therefore gives every
 * operation a precondition that the exact result fits, and callers that can
 * overflow test `AddFits` / `MulFits` first and model the trap themselves.
 */
module Word16 {

  /** The largest `UInt16` value. */
  const MAX: int := 0xFFFF

  /** The number of `UInt16` values. */
  const MODULUS: int := 0x1_0000

  newtype u16 = x: int | 0 <= x < 0x1_0000

  /** True iff `a + b` is representable, i.e. Swift's `a + b` does not trap. */
  predicate AddFits(a: u16, b: u16)
  {
    a as int + b as int <= MAX
  }

  /** True iff `a * b` is representable, i.e. Swift's `a * b` does not trap. */
  predicate MulFits(a: u16, b: u16)
  {
    a as int * b as int <= MAX
  }

  /** Swift's `a + b` on a path where it does not trap: the exact sum. */
  function Add(a: u16, b: u16): (r: u16)
    requires AddFits(a, b)
  {
    a + b
  }

  /** Swift's `a * b` on a path where it does not trap: the exact product. */
  function Mul(a: u16, b: u16): (r: u16)
    requires MulFits(a, b)
  {
    a * b
  }
}
