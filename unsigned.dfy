/** C++ `unsigned int` arithmetic: 32-bit values whose sums and differences wrap around. */
module Unsigned {

  /** The number of distinct `unsigned int` values, 2^32. */
  const MODULUS: int := 0x1_0000_0000

  /** An `unsigned int`. */
  type u32 = x: int | 0 <= x < MODULUS

  /** `a - b` on `unsigned int`: the one 32-bit value congruent to the mathematical difference. */
  function Sub(a: u32, b: u32): (r: u32)
    ensures (r - (a - b)) % MODULUS == 0
  {
    if b <= a then a - b else a - b + MODULUS
  }

  /** `a + b` on `unsigned int`: the one 32-bit value congruent to the mathematical sum. */
  function Add(a: u32, b: u32): (r: u32)
    ensures (r - (a + b)) % MODULUS == 0
  {
    if a + b < MODULUS then a + b else a + b - MODULUS
  }

  /** `std::min(a, b)`: returns `b` when `b < a`, otherwise `a`. */
  function Min(a: u32, b: u32): (r: u32)
    ensures r <= a && r <= b
    ensures r == a || r == b
  {
    if b < a then b else a
  }
}
