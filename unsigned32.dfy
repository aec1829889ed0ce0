/** The width of `unsigned`, `uint32_t` and `unsigned long` on the 32-bit
    targets: arithmetic on them wraps modulo 2^32. */
module Unsigned32 {
  const Modulus: int := 0x1_0000_0000
}
