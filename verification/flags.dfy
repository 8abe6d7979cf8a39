/** Bit patterns of the C++ `int` that Qt's QFlags wraps, and the tests the
    device code applies to them. */
module Flags {

  /** The 32-bit pattern stored by a QFlags value. */
  type Flags = bv32

  /** True when `mask` has exactly one bit set: an enumerator declared as `1 << k`. */
  predicate SingleBit(mask: Flags) {
    mask != 0 && mask & (mask - 1) == 0
  }

  /** Every bit of `mask` is set in `f` (QFlags::testFlag for a non-zero mask). */
  predicate Has(f: Flags, mask: Flags) {
    f & mask == mask
  }
}
