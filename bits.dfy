/** The bit-counting primitive `parse_temperature` relies on. */
module Bits {
  /** `u64::trailing_zeros`: the number of zero bits below the lowest set
      bit, 64 for zero. `x & -x` keeps only the lowest set bit, and the six
      masks read its position off bit by bit. */
  function TrailingZeros(x: bv64): bv64
  {
    if x == 0 then 64 else BitIndex(x & (0 - x))
  }

  /** The index of the one set bit of a power of two, read off by six masks. */
  function BitIndex(low: bv64): bv64
  {
    (if low & 0xFFFF_FFFF_0000_0000 != 0 then 32 else 0)
    + (if low & 0xFFFF_0000_FFFF_0000 != 0 then 16 else 0)
    + (if low & 0xFF00_FF00_FF00_FF00 != 0 then 8 else 0)
    + (if low & 0xF0F0_F0F0_F0F0_F0F0 != 0 then 4 else 0)
    + (if low & 0xCCCC_CCCC_CCCC_CCCC != 0 then 2 else 0)
    + (if low & 0xAAAA_AAAA_AAAA_AAAA != 0 then 1 else 0)
  }

  /** For a non-zero word the count is below 64 and is the index of its
      lowest set bit. */
  lemma TrailingZerosLowestBit(x: bv64)
    requires x != 0
    ensures TrailingZeros(x) < 64
    ensures x & (0 - x) == 1 << TrailingZeros(x)
  {
    LowestBitAlone(x);
    PowerIndex(x & (0 - x));
  }

  /** `x & -x` has exactly one bit set. */
  lemma LowestBitAlone(x: bv64)
    requires x != 0
    ensures x & (0 - x) != 0 && (x & (0 - x)) & ((x & (0 - x)) - 1) == 0
  {
  }

  lemma PowerIndex(p: bv64)
    requires p != 0 && p & (p - 1) == 0
    ensures BitIndex(p) < 64 && p == 1 << BitIndex(p)
  {
    if p & 0xFFFF_FFFF_0000_0000 != 0 {
      PowerIndexHigh(p);
    } else {
      PowerIndexLow(p);
    }
  }

  lemma PowerIndexHigh(p: bv64)
    requires p & (p - 1) == 0 && p & 0xFFFF_FFFF_0000_0000 != 0
    ensures BitIndex(p) < 64 && p == 1 << BitIndex(p)
  {
  }

  lemma PowerIndexLow(p: bv64)
    requires p != 0 && p & (p - 1) == 0 && p & 0xFFFF_FFFF_0000_0000 == 0
    ensures BitIndex(p) < 64 && p == 1 << BitIndex(p)
  {
  }
}
