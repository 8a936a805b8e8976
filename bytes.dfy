/** Bytes: the unit every string and hash in the model is made of. */
module Bytes {
  /** `u8`. */
  type byte = bv8

  /** `&[u8]` and `&str` viewed as their UTF-8 bytes. */
  type Bytes = seq<byte>

  /** `u32::MAX`. */
  const U32Max: nat := 0xFFFF_FFFF

  /** `u64::MAX`. */
  const U64Max: nat := 0xFFFF_FFFF_FFFF_FFFF

  /**
   * `str::is_char_boundary(i)` for valid UTF-8: either end of the string, or
   * a byte that does not continue a multi-byte character (`10xxxxxx`).
   */
  predicate CharBoundary(s: Bytes, i: nat)
  {
    i == 0 || i == |s| || (i < |s| && s[i] & 0xC0 != 0x80)
  }
}
