/** Sizes of pages and numbers. */
module Sizes {
  const PAGE_SIZE := 16384
  const MAX_SLOTS := 512        // bits of a slot bitmap

  const TWO31 := 0x8000_0000
  const TWO32 := 0x1_0000_0000
  const TWO63 := 0x8000_0000_0000_0000
  const TWO64 := 0x1_0000_0000_0000_0000
}
