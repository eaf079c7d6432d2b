/** Optional values: a null pointer in the lifter becomes `None`. */
module Wrappers {
  datatype Option<+T> = None | Some(value: T)
}

/** The fixed-width unsigned integers the lifter stores. */
module Ints {
  const U32_LIMIT: nat := 0x1_0000_0000
  const U64_MAX: nat := 0xffff_ffff_ffff_ffff

  /** `uint32_t`: source line numbers. */
  type u32 = n: nat | n < 0x1_0000_0000

  /** `uint64_t`: binary addresses. */
  type u64 = n: nat | n <= 0xffff_ffff_ffff_ffff
}
