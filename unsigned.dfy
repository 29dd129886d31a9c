/** The machine integer width the renderer computes in. */
module Unsigned {
  /** 2^32: one more than the largest Rust `u32`. */
  const U32_LIMIT: nat := 0x1_0000_0000

  /** A Rust `u32`, as an unbounded natural below 2^32. */
  type U32 = x: nat | x < U32_LIMIT
}
