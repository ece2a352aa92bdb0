/** The fixed-width integers of the Rust core. */
module Primitives {

  /** Rust's `u8`. */
  newtype byte = x: int | 0 <= x < 0x100

  /** Rust's `u64`, the type of `content_length` and of `TempFile::len`. */
  newtype u64 = x: int | 0 <= x < 0x1_0000_0000_0000_0000
}
