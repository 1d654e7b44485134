/** Bytes as both crates see them: `u8` values read from an input stream. */
module Bytes {

  /** An unsigned 8-bit value (Rust's `u8`). */
  type Byte = b: int | 0 <= b < 256

  datatype Option<+T> = None | Some(value: T)
}
