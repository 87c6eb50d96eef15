/** Failure-carrying values used throughout the model, and the byte type. */
module Wrappers {

  /** An optional value (Rust's `Option`). */
  datatype Option<T> = None | Some(value: T)

  /** A value or an error (Rust's `Result`). */
  datatype Result<T, E> = Ok(value: T) | Err(error: E)

  /** An unsigned 8-bit value (Rust's `u8`). */
  type byte = x: int | 0 <= x < 256
}
