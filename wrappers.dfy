/** Option and Result types shared by every module of the model. */
module Wrappers {
  datatype Option<T> = None | Some(value: T)

  datatype Result<T, E> = Ok(value: T) | Err(error: E)

  /** Upper bound of a 64-bit `usize`. */
  const USIZE_MAX: int := 0xFFFF_FFFF_FFFF_FFFF

  /** An unsigned byte, as Rust's `u8`. */
  newtype u8 = x: int | 0 <= x < 256

}
