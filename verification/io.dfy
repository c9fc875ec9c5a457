/**
 The vocabulary of `std::io` that the test helpers use: bytes, the single
 error kind the mocks produce, and `std::io::Result`.
 */
module Io {

  /** An octet, Rust's `u8`. */
  type Byte = x: int | 0 <= x < 256

  /** The `std::io::ErrorKind`s that occur in the model. The failing mock
      only ever builds `Error::from(ErrorKind::Other)`. */
  datatype ErrorKind = Other

  /** `std::io::Result<T>`: a value, or an error of some kind. */
  datatype IoResult<+T> = Ok(value: T) | Err(error: ErrorKind)

  /** Absence of a value, used where a call sequence would panic. */
  datatype Option<+T> = None | Some(value: T)
}
