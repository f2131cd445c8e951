/** The two failure datatypes shared by every module of the project. */
module Wrappers {

  /** A nullable column, or Rust's Option. */
  datatype Option<+T> = None | Some(value: T)

  /** Rust's Result. */
  datatype Result<+T, +E> = Ok(value: T) | Err(error: E)
}
