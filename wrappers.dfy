/** Failure-compatible wrappers shared by the model's modules. */
module Wrappers {

  /** Rust's Option: an index that may be absent, a slot that may be empty. */
  datatype Option<+T> = None | Some(value: T)

  /** A success value or an error value, for outcomes the source reports by panicking. */
  datatype Result<+R, +E> = Success(value: R) | Failure(error: E)
}
