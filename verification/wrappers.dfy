/** Failure-carrying result types shared by the modules of this model. */
module Wrappers {

  /** An optional value: `Option<T>` in Rust. */
  datatype Option<+T> = None | Some(value: T)

  /** A value or an error: `Result<T, E>` in Rust. */
  datatype Result<+T, +E> = Success(value: T) | Failure(error: E)
}
