/** Failure-carrying values shared by the on-chain program and the client. */
module Wrappers {

  datatype Option<+T> = None | Some(value: T)

  datatype Result<+R, +E> = Success(value: R) | Failure(error: E)

  /** A check that either passes or fails with an error, carrying no value (Rust's `Result<()>`). */
  datatype Outcome<+E> = Pass | Fail(error: E)
}
