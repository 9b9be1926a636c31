/** The optional-value and outcome datatypes shared by the modules. */
module Wrappers {

  /** An optional value (Rust's `Option`). */
  datatype Option<+T> = None | Some(value: T)

  /** A result with no success value (Rust's `Result<(), E>`). */
  datatype Outcome<+E> = Ok | Err(error: E)
}
