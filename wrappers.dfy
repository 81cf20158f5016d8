/** Failure-compatible return types shared by the other modules. */
module Wrappers {

  /** Rust's `Option`. */
  datatype Option<+T> = None | Some(value: T)

  /** Rust's `Result`, used for every fallible constructor and insert. */
  datatype Result<+T, +E> = Ok(value: T) | Err(error: E)
}
