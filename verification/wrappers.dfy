/** Failure-carrying datatypes shared by every module of the model. */
module Wrappers {

  /** An optional value (`Option` in Rust and Python's `None`). */
  datatype Option<+T> = None | Some(value: T)

  /** The outcome of a fallible operation (`Result` in Rust, a raised exception in Python). */
  datatype Result<+T, +E> = Ok(value: T) | Err(error: E)
}
