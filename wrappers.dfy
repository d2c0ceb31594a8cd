/** Failure-carrying values shared by the modules of this project. */
module Wrappers {

  /** A value that may be absent; `None` plays the part of a null reference. */
  datatype Option<+T> = None | Some(value: T)

  /** The outcome of an operation that the source may abort with an exception. */
  datatype Result<+R, +E> = Ok(value: R) | Err(error: E)
}
