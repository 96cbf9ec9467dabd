/** Failure-compatible result types shared by the modules of this project. */
module Wrappers {

  /** A value that may be missing: the stand-in for Python's `None`. */
  datatype Option<+T> = None | Some(value: T)

  /** The outcome of an operation that can fail with an error message. */
  datatype Result<+R> = Ok(value: R) | Err(message: string)
}
