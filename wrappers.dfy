/** Failure-carrying values shared by the other modules. */
module Wrappers {

  /** A value that may be absent, such as a dictionary lookup that misses. */
  datatype Option<+T> = None | Some(value: T)

  /** The outcome of an operation that the source lets raise an exception. */
  datatype Result<+T, +E> = Ok(value: T) | Err(error: E)
}
