/** Failure-carrying values: the model's stand-ins for Java's null and for
    constructor exceptions. */
module Wrappers {

  /** A value that may be absent (a Java reference that may be null). */
  datatype Option<+T> = None | Some(value: T)

  /** Either a constructed value or the reason the constructor threw. */
  datatype Result<+T, +E> = Ok(value: T) | Err(error: E)
}
