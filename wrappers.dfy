/** Option and Result, the failure-carrying values used across the model. */
module Wrappers {

  datatype Option<+T> = None | Some(value: T)

  /** The outcome of an operation that the source either returns from or throws out of. */
  datatype Result<+R, +E> = Ok(value: R) | Err(error: E)
}
