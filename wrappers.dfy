/** Optional values and failure-carrying results shared by the model. */
module Wrappers {
  datatype Option<+T> = None | Some(value: T)

  /** The outcome of a bridge call that returns a value or raises. */
  datatype Result<+T, +E> = Ok(value: T) | Err(error: E)

  /** The outcome of a bridge call that returns nothing or raises. */
  datatype Outcome<+E> = Pass | Fail(error: E)
}
