/** Failure-compatible result types used by the model. */
module Wrappers {

  /** An optional value: `None` where the source passes or does nothing. */
  datatype Option<T> = None | Some(value: T)

  /** The outcome of an operation that either succeeds or raises an error. */
  datatype Outcome<E> = Pass | Fail(error: E)

  /** The outcome of an operation that either returns a value or raises an error. */
  datatype Result<T, E> = Ok(value: T) | Err(error: E)
}
