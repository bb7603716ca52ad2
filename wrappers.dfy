/** Failure-carrying results: the exceptions the wireframe raises become values. */
module Wrappers {

  datatype Option<T> = None | Some(value: T)

  datatype Result<T, E> = Ok(value: T) | Err(error: E)

  /** The result of an operation that only changes state. */
  datatype Outcome<E> = Pass | Fail(error: E)
}
