/** Outcomes of operations that can fail. */
module Wrappers {

  datatype Option<T> = None | Some(value: T)

  /** `Failure` carries the message of the rejected call. */
  datatype Result<T, E> = Success(value: T) | Failure(error: E)
}
