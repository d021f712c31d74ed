/** Option and Result values for operations that can fail or find nothing. */
module Wrappers {

  /** `Option<T>`: `None` for "nothing found", `Some(value)` otherwise. */
  datatype Option<+T> = None | Some(value: T)

  /** `Result<R, E>`: `Success(value)` or `Failure(error)`. */
  datatype Result<+R, +E> = Success(value: R) | Failure(error: E)
}
