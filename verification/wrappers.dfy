/** Failure-carrying result types shared by every module of the model. */
module Wrappers {

  /** An optional value: Go's nil pointer / nil error, Python's None. */
  datatype Option<+T> = None | Some(value: T)

  /** A value or an error, for functions the source gives an `(x, error)` pair. */
  datatype Result<+T, +E> = Ok(value: T) | Err(error: E)
}
