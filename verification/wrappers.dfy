/** Failure-carrying results shared by every module of the model. */
module Wrappers {

  /** A value that may be absent: Go's nil pointer, a missing map key, an empty read. */
  datatype Option<T> = None | Some(value: T)

  /** A value or the error a Go function would have returned beside it. */
  datatype Result<T, E> = Ok(value: T) | Err(error: E)
}
