/** Failure-carrying return values shared by the modules of this project. */
module Wrappers {

  datatype Option<T> = None | Some(value: T)

  /** The value of an operation, or the error it raised. */
  datatype Result<T, E> = Ok(value: T) | Err(error: E)
}
