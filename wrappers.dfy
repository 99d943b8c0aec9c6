/** Failure-compatible result types shared by every module of the model. */
module Wrappers {

  datatype Option<+T> = None | Some(value: T)

  /** The outcome of an operation that can end in a Go panic. */
  datatype Result<+T> = Ok(value: T) | Err(error: string)
}
