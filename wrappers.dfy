/** Option and Result values shared by the other modules. */
module Wrappers {

  datatype Option<+T> = None | Some(value: T)

  /** The outcome of a step that either succeeds with a value or fails with a message. */
  datatype Result<+T> = Success(value: T) | Failure(error: string)
}
