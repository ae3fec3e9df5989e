/** Option and Result, the error channel used in place of the source's exceptions. */
module Wrappers {

  datatype Option<+T> = None | Some(value: T)

  /** `Failure` carries the message the source would raise. */
  datatype Result<+T> = Success(value: T) | Failure(error: string)
}
