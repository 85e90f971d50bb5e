/** Option and Result, the two failure-carrying values the model uses. */
module Wrappers {

  datatype Option<+T> = None | Some(value: T)

  /** The outcome of a call that may raise: its value, or the text of the exception. */
  datatype Result<+R> = Success(value: R) | Failure(error: string)
}
