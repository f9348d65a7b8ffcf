/** Failure-carrying datatypes shared by the rest of the model. */
module Wrappers {

  /** Python's "value or None". */
  datatype Option<+T> = None | Some(value: T)

  /** A computation that either produced a value or raised with a message. */
  datatype Result<+R> = Success(value: R) | Failure(message: string)
}
