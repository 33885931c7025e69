/** Failure-carrying datatypes shared by the clock model. */
module Wrappers {

  /** An optional value: the button handler either writes the RTC or it does not. */
  datatype Option<+T> = None | Some(value: T)

  /** A computation that either yields a value or raises an error. */
  datatype Result<+R, +E> = Success(value: R) | Failure(error: E)
}
