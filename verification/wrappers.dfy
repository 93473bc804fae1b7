/** Minimal failure-carrying datatypes used by the generator model. */
module Wrappers {

  /** An optional value. */
  datatype Option<+T> = None | Some(value: T)

  /** Either a successful value or the error that replaced it. */
  datatype Result<+R, +E> = Success(value: R) | Failure(error: E)
}
