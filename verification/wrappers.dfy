/** Failure-compatible wrappers shared by the whole model. */
module Wrappers {

  /** An optional value: the model of a .NET `null` or a lookup that found nothing. */
  datatype Option<+T> = None | Some(value: T)

  /** A value or the error that replaced it: the model of a thrown exception. */
  datatype Result<+T, +E> = Success(value: T) | Failure(error: E)
}
