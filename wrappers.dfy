/** Option and Result: the values that stand for C#'s `null` and for a thrown exception. */
module Wrappers {

  /** `None` plays the part of a C# null reference. */
  datatype Option<+T> = None | Some(value: T)

  /** `Failure` plays the part of an exception escaping an operation. */
  datatype Result<+R, +E> = Success(value: R) | Failure(error: E)
}
