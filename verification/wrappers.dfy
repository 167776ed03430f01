/** Optional values and outcomes shared by the other modules. A Java `null`
    reference is `None`; a failing JUnit assertion or a thrown exception is a
    `Failure`. */
module Wrappers {

  datatype Option<+T> = None | Some(value: T)

  datatype Result<+T, +E> = Success(value: T) | Failure(error: E)
}
