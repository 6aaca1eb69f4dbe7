/** Result type standing in for a thrown exception: a value on success, an error payload otherwise. */
module Wrappers {

  datatype Result<+R, +E> = Success(value: R) | Failure(error: E)
}
