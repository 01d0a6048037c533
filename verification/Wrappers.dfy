/** Option is used where the C++ sources hold a pointer that may be null, Result where they may throw. */
module Wrappers {

  datatype Option<+T> = None | Some(value: T)

  datatype Result<+T> = Success(value: T) | Failure(error: string)

}
