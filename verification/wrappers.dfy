/** Optional values (Java's nullable references) and results that carry either
    a value or the exception an operation throws. */
module Wrappers {

  datatype Option<+T> = None | Some(value: T)

  datatype Result<+T, +E> = Success(value: T) | Failure(error: E)
}
