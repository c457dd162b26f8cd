/** Optional values and results shared by the whole model.
    `None` stands for a Java `null` (or an empty `Optional`); `Failure` for an exception. */
module Wrappers {

  datatype Option<+T> = None | Some(value: T)

  datatype Result<+T, +E> = Success(value: T) | Failure(error: E)
}
