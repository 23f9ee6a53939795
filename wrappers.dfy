/** Optional values and success-or-error results, used for absent request
    fields, absent store rows and rejected operations. */
module Wrappers {

  datatype Option<+T> = None | Some(value: T)

  datatype Result<+T, +E> = Success(value: T) | Failure(error: E)
}
