/** Optional values and success/failure results, used for the nullable
    fields of the GraphQL response and for the outcome of a database flush. */
module Wrappers {

  datatype Option<+T> = None | Some(value: T)

  datatype Result<+R, +E> = Success(value: R) | Failure(error: E)
}
