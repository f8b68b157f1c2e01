/** Optional values and error-or-value results, used where the source returns
    `undefined` or reports a failure to its caller. */
module Wrappers {

  datatype Option<+T> = None | Some(value: T)

  datatype Result<+R, +E> = Success(value: R) | Failure(error: E)
}
