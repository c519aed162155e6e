/** Optional values and outcomes that can fail, used where the compiler
    meets a value PHP may leave absent (`false`/`null`) or an error. */
module Wrappers {

  datatype Option<+T> = None | Some(value: T)

  datatype Result<+T, +E> = Success(value: T) | Failure(error: E)
}
