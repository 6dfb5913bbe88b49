/** Optional values and results, used for nullable fields, thrown errors and `record[0]`. */
module Wrappers {

  datatype Option<+T> = None | Some(value: T)

  datatype Result<+R, +E> = Success(value: R) | Failure(error: E)
}
