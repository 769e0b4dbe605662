/** Optional values (SQL NULL, Python None) and results with an error side (ValueError). */
module Wrappers {

  datatype Option<+T> = None | Some(value: T)

  datatype Result<+R, +E> = Success(value: R) | Failure(error: E)
}
