/** Optional values and results with an error, used for SQL NULL, absent
    query-string parameters and failing endpoints. */
module Wrappers {

  datatype Option<+T> = None | Some(value: T)

  datatype Result<+R, +E> = Ok(value: R) | Err(error: E)
}
