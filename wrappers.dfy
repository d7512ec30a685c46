/** Optional values and results with an error, used for the places where the
    source raises (list.index, int() of a non-number, a missing cell widget). */
module Wrappers {

  datatype Option<+T> = None | Some(value: T)

  datatype Result<+R, +E> = Ok(value: R) | Err(error: E)
}
