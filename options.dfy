/** Optional values and results, standing in for Go's `(value, ok)` and `(value, error)` returns. */
module Options {

  datatype Option<+T> = None | Some(value: T)

  datatype Result<+T, +E> = Ok(value: T) | Err(error: E)
}
