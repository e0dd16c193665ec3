/** Option and Result values standing in for Go's `(value, error)` returns. */
module Results {

  datatype Option<+T> = None | Some(value: T)

  /** `Ok(v)` is a nil error with value `v`; `Err(e)` is a non-nil error `e`. */
  datatype Result<+T, +E> = Ok(value: T) | Err(error: E)
}
