/** Optional values and error returns shared by every module of the model. */
module Results {

  /** An absent or present value; it stands for Go's nilable pointers. */
  datatype Option<+T> = None | Some(value: T)

  /** A value or an error; it stands for Go's `(value, error)` pairs. */
  datatype Result<+T, +E> = Ok(value: T) | Err(error: E)
}
