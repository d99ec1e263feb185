/** Success/failure wrappers shared by the other modules. */
module Results {

  datatype Option<+T> = None | Some(value: T)

  /** The value-or-error pair a Go function returns as `(T, error)`. */
  datatype Result<+T, +E> = Ok(value: T) | Err(error: E)
}
