/** Present-or-absent values and success-or-error values, as the store and the handlers return them. */
module Options {

  /** A lookup result: `undefined` in the source is `None`. */
  datatype Option<+T> = None | Some(value: T)

  /** A call that either succeeds with a value or fails with an error (a thrown `Error` in the source). */
  datatype Result<+T, +E> = Ok(value: T) | Err(error: E)
}
