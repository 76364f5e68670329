/** A value or none, for the error returns of the code. */
module Options {
  datatype Option<+T> = None | Some(value: T)
}
