/** A value that may be missing: Python's None, Go's empty string and nil. */
module Options {
  datatype Option<+T> = None | Some(value: T)
}
