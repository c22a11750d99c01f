/** A value that may be missing: Python's `None` where the code uses it so. */
module Options {
  datatype Option<+T> = None | Some(value: T)
}
