/** A value that may be absent, as Python's `None`. */
module Options {
  datatype Option<+T> = None | Some(value: T)
}
