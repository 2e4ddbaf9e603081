/** A value that may be missing: the (value, ok) and (value, error) returns of the sources. */
module Options {
  datatype Option<+T> = None | Some(value: T)
}
