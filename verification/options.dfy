/** A value that may be missing: a nil pointer, an empty buffer, an error return. */
module Options {
  datatype Option<T> = None | Some(value: T)
}
