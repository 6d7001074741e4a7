/** A value that may be missing: a null pointer or an error code in the source. */
module Options {
  datatype Option<T> = None | Some(value: T)
}
