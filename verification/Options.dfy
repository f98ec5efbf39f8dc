/** A value or none, for pointers that may be null and searches that may fail. */
module Options {
  datatype Option<T> = None | Some(value: T)
}
