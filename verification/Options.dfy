/** A value that may be absent: a null pointer or an index with no meaning in the source. */
module Options {
  datatype Option<+T> = None | Some(value: T)
}
