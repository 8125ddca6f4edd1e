/** A value or its absence. */
module Options {
  datatype Option<T> = None | Some(value: T)
}
