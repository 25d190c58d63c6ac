/** A value or none, for the source's null returns. */
module Options {
  datatype Option<T> = None | Some(value: T)
}
