/** An optional value, for the source's missing entries and nil pointers. */
module Options {
  datatype Option<T> = None | Some(value: T)
}
