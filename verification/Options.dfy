/** Values that may be missing: null pointers, absent arguments, failed conversions. */
module Options {
  datatype Option<T> = None | Some(value: T)
}
