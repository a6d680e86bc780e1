/** Results that may be missing: a null pointer or an error return in the sources. */
module Options {
  datatype Option<+T> = None | Some(value: T)
}
