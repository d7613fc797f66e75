/** Results that may be missing: a failed lookup, or an error return. */
module Options {
  datatype Option<+T> = None | Some(value: T)
}
