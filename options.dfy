/** An optional value, for request fields that may be absent. */
module Options {
  datatype Option<+T> = None | Some(value: T)
}
