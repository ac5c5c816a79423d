/** An optional value, for `Option` and for results whose error is not looked into. */
module Options {
  datatype Option<+T> = None | Some(value: T)
}
