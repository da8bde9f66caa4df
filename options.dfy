/** The optional value used for conversions that may fail. */
module Options {
  datatype Option<+T> = None | Some(value: T)
}
