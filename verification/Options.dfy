/** An optional value, for results that the source reports by an exception or an error code. */
module Options {
  datatype Option<+T> = None | Some(value: T)
}
