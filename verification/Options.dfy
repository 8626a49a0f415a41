/** The result of an operation that may have no answer. */
module Options {
  datatype Option<+T> = None | Some(value: T)
}
