/** A value that may be missing: std::optional, a failed parse, a message not sent. */
module Options {
  datatype Option<T> = None | Some(value: T)
}
