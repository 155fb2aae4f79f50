/** A value that may be absent, for all the modules that need one. */
module Options {
  datatype Option<T> = None | Some(value: T)
}
