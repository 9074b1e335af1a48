// A value that may be missing: the source's NULL results and error returns.
module Options {
  datatype Option<+T> = None | Some(value: T)
}
