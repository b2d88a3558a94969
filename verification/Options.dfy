// A value that may be missing: the null pointers of C.
module Options {
  datatype Option<T> = None | Some(value: T)
}
