// A value that may be missing, such as a null pointer of the C code.

module Options {
  datatype Option<+T> = None | Some(value: T)
}
