// The optional value that stands for a C pointer or index that may be NULL.
module Options {
  datatype Option<+T> = None | Some(value: T)
}
