// Optional results, used for the C code's NULL pointers and error returns.
module Options {
  datatype Option<+T> = None | Some(value: T)
}
