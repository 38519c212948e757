// A pointer that may be null, or a field that may be absent.
module Options {
  datatype Option<+T> = None | Some(value: T)
}
