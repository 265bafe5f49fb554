/** A value that may be absent: a C function's error return, or a NULL pointer. */
module Options {
  datatype Option<T> = None | Some(value: T)
}
