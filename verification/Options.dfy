/** A value that may be absent: Go's nil pointers, missing results and errors. */
module Options {
  datatype Option<T> = None | Some(value: T)
}
