/** The optional value used across the model (a JavaScript value that may be absent). */
module Options {
  datatype Option<T> = None | Some(value: T)
}
