/** An optional value: how the model writes a C pointer that may be null. */
module Optional {

  datatype Option<+T> = None | Some(value: T)
}
