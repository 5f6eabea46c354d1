module Options {

  /** An optional result, for the functions that return a null pointer or fail. */
  datatype Option<+T> = None | Some(value: T)
}
