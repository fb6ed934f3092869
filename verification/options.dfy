/** The optional value used where an operation may not apply. */
module Options {
  datatype Option<T> = None | Some(value: T)
}
