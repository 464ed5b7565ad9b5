/** The optional value used wherever a table row or a form field may be absent. */
module Options {
  datatype Option<T> = None | Some(value: T)
}
