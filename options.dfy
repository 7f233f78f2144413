/** The optional value used by the argument model. */
module Options {
  datatype Option<+T> = None | Some(value: T)
}
