/** The optional result every container returns when it may be empty. */
module Options {
  datatype Option<+T> = None | Some(value: T)
}
