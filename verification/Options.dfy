/** The optional value used where the source returns None or raises for a missing item. */
module Options {
  datatype Option<+T> = None | Some(value: T)
}
