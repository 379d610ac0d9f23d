/** The optional value used for an empty slot and for a failed parse. */
module Options {
  datatype Option<+T> = None | Some(value: T)
}
