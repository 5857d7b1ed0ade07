/** The optional value used in place of the source's NULL pointers and "not found" results. */
module Options {
  datatype Option<+T> = None | Some(value: T)
}
