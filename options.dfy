/** Java's nullable references, as an explicit option. */
module Options {
  datatype Option<+T> = None | Some(value: T)
}
