/** The source's null-or-pointer results. */
module Options {
  datatype Option<+T> = None | Some(value: T)
}
