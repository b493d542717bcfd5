/** An optional value: a successor that may not exist, a table line that may be missing. */
module Options {
  datatype Option<+T> = None | Some(value: T)
}
