/** The optional value used wherever the application has `T | null`. */
module Options {
  datatype Option<+T> = None | Some(value: T)
}
