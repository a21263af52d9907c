/** The optional value that stands for the source's nil-able pointers and error returns. */
module Options {
  datatype Option<+T> = None | Some(value: T)
}
