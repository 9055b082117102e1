/** A value that may be missing, in place of JavaScript's `undefined`. */
module Options {
  datatype Option<+T> = None | Some(value: T)
}
