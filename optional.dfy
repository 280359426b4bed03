/** A value that may be absent: JavaScript's `null`/`undefined` next to a present value. */
module Optional {
  datatype Option<+T> = None | Some(value: T)
}
