/** JavaScript's `null`/`undefined` results, as a value. */
module Optional {
  datatype Option<+T> = None | Some(value: T)
}
