/** An absent value: JavaScript's `null`/`undefined` where the extension stores or returns one. */
module Options {
  datatype Option<+T> = None | Some(value: T)
}
