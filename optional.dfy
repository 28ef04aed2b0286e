/** An optional value: the model's stand-in for JavaScript's falsy `null`/`undefined` arguments and fields. */
module Optional {
  datatype Option<+T> = None | Some(value: T)
}
