/** An optional value, for what the sources leave absent, null or unanswered. */
module Options {
  datatype Option<T> = None | Some(value: T)
}
