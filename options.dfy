/** The absent-or-present value the source expresses with Kotlin's nullable types. */
module Options {
  datatype Option<+T> = None | Some(value: T)
}
