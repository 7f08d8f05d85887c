/** The optional value used for JavaScript's `null` and for a `Date` that
    failed to parse. */
module Options {
  datatype Option<T> = None | Some(value: T)
}
