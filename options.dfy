/** The optional value used where the source returns `undefined` or stores `null`. */
module Options {
  datatype Option<T> = None | Some(value: T)
}
