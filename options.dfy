/** The optional value the reconciler passes around: an instant, or JavaScript's `null`. */
module Options {
  datatype Option<+T> = None | Some(value: T)
}
