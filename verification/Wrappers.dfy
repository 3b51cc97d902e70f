/** A value that may be missing: the source's `None`, `null` and `undefined`, and its errors where only one kind matters. */
module Wrappers {
  datatype Option<+T> = None | Some(value: T)
}
