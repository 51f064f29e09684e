/** A value that may be absent: JavaScript's `undefined` for a missing element. */
module Wrappers {

  datatype Option<+T> = None | Some(value: T)
}
