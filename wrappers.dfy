/** A value that may be absent (Ruby's `nil`). */
module Wrappers {

  datatype Option<+T> = None | Some(value: T)
}
