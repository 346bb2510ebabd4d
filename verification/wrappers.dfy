/** The optional value used wherever a Go routine answers "no value" (a nil slice, a -1 length). */
module Wrappers {

  datatype Option<+T> = None | Some(value: T)
}
