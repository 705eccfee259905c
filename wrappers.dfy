/** The optional value used wherever the Go code has a nil-able pointer. */
module Wrappers {

  datatype Option<+T> = None | Some(value: T)
}
