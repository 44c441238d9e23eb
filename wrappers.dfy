/** The optional value used where the Go code returns a nil-able pointer. */
module Wrappers {

  /** `None` stands for Go's nil; `Some(v)` for a non-nil value `v`. */
  datatype Option<+T> = None | Some(value: T)
}
