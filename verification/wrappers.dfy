/** An optional value; `None` means the merge writes nothing. */
module Wrappers {

  /** `None` when there is nothing, `Some(v)` when there is a value `v`. */
  datatype Option<+T> = None | Some(value: T)
}
