/** An optional value: a cell that may be absent, a lookup that may find nothing. */
module Wrappers {
  datatype Option<+T> = None | Some(value: T)
}
