/** The one optional value used throughout: a result, or the reason's absence of one. */
module Wrappers {
  datatype Option<+T> = None | Some(value: T)
}
