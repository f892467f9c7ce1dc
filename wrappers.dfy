/** The optional result of a ring lookup: Python's `None` or a node identifier. */
module Wrappers {

  datatype Option<+T> = None | Some(value: T)
}
