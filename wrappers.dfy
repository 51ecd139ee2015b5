/** The Option datatype used for Python's `None` results and for unset letters. */
module Wrappers {

  datatype Option<+T> = None | Some(value: T)
}
