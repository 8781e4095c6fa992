/** Python's `None`-or-value, as used throughout the window's bookkeeping. */
module Wrappers {

  datatype Option<+T> = None | Some(value: T)
}
