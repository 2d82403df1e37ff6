/** Python's `None`-or-value, made explicit. */
module Wrappers {

  datatype Option<+T> = None | Some(value: T)
}
