/** Python's `None`-or-value, as used for the optional fields of `Content`. */
module Wrappers {

  datatype Option<+T> = None | Some(value: T)
}
