/** Python's `None`-or-value, as used for optional page regions and attributes. */
module Wrappers {

  datatype Option<+T> = None | Some(value: T)
}
