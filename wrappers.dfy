/** The optional value used for Python's `None`-or-value returns and absent dictionary keys. */
module Wrappers {
  datatype Option<+T> = None | Some(value: T)
}
