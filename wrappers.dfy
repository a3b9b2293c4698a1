/** Python's `None`-or-value, used wherever the source keeps an optional global or field. */
module Wrappers {
  datatype Option<+T> = None | Some(value: T)
}
