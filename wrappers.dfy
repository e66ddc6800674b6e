/** Option: the absent-or-present value used for operations that can raise. */
module Wrappers {
  datatype Option<+T> = None | Some(value: T)
}
