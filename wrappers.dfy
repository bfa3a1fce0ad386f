/** The absent-or-present value shared by both simulations. */
module Wrappers {
  datatype Option<T> = None | Some(value: T)
}
