/** The absent-or-present result that stands in for the source's null pointers. */
module Wrappers {

  /** `None` plays the role of a returned `nullptr`; `Some(v)` of a pointer to `v`. */
  datatype Option<+T> = None | Some(value: T)
}
