/** The absent-or-present value used where the source passes `null`/`undefined` or makes no call at all. */
module Wrappers {
  datatype Option<+T> = None | Some(value: T)
}
