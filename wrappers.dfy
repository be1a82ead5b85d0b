/** The optional value used wherever JavaScript returns `null`/`undefined`
    or a call may throw instead of returning. */
module Wrappers {
  datatype Option<+T> = None | Some(value: T)
}
