/** Values that may be missing, and calls that may fail. */
module Wrappers {
  datatype Option<+T> = None | Some(value: T)

  /** A call that may end in luaL_error. */
  datatype Result<+T> = Ok(value: T) | Error(message: string)
}
