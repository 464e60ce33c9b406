/** The value that may be missing, for results the code signals by a flag, a
    return code or an early return. */
module Wrappers {
  datatype Option<T> = None | Some(value: T)
}
