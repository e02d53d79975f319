/** The absent-or-present value used wherever the TypeScript code returns `T | undefined`. */
module Wrappers {

  datatype Option<+T> = None | Some(value: T)
}
