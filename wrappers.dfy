/** An optional value: a JavaScript property that may be missing (`undefined` or `null`). */
module Wrappers {
  datatype Option<+T> = None | Some(value: T)
}
