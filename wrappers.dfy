/** The optional value used wherever the browser API answers `null` or an attribute may be absent. */
module Wrappers {

  datatype Option<+T> = None | Some(value: T)
}
