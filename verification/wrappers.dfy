/** The optional value used wherever the service may return `undefined`. */
module Wrappers {

  datatype Option<+T> = None | Some(value: T)
}
