/** A value that may be absent: Go's nil interface or pointer is `None`. */
module Wrappers {

  datatype Option<+T> = None | Some(value: T)
}
