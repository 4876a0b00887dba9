/** A value that may be absent: JSON `null`, or a JavaScript `undefined`. */
module Wrappers {

  datatype Option<+T> = None | Some(value: T)
}
