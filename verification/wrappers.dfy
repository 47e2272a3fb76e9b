/** Python's `None`, or a value; also the result of a lookup that may raise. */
module Wrappers {

  datatype Option<+T> = None | Some(value: T)

}
