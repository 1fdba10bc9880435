/** Result wrappers shared by the modules of the model. */
module Wrappers {

  /** A value that may be absent: JavaScript's `null` (or `undefined`) result. */
  datatype Option<+T> = None | Some(value: T)

  /** The outcome of a JavaScript call that may throw: a returned value, or an exception. */
  datatype Fallible<+T> = Returns(value: T) | Throws
}
