/** Options, results and exceptions shared by the whole model. */
module Wrappers {

  datatype Option<+T> = None | Some(value: T)

  /** A call that returns normally, or throws `libsarus::Error`. */
  datatype Result<+T> = Ok(value: T) | Error

  /** How a step ends: normally, with a `libsarus::Error`, or with an exception of another type. */
  datatype Fault = NoFault | ThrowsError | ThrowsOther
}
