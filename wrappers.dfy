/** Option and Result, standing in for Java's null sentinel and for the one
    exception the converter can raise. */
module Wrappers {

  /** `None` is the `null` a rule returns when it does not match. */
  datatype Option<+T> = None | Some(value: T)

  /** The exception `String.substring(begin)` throws when `begin` is past the
      end of the string. */
  datatype Error = StringIndexOutOfBounds(begin: int, length: int)

  /** A value, or the exception that aborted the computation. */
  datatype Result<+T> = Ok(value: T) | Err(error: Error)
}
