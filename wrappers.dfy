/** Results of operations that the modelled Python code can abort with an exception. */
module Wrappers {

  /** The exceptions the modelled code can raise. */
  datatype Error =
    | ValueError         // datetime.date given a day that does not exist
    | ZeroDivisionError  // fire intensity computed with a zero fire duration

  datatype Result<+T> = Ok(value: T) | Err(error: Error)
}
