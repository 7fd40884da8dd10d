/** Option and Result, and the Python exceptions the analysis code can raise. */
module Wrappers {

  datatype Option<+T> = None | Some(value: T)

  /** The exceptions of the analysis routines, by their Python class. */
  datatype Error =
    | IndexError         // a list or string indexed past its end
    | KeyError           // a dictionary looked up at a key it does not hold
    | ValueError         // a number or a Boolean word that does not parse
    | ZeroDivisionError  // a division by a zero total or a zero baseline
    | NoUnloadedData     // the plain Exception raised when no baseline is loaded

  /** A value, or the exception that stopped the computation. */
  datatype Result<+T> = Ok(value: T) | Err(error: Error)
}
