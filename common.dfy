/** Shared vocabulary of the pipeline: optional values, the Python exceptions
    the code can raise, and the result of an operation that may raise one. */
module Common {

  datatype Option<+T> = None | Some(value: T)

  /** The exceptions the pipeline lets escape; any of them aborts the whole run. */
  datatype Error =
    | KeyError(key: string)   // a dict lookup or a column selection of a missing key
    | IndexError              // a list index past the end
    | ValueError              // int() or float() of text they reject
    | AttributeError          // `.split` on a value that is not a str
    | ZeroDivisionError       // a ratio whose denominator parses to zero

  datatype Result<+T> = Ok(value: T) | Err(error: Error)

  /** Python's float() on a str: the number it denotes, or None where it
      raises ValueError. Its grammar and IEEE rounding are not modelled, so
      every operation that calls float() takes one of these as a parameter. */
  type FloatParser = string -> Option<real>
}
