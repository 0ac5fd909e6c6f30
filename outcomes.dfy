/**
 * Results and errors shared by the whole optimizer.  The PHP code signals
 * failure by throwing; each exception class it throws is one `Error` case.
 */
module Outcomes {

  datatype Option<T> = None | Some(value: T)

  /** The exception classes the optimizer throws. */
  datatype Error =
    | XmlProcessing(message: string)    // XmlProcessingException
    | SvgValidation(message: string)    // SvgValidationException
    | Logic(message: string)            // \LogicException
    | InvalidArgument(message: string)  // \InvalidArgumentException

  datatype Result<T> = Success(value: T) | Failure(error: Error)

  /** The outcome of an operation that returns nothing (PHP `void`) or throws. */
  datatype Outcome = Pass | Fail(error: Error)
}
