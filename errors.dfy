/** The checked failures of the matrix library and the Hopfield network, one
    variant per exception class of the source, and the two result shapes the
    model returns them in. */
module Errors {

  /** One variant per exception class: MatrixIndexOutOfBoundsException,
      MatrixIncompatibilityException, NotVectorException,
      NotBipolarDecimalException and HopfieldNetworkException. */
  datatype Error =
    | MatrixIndexOutOfBounds
    | MatrixIncompatibility
    | NotVector
    | NotBipolarDecimal
    | HopfieldNetworkError

  /** The value an operation returns, or the exception it throws. */
  datatype Result<+T> = Ok(value: T) | Err(error: Error)

  /** The outcome of an operation that returns nothing (`void`) but may throw. */
  datatype Outcome = Pass | Fail(error: Error)
}
