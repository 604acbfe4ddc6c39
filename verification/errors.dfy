/** Failures the duplicate-grouping pipeline can raise, and a result type
    carrying either a value or one of them. */
module Errors {

  /** The exceptions the Python pipeline raises on bad input:
      - ZeroDivision: the duplicate percentage divides by the row count, so an
        empty sheet raises ZeroDivisionError;
      - ColumnOutOfRange: the target column does not exist (iloc / insert);
      - LengthMismatch: a new column whose length differs from the row count. */
  datatype Error = ZeroDivision | ColumnOutOfRange | LengthMismatch

  datatype Result<+T> = Ok(value: T) | Err(error: Error)
}
