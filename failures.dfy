/** The outcomes of the evaluation pipeline: the exceptions the calculator throws become values. */
module Failures {

  /** One variant per exception the pipeline throws (ScientificCalculator.java:120, 134, 140, 181, 195,
      204, 217, 221, 225, 230, 233); the two Java runtime exceptions (an empty token's charAt(0), and
      Double.parseDouble's NumberFormatException) are collapsed into Malformed. */
  datatype Error =
    | InvalidCharacter(ch: char)
    | MismatchedParentheses
    | InvalidExpression
    | DivisionByZero
    | NonPositiveLogarithm
    | NegativeSquareRoot
    | InvalidToken(token: string)
    | Malformed(token: string)

  datatype Result<T> = Ok(value: T) | Err(error: Error)

  datatype Option<T> = None | Some(value: T)
}
