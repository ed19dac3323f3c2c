/** Failure kinds of the calculator engine and the result type that carries them.
    Each exception the engine throws becomes one `CalcError` value. */
module Outcomes {

  /** The four ways a calculation can abort. */
  datatype CalcError =
    | Underflow          // Pop or Peek on an empty stack
    | InvalidExpression  // the parenthesis check failed
    | SyntaxError        // an operator met fewer than two operands
    | DivisionByZero     // a '/' whose right operand is exactly zero

  /** Either a value or the error that aborted the computation. */
  datatype Result<T> = Ok(value: T) | Fail(error: CalcError)
}
