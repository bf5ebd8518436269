/**
 * The two runtime exceptions the interpolation core can raise, and a result
 * type that carries either a value or the exception that aborted the
 * computation.
 */
module Exceptions {

  datatype Error =
    | DivideByZero       // a fraction constructed with denominator 0
    | IndexOutOfBounds   // a y value requested past the end of the y list

  datatype Result<T> = Ok(value: T) | Err(error: Error)
}
