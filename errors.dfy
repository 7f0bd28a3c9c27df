/** The failures that bigmath.cpp reports through handleError, which prints
    the message and ends the process. Here each becomes an error value. */
module Errors {
  datatype Error =
    | TooManyHexDigits      // parseHexByteString: more than two digits in a byte
    | NoHexDigits           // parseHexByteString: ':' with no digits before it
    | InvalidHexCharacter   // parseHexByteString: neither a hex digit nor ':'
    | InvalidBase           // parse / toString: base outside 2..36
    | InvalidCharacter      // parse: a digit not below the base
    | DivisionByZero        // divMod with a zero divisor
    | NegativeResult        // operator -= when the subtrahend is larger
    | NotByteString         // toByteString: the top byte is not the sentinel 1
    | InvalidBase64Character // parseBase64: a character outside the alphabet

  datatype Result<T> = Ok(value: T) | Err(error: Error)
}
