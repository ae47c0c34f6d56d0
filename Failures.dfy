/** The exceptions the library throws, as values.

    Every operation of the library reports a failure by throwing a
    message-carrying exception. Here a failing operation returns `Err` with
    the kind of failure instead; the message text itself is not modelled. */
module Failures {

  datatype Error =
    | EmptyInput          // an empty string or digit vector where one is required
    | DigitOutOfRange     // a "digit" argument above 9
    | Underflow           // natural subtraction with a larger subtrahend
    | DivideByZero        // a zero divisor (natural, integer, rational or polynomial)
    | DivisorTooLarge     // getFirstDivisionDigit with a divisor above the dividend
    | UndefinedGcd        // gcd of two zeros, or polynomial gcd with a zero operand
    | UndefinedLcm        // lcm with a zero operand
    | NegativeToNatural   // an integer with the negative flag converted to a natural
    | NotAnInteger        // a rational whose reduced denominator is not 1
    | NonDigit            // a literal with a character that is not a decimal digit
    | InvalidInteger      // an integer literal that is not a natural with an optional '-', or is "-0"
    | MissingSlash        // a rational literal without '/'
    | InvalidNumerator    // a rational literal with a malformed numerator
    | InvalidDenominator  // a rational literal with a malformed denominator
    | ZeroDenominator     // a rational literal whose denominator is zero
    | InvalidToken        // a character the lexer does not know
    | UnexpectedEnd       // the token list ends right after a sign
    | ExpectedCoefficient // a token that cannot start a monom's coefficient
    | ExpectedDenominator // '/' not followed by a number
    | ExpectedExponent    // '^' not followed by a number
    | DuplicateDegrees    // two monoms of one polynomial literal with the same degree
    | NoMonoms            // a polynomial literal that yields no monom
    | DegreeTooLarge      // a polynomial literal whose degree does not fit a size_t
    | AllZero             // a polynomial literal whose coefficients are all zero

  /** The result of an operation that can throw. */
  datatype Result<+T> = Ok(value: T) | Err(error: Error)

  /** The result of an operation that can throw but returns nothing. */
  datatype Outcome = Pass | Fail(error: Error)
}
