/** The failures the library reports, and an Ok/Err result carrying them. */
module Results {

  /** One constructor per exception the Java library throws. */
  datatype Error =
    | UnrecognizedUnit(name: string)   // IllegalArgumentException from Unit.parse
    | MalformedNumber(text: string)    // NumberFormatException from new BigDecimal(String)
    | NoMatch(text: string)            // IllegalStateException: the parse pattern did not match
    | EmptyUnitList                    // IllegalArgumentException from the formatter constructor
    | UnitsNotDescending               // IllegalArgumentException from the formatter constructor
    | OddPrecision                     // IllegalArgumentException from Fractions.getFractionString
    | DivisionByZero                   // ArithmeticException from BigDecimal.divide

  datatype Result<+T> = Ok(value: T) | Err(error: Error)

  datatype Option<+T> = None | Some(value: T)
}
