/** Failure outcomes of the reconstruction engine. Every exception the Java
    program throws on a reachable path becomes one of these values. */
module Results {

  /** Why the expression evaluator rejected its input. */
  datatype ParseFailure =
    | TrailingCharacters       // input left over after a complete expression
    | Expected(c: char)        // a required '(' or ')' is missing
    | IdentifierExpected       // an identifier token is empty
    | NumberExpected           // a number token is empty
    | BadNumber                // a literal is not a number in the given base
    | UnknownFunction(name: string)
    | WrongArity(name: string)

  datatype Error =
    | DivisionByZero           // zero denominator, zero divisor, duplicate x in a subset
    | NonExactDivision         // DIV whose remainder is not zero
    | NonIntegerValue          // an integer was required but the fraction is not whole
    | Parse(reason: ParseFailure)
    | IndexOutOfBounds         // list access past the end (k > n, or k = 0)
    | NegativeArraySize        // k < 0
    | NoConsensus              // the tally is empty
    | NoWitness                // no subset produces the winning value

  datatype Result<+T> = Success(value: T) | Failure(error: Error) {
    predicate IsFailure() { Failure? }

    function PropagateFailure<U>(): Result<U>
      requires Failure?
    {
      Failure(error)
    }

    function Extract(): T
      requires Success?
    {
      value
    }
  }
}
