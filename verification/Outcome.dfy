/** Results of operations that may raise, and optional values. */
module Outcome {

  datatype Option<+T> = None | Some(value: T)

  /** What the program raises, named after the place that raises it. */
  datatype Failure =
    | UndefinedFiscalYear   // asset starts in an undefined future fiscal year, or none is defined
    | NoLineForYear         // a fiscal year of the table received no depreciation line
    | DurationConflict      // posted entries are not earlier than the end of the table
    | NoSuchTableLine       // the line to compensate does not exist
    | NothingToDepreciate   // early removal without a line to depreciate
    | LinesNotPosted        // early removal while earlier periods are not posted
    | EmptyPeriod           // early removal in a period without days
    | DateBeforePosted      // a line would be dated before a posted one
    | RemovalBeforeLast     // removal date before the last depreciation date
    | UnregisteredClass     // a class replaces one that was never registered
    | ReplacesItself        // a class replaces itself
    | NoMatchingClass       // no class matches
    | SeveralClasses        // several classes match
    | NoLines               // a bank document without lines
    | MissingBank           // a bank document without a bank
    | MissingAccount        // a bank document whose bank has no account
    | WriteOffNotZero       // the write-off of a bank document is not explained
    | CreditMissing         // a bank document line without credit

  datatype Result<+T> = Ok(value: T) | Err(error: Failure) {
    predicate IsFailure() { Err? }

    function PropagateFailure<U>(): Result<U>
      requires Err?
    {
      Err(error)
    }

    function Extract(): T
      requires Ok?
    {
      value
    }
  }
}
