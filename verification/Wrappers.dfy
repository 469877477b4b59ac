/** The outcome types the other modules share: an absent value, and a value or the class of its error. */
module Wrappers {
  datatype Option<+T> = None | Some(value: T)

  // The classes of translate.Error; wording is not modelled.
  datatype Error = Parsing | Illegal | Unsupported | Internal

  datatype Result<+T> = Ok(value: T) | Err(error: Error) {
    predicate IsFailure() {
      Err?
    }

    function PropagateFailure<U>(): Result<U>
      requires Err?
    {
      Err(error)
    }

    function Extract(): T
      requires Ok?
    {
      value
    }

    function GetOr(default: T): T {
      if Ok? then value else default
    }
  }
}
