/** Option and Result values, and the exception kinds the library raises. */
module Wrappers {

  datatype Option<+T> = None | Some(value: T)

  /** The exceptions the modelled code can raise, by kind. */
  datatype Error =
    | VersionFormat       // VersionFormatException
    | ConstraintFormat    // ConstraintFormatException
    | IllegalState        // Kotlin's error(...)
    | IndexOutOfBounds    // a string index past its end
    | NullDereference         // `!!` applied to null
    | NumberFormat        // String.toInt() on a numeral that does not fit an Int
    | NoSuchElement       // List.single() on an empty list
    | IllegalArgument     // List.single() on a list of more than one element

  datatype Result<+T> = Ok(value: T) | Err(error: Error) {
    predicate IsFailure() { Err? }
    function PropagateFailure<U>(): Result<U>
      requires Err?
    {
      Err(error)
    }
    function Extract(): T
      requires Ok?
    {
      value
    }
  }
}
