/** Present-or-empty values and the outcome of a conversion that may fail. */
module Wrappers {

  /** java.util.Optional: either present with a value or empty. */
  datatype Option<+T> = None | Some(value: T)

  /** The outcome of a number conversion: a value, or a NumberFormatException. */
  datatype Result<+T> = Ok(value: T) | FormatError
}
