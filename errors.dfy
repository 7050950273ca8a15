/** Failure values shared by the whole model.

    The Python program reports every misuse by raising an exception
    (`AssertionError` from an `assert`, `KeyError` from a dictionary lookup,
    `IndexError` from a list store); here each becomes an `Err` value.
 */
module Errors {

  /** The ways an operation of the core can refuse to proceed. */
  datatype Error =
    | InvalidArgument   // a failed `assert` on an argument
    | KeyMissing        // a lookup of a key the rule table does not hold
    | IndexOutOfRange   // a list store at an index outside the list

  datatype Result<T> = Ok(value: T) | Err(error: Error)

  datatype Option<T> = None | Some(value: T)
}
