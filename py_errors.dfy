/** The exceptions the modelled Python code can raise, and a result type that
    carries either a value or the exception raised instead. */
module PyErrors {

  datatype PyError =
    | IndexError         // indexing past the end of a str or list
    | ValueError         // max() of an empty list, list.index() of a missing item
    | TypeError          // arithmetic on None
    | ZeroDivisionError  // integer floor division by zero
    | AssertionError     // a failed assert statement

  datatype Result<+T> = Ok(value: T) | Err(error: PyError)

  datatype Option<+T> = None | Some(value: T)
}
