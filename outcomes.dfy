/** Option and Result types, and the Python exceptions the core can raise. */
module Outcomes {

  datatype Option<T> = None | Some(value: T)

  /** The exceptions the script lets propagate out of the modelled code. */
  datatype PyError =
    | FileNotFound(path: string)  // open() of a path that does not exist
    | TypeError                   // subscripting the None that get_between returned
    | IndexError                  // a list index past the end
    | ValueError                  // int() of a string that is not a number

  datatype Result<T> = Ok(value: T) | Err(error: PyError) {
    predicate IsFailure() { Err? }

    function PropagateFailure<U>(): Result<U>
      requires Err?
    {
      Err(error)
    }

    function Extract(): T
      requires Ok?
    {
      value
    }
  }
}
