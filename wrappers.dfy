/** Option and Result, and the Python exceptions the modelled code can raise. */
module Wrappers {

  datatype Option<+T> = None | Some(value: T)

  /** The exceptions of the preprocessing code that the model keeps. */
  datatype Error =
    | ValueError                 // int() of a string that is not an integer
    | IndexError                 // a list index out of range
    | ZeroDivisionError          // floor division by zero
    | FileNotFound(name: string) // open() or os.listdir() of a missing entry

  /** The outcome of a Python computation: a value, or the exception it raised. */
  datatype Result<+T> = Ok(value: T) | Err(error: Error)
}
