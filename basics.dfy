/** Failure-carrying wrappers and the exceptions the application can raise. */
module Basics {

  datatype Option<T> = None | Some(value: T)

  datatype Result<T, E> = Success(value: T) | Failure(error: E)

  datatype Outcome<E> = Pass | Fail(error: E)

  /** The Python exceptions that escape the modelled code. */
  datatype Error =
    | UnknownShape(name: string)    // UnboundLocalError: no branch of the dispatch assigned w, h, area
    | MissingParameter(key: string) // KeyError on the parameter dictionary
    | ZeroDivision                  // ZeroDivisionError: the board area is 0
}
