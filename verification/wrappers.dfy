/** Failure-carrying result types and the Python exceptions the modelled code can raise. */
module Wrappers {

  /** A value that may be absent: Python's `None` versus an object. */
  datatype Option<+T> = None | Some(value: T)

  /** Either the value a Python function returns or the exception it raises. */
  datatype Result<+T, +E> = Success(value: T) | Failure(error: E)

  /** The exceptions that escape the modelled functions. */
  datatype PyError =
    | AttributeError(message: string)
    | IndexError
    | ValueError
    | UnboundLocalError

  /** The message Python gives when `find_all` is called on the None that `find` returned. */
  const NoneHasNoFindAll := "'NoneType' object has no attribute 'find_all'"
}
