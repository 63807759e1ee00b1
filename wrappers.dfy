/** Small failure-carrying datatypes shared by the selectors. */
module Wrappers {

  datatype Option<+T> = None | Some(value: T)

  datatype Result<+R, +E> = Success(value: R) | Failure(error: E)

  /** The Python exceptions the immunization functions can raise. */
  datatype Exception =
    | ZeroDivisionError  // dividing by the size of an empty network
    | IndexError         // taking element [0] of an empty answer, or choosing from an empty tuple
    | ValueError         // random.sample asked for a negative or too large sample
}
