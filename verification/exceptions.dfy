/** The runtime exceptions the modelled code can raise, and a result that may carry one. */
module Exceptions {

  /**
   NullReference: a member access through a null reference.
   EmptySequence: `Last()` on an empty list ("Sequence contains no elements").
   */
  datatype Exception = NullReference | EmptySequence

  datatype Result<+T> = Success(value: T) | Throws(exception: Exception)
}
