/** How the engine reports an outcome. The source raises an exception
    inside the computation and the caller turns it into an error message
    (project.py:71-72, 98-99); here the exception is a `Failure` value. */
module Outcomes {

  /** The ways a computation in the source can fail. */
  datatype Error =
    | DivisionByZero       // the step divides the range by a zero interval count
    | EmptySamples         // the first sample of an empty grid is read
    | NegativeSampleCount  // a grid with a negative number of points is asked for
    | LengthMismatch       // unequal numbers of x and y values

  datatype Result<T> = Success(value: T) | Failure(error: Error)
}
