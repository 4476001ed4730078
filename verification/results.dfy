/** The ways the Paraline profile computation fails, and a Result type that
    carries either a value or one of them. */
module Results {

  /** Each failure is the exception one expression of the generator raises. */
  datatype Failure =
    | ZeroResolution   // 2 / resolution with resolution = 0: division by zero
    | SingleStep       // i / (num_steps - 1) with num_steps = 1: division by zero
    | ZeroHeight       // B's denominator 2H with H = 0: division by zero
    | NoPoints         // the first point of an empty point list: index error

  /** Either the computed value or the failure that stopped the computation. */
  datatype Result<+T> = Ok(value: T) | Err(error: Failure) {

    predicate IsFailure() {
      Err?
    }

    function PropagateFailure<U>(): Result<U>
      requires Err?
    {
      Err(error)
    }

    function Extract(): T
      requires Ok?
    {
      value
    }
  }
}
