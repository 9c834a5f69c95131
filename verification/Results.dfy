/** The outcome of an operation that may throw a RangeError. */
module Results {
  datatype Result<+T> = Ok(value: T) | RangeError {
    predicate IsFailure() {
      RangeError?
    }

    function PropagateFailure<U>(): Result<U>
      requires RangeError?
    {
      RangeError
    }

    function Extract(): T
      requires Ok?
    {
      value
    }
  }
}
