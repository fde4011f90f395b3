/** Failure-carrying values shared by the whole model. */
module Results {

  /** A value that may be absent: Python's `None` or a missing key. */
  datatype Option<+T> = None | Some(value: T) {
    function GetOr(default: T): T {
      match this
      case Some(v) => v
      case None => default
    }
  }

  /** The exceptions the payroll engine lets escape to its caller. */
  datatype Error =
    | EmployeeNotFound   // `ValueError("Employee … not found")`
    | InvalidTimeFormat  // `int()` refused a clock field
    | DateOverflow       // date arithmetic left Python's date range

  /** A computed value, or the exception that aborted the computation. */
  datatype Result<+T> = Ok(value: T) | Err(error: Error) {
    predicate IsFailure() {
      Err?
    }

    function PropagateFailure<U>(): Result<U>
      requires Err?
    {
      Err(error)
    }

    function Extract(): T
      requires Ok?
    {
      value
    }
  }
}
