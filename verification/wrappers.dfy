/** Failure-carrying results shared by every module of the model.
    The source reports failures by throwing .NET exceptions; the model
    returns the kind of exception instead. */
module Wrappers {

  /** A value that may be absent; also stands for a nullable .NET reference. */
  datatype Option<+T> = None | Some(value: T) {
    predicate IsFailure() { None? }

    function PropagateFailure<U>(): Option<U>
      requires None?
    {
      None
    }

    function Extract(): T
      requires Some?
    {
      value
    }

    function GetOr(default: T): T {
      match this
      case Some(v) => v
      case None => default
    }
  }

  /** The .NET exception types the modelled code throws. */
  datatype Error =
    | ArgumentNull        // System.ArgumentNullException
    | ArgumentOutOfRange  // System.ArgumentOutOfRangeException
    | Argument            // System.ArgumentException
    | Format              // System.FormatException
    | InvalidOperation    // System.InvalidOperationException
    | Application         // System.ApplicationException
    | IndexOutOfRange     // System.IndexOutOfRangeException
    | Overflow            // System.OverflowException
    | NullReference       // System.NullReferenceException
    | DbUpdate            // a failed SaveChanges (constraint violation)
    | Generic             // a plain System.Exception

  /** Either a value or the exception the call throws. */
  datatype Result<+T> = Ok(value: T) | Err(error: Error) {
    predicate IsFailure() { Err? }

    function PropagateFailure<U>(): Result<U>
      requires Err?
    {
      Err(error)
    }

    function Extract(): T
      requires Ok?
    {
      value
    }
  }
}
