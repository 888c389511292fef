/** Result types shared by every component. */
module Outcomes {

  datatype Option<+T> = None | Some(value: T)

  /** The result of a Go function that returns a value, returns an error, or panics
      (a panic inside a request handler is recovered above it and answered with an error). */
  datatype Outcome<+T> = Done(value: T) | Err | Panic {
    predicate IsFailure() { !Done? }

    function PropagateFailure<U>(): Outcome<U>
      requires IsFailure()
    {
      if Err? then Err else Panic
    }

    function Extract(): T
      requires !IsFailure()
    {
      value
    }
  }
}
