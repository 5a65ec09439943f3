/** Option and Result values, and the exception classes that cross the
    boundaries of the ingestion core. */
module Errors {

  datatype Option<+T> = None | Some(value: T)

  /** A Python call either returns a value or raises an exception. */
  datatype Result<+T, +E> = Ok(value: T) | Err(error: E) {
    predicate IsFailure() { Err? }

    function PropagateFailure<U>(): Result<U, E>
      requires Err?
    {
      Err(error)
    }

    function Extract(): T
      requires Ok?
    {
      value
    }
  }

  /** The exception classes raised or caught by the core. */
  datatype Exc =
    | RuntimeError(message: string)  // the builtin RuntimeError
    | PsycopgError                   // psycopg.Error (psycopg 3), raised by the loader
    | Psycopg2Error                  // psycopg2.Error: named by the poller's handler, raised by nothing here
    | RequestError                   // requests.RequestException and its subclasses
    | ValidationError                // pydantic.ValidationError
    | ValueError                     // the builtin ValueError (range() with a zero step)
    | AttributeError(name: string)   // lookup of a method the object does not define

  /** The error the loader raises when it has no open connection. */
  const NotConnected: Exc := RuntimeError("Not connected to database")
}
