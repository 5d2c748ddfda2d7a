/** Optional values, the failure kinds of the application and a failure-compatible
    Result, so that every operation returns either a value or the exception it throws. */
module Outcomes {

  /** A nullable reference or nullable value (`string?`, `int?`). */
  datatype Option<+T> = None | Some(value: T)

  /** One variant per exception the stores, the adapter and the service can throw. */
  datatype Error =
    | NullResult                 // NullResultException: an expected entity or collection is absent or empty
    | InvalidLocation            // InvalidLocationException: a location name or id does not resolve
    | Database(message: string)  // DatabaseException: the context or a table is not initialised
    | NullReference              // the runtime's NullReferenceException: a null location name was dereferenced

  /** Message of a DatabaseException built with its parameterless constructor. */
  const DefaultDatabaseMessage: string := "Currently we have problem with our database server!! Try again later!!"

  /** Message the location store gives when its table is not initialised. */
  const ContextNotInitialized: string := "Context not Initialized"

  datatype Result<+T> = Ok(value: T) | Err(error: Error) {

    predicate IsFailure() {
      Err?
    }

    function PropagateFailure<U>(): Result<U>
      requires Err?
    {
      Err(error)
    }

    function Extract(): T
      requires Ok?
    {
      value
    }
  }
}
