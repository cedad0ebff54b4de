/** Small result types shared by every handler of the backend. */
module Wrappers {

  datatype Option<T> = None | Some(value: T)

  /** The ORM's treatment of an `undefined` field in update data: keep the
      column's current value. */
  function Otherwise<T>(o: Option<T>, current: T): (r: T)
    ensures o.Some? ==> r == o.value
    ensures o.None? ==> r == current
  {
    match o
    case None => current
    case Some(v) => v
  }

  /** What an HTTP handler sends: a success status with a body, or an error
      status with the `message`/`error` text of the JSON error body. */
  datatype Reply<T> = Ok(code: nat, body: T) | Err(code: nat, message: string)

  /** The outcome of a chain of request validations: all passed, or the first
      failing check with the status and message it responds with. */
  datatype Check = Pass | Reject(code: nat, message: string)
}
