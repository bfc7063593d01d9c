/** Optional values, fallible results and the crate's error type. */
module Wrappers {

  datatype Option<+T> = None | Some(value: T)

  datatype CryptoError =
    | InvalidInput(reason: string)
    | VerificationFailed
    | Backend(reason: string)

  datatype Result<+T> = Ok(value: T) | Err(error: CryptoError) {
    predicate IsFailure() { Err? }

    function PropagateFailure<U>(): Result<U>
      requires Err?
    {
      Err(error)
    }

    function Extract(): T
      requires Ok?
    {
      value
    }
  }

  /** The value inside, or the given error. */
  function OkOr<T>(o: Option<T>, error: CryptoError): (r: Result<T>)
    ensures r.Ok? <==> o.Some?
    ensures r.Ok? ==> r.value == o.value
  {
    if o.Some? then Ok(o.value) else Err(error)
  }
}
