/** Results shared by the whole model: an optional value, the Python exceptions
    the exporter can raise, and the outcome of an operation that either returns,
    raises, or ends the process with `os._exit`. */
module Base {

  datatype Option<+T> = None | Some(value: T)

  /** The exceptions the core can raise, as Python would name them. */
  datatype Raised =
    | RequestError                 // requests raised (connection failure, timeout)
    | JsonDecodeError              // the token response body is not JSON
    | TypeError                    // the token response body is JSON but not an object
    | KeyError(key: string)        // a dictionary lookup of a missing key
    | UnpackError(parts: nat)      // `a, b = value.split(";")` with the wrong number of parts
    | IntValueError(text: string)  // `int(text)` on text that is not a base-10 integer

  /** What an operation of the exporter ends with. */
  datatype Outcome<+T> =
    | Ok(value: T)
    | Raise(error: Raised)
    | Exit(code: int)              // `os._exit(code)`: the process stops at once
  {
    /** With `PropagateFailure` and `Extract`, lets `:-` pass a raise or an
        exit on to the caller. */
    predicate IsFailure() { !Ok? }

    /** The same failure, at another result type. */
    function PropagateFailure<U>(): (r: Outcome<U>)
      requires !Ok?
      ensures r.Raise? <==> Raise?
      ensures Raise? ==> r.error == error
      ensures Exit? ==> r.Exit? && r.code == code
    {
      match this
      case Raise(e) => Raise(e)
      case Exit(c) => Exit(c)
    }

    function Extract(): T
      requires Ok?
    {
      value
    }
  }
}
