/** Option and Result values standing in for Python's `None` and for raised exceptions. */
module Wrappers {

  datatype Option<+T> = None | Some(value: T)

  /** The two exceptions the core raises. */
  datatype Error =
    | TypeError(message: string)   // an argument of an unsupported type
    | DocumentNotTerminal          // a path segment follows an already matched document

  datatype Result<+T> = Ok(value: T) | Err(error: Error)

  /** The outcome of a call that returns nothing but may raise. */
  function StatusOf<T>(x: Result<T>): (r: Result<()>)
    ensures r.Ok? <==> x.Ok?
    ensures r.Err? ==> r.error == x.error
  {
    if x.Ok? then Ok(()) else Err(x.error)
  }
}
