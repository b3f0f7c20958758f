/** Failure-carrying values used in place of JavaScript's `null` and thrown exceptions. */
module Wrappers {

  datatype Option<+T> = None | Some(value: T)

  /** The exceptions the modelled code can raise. */
  datatype Error =
    | InvalidUrl(input: string)   // `new URL(...)` / `new Request(...)` throws a TypeError
    | UriError(input: string)     // `decodeURI` / `decodeURIComponent` throws a URIError

  datatype Result<+T> = Ok(value: T) | Err(error: Error)
}
