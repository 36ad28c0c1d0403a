/** Option and Result types shared by every module of the model. */
module Wrappers {

  /** A value that may be absent: JavaScript's `null` / `undefined`. */
  datatype Option<+T> = None | Some(value: T)

  /** The JavaScript TypeError raised when a property is read from a missing value. */
  datatype JsError =
    | ReadOfNull(property: string)       // "Cannot read properties of null (reading 'p')"
    | ReadOfUndefined(property: string)  // "Cannot read properties of undefined (reading 'p')"

  /** The outcome of a function that either returns normally or throws. */
  datatype Result<+T> = Ok(value: T) | Throws(error: JsError)
}
