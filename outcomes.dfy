/** The error values and the three ways an operation of the contract can end. */
module Outcomes {

  datatype Option<T> = None | Some(value: T)

  /** The errors the contract raises, each with the message text it builds. */
  datatype Error =
    | NotFound(message: string)     // a key the operation needs holds no value
    | Unsupported(message: string)  // a document type outside the supported three
    | Undefined(name: string)       // a JavaScript ReferenceError on an undeclared variable

  /** An operation either completes with a value, throws, or completes
      normally with an `Error` object as its return value (CreateDocument
      does the last: it returns its errors instead of throwing them). */
  datatype Result<T> = Ok(value: T) | Thrown(error: Error) | Returned(error: Error)
}
