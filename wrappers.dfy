/** Null-or-value and value-or-failure, standing for Java's nullable references and thrown exceptions. */
module Wrappers {

  datatype Option<+T> = None | Some(value: T)

  datatype Result<+T, +E> = Ok(value: T) | Err(error: E)
}

/** The failures the service raises as ApplicationException; only the HTTP status they carry is kept. */
module Errors {

  datatype ErrorKind =
    | NotFound    // 404
    | Forbidden   // 403
    | Conflict    // 409
    | BadRequest  // 400
}
