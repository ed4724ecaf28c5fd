/** The error kinds of the client: one per exception class of the package,
    and one for the exceptions of the libraries it calls. */
module Exceptions {

  datatype Error =
    | IncorrectCredentials   // IncorrectCredentialsError: raised when the portal refuses the UID and password
    | UIMSInternal           // UIMSInternalError: declared by the package; never raised by session.py
    | PasswordExpired        // PasswordExpiredError: declared by the package; never raised by session.py
    | Foreign                // an exception of requests or json (network failure, missing key, bad JSON) passed through unchanged

  /** A value, or the exception that was raised instead of producing it. */
  datatype Result<T> = Ok(value: T) | Err(error: Error)

  datatype Option<T> = None | Some(value: T)
}
