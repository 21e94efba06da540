/** Option and Result, plus the Java exception kinds the services raise. */
module Wrappers {

  /** `null` / `Optional.empty()` on the Java side. */
  datatype Option<+T> = None | Some(value: T)

  /** The exception classes the core throws; the kind decides the HTTP status
      at the API edge, the message is what the client reads. */
  datatype ExceptionKind =
    | IllegalArgument       // java.lang.IllegalArgumentException
    | EntityNotFound        // javax.persistence.EntityNotFoundException
    | NoSuchElement         // java.util.NoSuchElementException (Optional.get)
    | IncorrectResultSize   // Spring Data: a single-result query matched several rows
    | NullPointer           // Objects.requireNonNull
    | IndexOutOfBounds      // ArrayIndexOutOfBoundsException
    | AuthUserNotFound      // AuthUserNotFoundException
    | Authentication        // AuthenticationException
    | UsernameNotFound      // Spring Security UsernameNotFoundException

  datatype Failure = Failure(kind: ExceptionKind, message: string)

  /** A service call either returns a value or throws. */
  datatype Result<+T> = Ok(value: T) | Err(error: Failure)
}
