/**
 The failures the services raise and the result type that carries them.
 Each constructor stands for one exception class of the application
 (`NotFoundException`, `UnauthorizedException`, `DuplicateException`) or, for
 `Unexpected`, for any other exception that reaches the web layer.
 */
module Errors {

  datatype Failure =
    | NotFound(message: string)
    | Unauthorized(message: string)
    | Duplicate(message: string)
    | Unexpected(message: string)

  /** The messages the services attach to the failures they raise. */
  const UserNotFound := "User not found"
  const TodoNotFound := "Todo not found"
  const AccessDenied := "Unauthorized access to todo"
  const EmailExists := "Email already exists"

  /** A value, or the failure that was thrown instead; usable with `:-`. */
  datatype Result<+T> = Ok(value: T) | Err(failure: Failure) {

    predicate IsFailure() {
      Err?
    }

    function PropagateFailure<U>(): Result<U>
      requires Err?
    {
      Err(failure)
    }

    function Extract(): T
      requires Ok?
    {
      value
    }
  }
}
