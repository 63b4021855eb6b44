/**
 The web layer's exception handler: a total map from a failure to the HTTP
 status and message body the client receives.
 */
module GlobalExceptionHandler {
  import opened Errors

  const NotFoundStatus := 404
  const UnauthorizedStatus := 401
  const ConflictStatus := 409
  const InternalServerErrorStatus := 500

  /** The body sent for every failure the handler does not know by type. */
  const UnexpectedErrorMessage := "An unexpected error occurred"

  datatype ErrorResponse = ErrorResponse(status: int, message: string)

  /** Whether two failures are of the same exception type. */
  predicate SameKind(f: Failure, g: Failure) {
    || (f.NotFound? && g.NotFound?)
    || (f.Unauthorized? && g.Unauthorized?)
    || (f.Duplicate? && g.Duplicate?)
    || (f.Unexpected? && g.Unexpected?)
  }

  /**
   The response for a failure: the three application exceptions keep their
   own message, anything else becomes a 500 whose body hides the cause.
   */
  function Handle(f: Failure): (r: ErrorResponse)
    ensures r.status in {NotFoundStatus, UnauthorizedStatus, ConflictStatus, InternalServerErrorStatus}
    ensures f.Unexpected? ==> r.message == UnexpectedErrorMessage
    ensures !f.Unexpected? ==> r.message == f.message
  {
    match f
    case NotFound(message) => ErrorResponse(NotFoundStatus, message)
    case Unauthorized(message) => ErrorResponse(UnauthorizedStatus, message)
    case Duplicate(message) => ErrorResponse(ConflictStatus, message)
    case Unexpected(_) => ErrorResponse(InternalServerErrorStatus, UnexpectedErrorMessage)
  }

  /** The status alone tells the client which kind of failure occurred. */
  lemma StatusIdentifiesKind(f: Failure, g: Failure)
    ensures Handle(f).status == Handle(g).status <==> SameKind(f, g)
  {
  }

  /** Each status belongs to one failure kind. */
  lemma StatusOfEachKind(f: Failure)
    ensures Handle(f).status == NotFoundStatus <==> f.NotFound?
    ensures Handle(f).status == UnauthorizedStatus <==> f.Unauthorized?
    ensures Handle(f).status == ConflictStatus <==> f.Duplicate?
    ensures Handle(f).status == InternalServerErrorStatus <==> f.Unexpected?
  {
  }

  /** Two unexpected failures produce the same response, whatever their messages. */
  lemma UnexpectedNeverLeaks(f: Failure, g: Failure)
    requires f.Unexpected? && g.Unexpected?
    ensures Handle(f) == Handle(g)
  {
  }
}
