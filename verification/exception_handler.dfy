/** `GlobalExceptionHandler`: the two service exceptions it maps to an error
    response. Any other exception is not handled here. */
module ExceptionHandler {
  import opened Common
  import opened Domain
  import opened Http

  const FailureStatus := "Failure"

  /** The response for `e`, or `None` when no handler covers it. */
  function Handle(e: ServiceError): (r: Option<Response>)
    ensures r.Some? <==> e.UserAlreadyExists? || e.UserNotFound?
    ensures r.Some? ==> (r.value.status == 409 <==> e.UserAlreadyExists?)
    ensures r.Some? ==> (r.value.status == 400 <==> e.UserNotFound?)
    ensures r.Some? ==> r.value.body == ErrorBody(ErrorDto(e.message, "Failure"))
  {
    match e
    case UserAlreadyExists(message) => Some(Response(StatusConflict, ErrorBody(ErrorDto(message, FailureStatus))))
    case UserNotFound(message) => Some(Response(StatusBadRequest, ErrorBody(ErrorDto(message, FailureStatus))))
    case _ => None
  }
}
