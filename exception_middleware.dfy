/** HTTP responses of the book API and the global exception handler
    (LibraryAPI.API/Middleware/GlobalExceptionMiddleware.cs), which turns any
    exception escaping a controller into a JSON error response. */
module Http {
  import opened Domain
  import opened Mappings
  import opened Validation

  /** The JSON body the exception handler writes. */
  datatype ErrorResponse = ErrorResponse(statusCode: int, message: string, detailedMessage: string)

  datatype Body =
    | NoBody
    | BookBody(book: BookDto)
    | BookListBody(books: seq<BookDto>)
    | CreatedBody(location: Guid, created: BookDto)
    | ErrorBody(error: ErrorResponse)
    | ValidationProblem(failures: seq<ValidationFailure>)

  datatype HttpResponse = HttpResponse(status: int, body: Body)

  const OkStatus := 200
  const CreatedStatus := 201
  const NoContentStatus := 204
  const BadRequestStatus := 400
  const UnauthorizedStatus := 401
  const ForbiddenStatus := 403
  const NotFoundStatus := 404
  const InternalServerErrorStatus := 500
}

module ExceptionMiddleware {
  import opened Errors
  import opened Http

  /** GetStatusCode: 404 for a NotFoundException, 500 for every other
      exception, so a client error is reported only for a missing resource. */
  function StatusCodeOf(e: Exception): (code: int)
    ensures code == NotFoundStatus <==> e.NotFound?
    ensures code == InternalServerErrorStatus <==> !e.NotFound?
  {
    match e
    case NotFound(_) => NotFoundStatus
    case _ => InternalServerErrorStatus
  }

  /** GetMessage: the generic message chosen by the same test as the status. */
  function MessageOf(e: Exception): (m: string)
    ensures m == "Resource not found" <==> e.NotFound?
    ensures m == "Internal server error" <==> !e.NotFound?
  {
    match e
    case NotFound(_) => "Resource not found"
    case _ => "Internal server error"
  }

  /** HandleExceptionAsync: the response carries the computed status both as
      its HTTP status and in its body, next to the generic message and the
      exception's own message. */
  function HandleException(e: Exception): (resp: HttpResponse)
    ensures resp.body.ErrorBody?
    ensures resp.status == resp.body.error.statusCode == StatusCodeOf(e)
    ensures resp.body.error.message == MessageOf(e)
    ensures resp.body.error.detailedMessage == e.Message()
  {
    var body := ErrorResponse(StatusCodeOf(e), MessageOf(e), e.Message());
    HttpResponse(body.statusCode, ErrorBody(body))
  }

  /** InvokeAsync: the response of the rest of the pipeline, or the error
      response of the exception it threw. */
  function Invoke(next: Result<HttpResponse>): (resp: HttpResponse)
    ensures next.Ok? ==> resp == next.value
    ensures next.Err? ==> resp == HandleException(next.error)
  {
    match next
    case Ok(r) => r
    case Err(e) => HandleException(e)
  }

  /** The lifecycle guards and the entity's guard clauses are reported as
      internal server errors, not as client errors. */
  lemma GuardFailuresAreServerErrors(paramName: string, text: string)
    ensures HandleException(InvalidOperation("Book is already borrowed.")).status == InternalServerErrorStatus
    ensures HandleException(InvalidOperation("Book is already available.")).status == InternalServerErrorStatus
    ensures HandleException(InvalidOperation("Book is already borrowed.")).body.error.detailedMessage
      == "Book is already borrowed."
    ensures HandleException(Argument(paramName, text)).status == InternalServerErrorStatus
    ensures HandleException(Argument(paramName, text)).body.error.message == "Internal server error"
  {
  }
}
