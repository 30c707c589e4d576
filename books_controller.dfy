/** The book endpoints (LibraryAPI.API/Controllers/V1/BooksController.cs):
    the role each one demands, the rule that a false or null handler result
    is a NotFoundException, and one request's path through authorization,
    request validation, the action and the exception handler. */
module BooksController {
  import opened Errors
  import opened Domain
  import opened Mappings
  import opened Validation
  import opened Repository
  import opened Handlers
  import opened Http
  import opened ExceptionMiddleware

  datatype Endpoint = GetAll | GetById | Create | Update | Delete | Borrow | Return

  /** An authorization attribute: AllowAnonymous, or Authorize with a list of roles. */
  datatype Policy = AllowAnonymous | RequireRoles(roles: set<string>)

  /** The caller as the bearer token describes it; a missing or rejected
      token leaves the caller anonymous. */
  datatype Principal = Anonymous | Authenticated(username: string, role: string)

  /** The authorization outcome: run the action, challenge (401) or forbid (403). */
  datatype AuthDecision = Allow | Challenge | Forbid

  const AdminRole := "admin"
  const UserRole := "user"

  /** The attributes on each action. */
  function PolicyOf(e: Endpoint): Policy {
    match e
    case GetAll => AllowAnonymous
    case GetById => AllowAnonymous
    case Create => RequireRoles({AdminRole})
    case Update => RequireRoles({AdminRole})
    case Delete => RequireRoles({AdminRole})
    case Borrow => RequireRoles({UserRole, AdminRole})
    case Return => RequireRoles({UserRole, AdminRole})
  }

  /** Role authorization: an anonymous caller is challenged, an authenticated
      caller whose role is not listed (compared exactly) is forbidden. */
  function Authorize(p: Policy, user: Principal): AuthDecision {
    match p
    case AllowAnonymous => Allow
    case RequireRoles(roles) =>
      if user.Anonymous? then Challenge
      else if user.role in roles then Allow
      else Forbid
  }

  /** The access table: anyone may read; only an admin may create, update or
      delete; a user or an admin may borrow and return; an anonymous caller of
      a protected endpoint gets 401 and a caller with another role 403. */
  function Access(e: Endpoint, user: Principal): (d: AuthDecision)
    ensures e in {GetAll, GetById} ==> d == Allow
    ensures e in {Create, Update, Delete} ==>
      (d == Allow <==> user.Authenticated? && user.role == AdminRole)
    ensures e in {Borrow, Return} ==>
      (d == Allow <==> user.Authenticated? && (user.role == UserRole || user.role == AdminRole))
    ensures e !in {GetAll, GetById} ==> (d == Challenge <==> user.Anonymous?)
    ensures d == Forbid <==> user.Authenticated? && d != Allow
  {
    Authorize(PolicyOf(e), user)
  }

  /** The rule in Update, Delete, Borrow and Return: false becomes a
      NotFoundException, true a 204 No Content, and a handler's exception
      passes through. */
  function NoContentOrNotFound(handled: Result<bool>): (r: Result<HttpResponse>)
    ensures handled.Ok? ==> (r == Err(NotFound("Book not found")) <==> !handled.value)
    ensures r == Ok(HttpResponse(NoContentStatus, NoBody)) <==> handled == Ok(true)
    ensures handled.Err? ==> r == Err(handled.error)
  {
    match handled
    case Ok(found) =>
      if found then Ok(HttpResponse(NoContentStatus, NoBody)) else Err(NotFound("Book not found"))
    case Err(e) => Err(e)
  }

  /** The rule in GetById: null becomes a NotFoundException, a DTO a 200. */
  function OkOrNotFound(found: Option<BookDto>): (r: Result<HttpResponse>)
    ensures r == Err(NotFound("Book not found")) <==> found.None?
    ensures found.Some? ==> r == Ok(HttpResponse(OkStatus, BookBody(found.value)))
  {
    match found
    case None => Err(NotFound("Book not found"))
    case Some(dto) => Ok(HttpResponse(OkStatus, BookBody(dto)))
  }

  /** A request to the book endpoints, after routing and body binding. */
  datatype Request =
    | GetAllBooks
    | GetBook(id: Guid)
    | CreateBook(create: CreateBookRequest)
    | UpdateBook(id: Guid, update: UpdateBookRequest)
    | DeleteBook(id: Guid)
    | BorrowBook(id: Guid)
    | ReturnBook(id: Guid)
  {
    function Endpoint(): Endpoint {
      match this
      case GetAllBooks => GetAll
      case GetBook(_) => GetById
      case CreateBook(_) => Create
      case UpdateBook(_, _) => Update
      case DeleteBook(_) => Delete
      case BorrowBook(_) => Borrow
      case ReturnBook(_) => Return
    }
  }

  /** The action each endpoint runs once authorization and validation let the
      request through; an exception is the `Err` result. */
  method RunAction(repo: BookRepository, req: Request, newId: Guid) returns (r: Result<HttpResponse>)
    requires repo.Valid()
    modifies repo
    ensures repo.Valid()
    ensures req.GetAllBooks? ==>
      && r.Ok? && r.value.status == OkStatus && r.value.body.BookListBody?
      && |r.value.body.books| == |old(repo.order)| == |old(repo.rows)|
      && (forall i :: 0 <= i < |old(repo.order)| ==>
            old(repo.order)[i] in old(repo.rows) && r.value.body.books[i] == ToDto(old(repo.rows)[old(repo.order)[i]]))
    ensures req.GetAllBooks? || req.GetBook? ==> repo.rows == old(repo.rows) && repo.order == old(repo.order)
    ensures req.GetBook? ==> r == OkOrNotFound(
      if req.id in old(repo.rows) then Some(ToDto(old(repo.rows)[req.id])) else None)
    ensures req.CreateBook? && newId !in old(repo.rows) ==>
      && r == Ok(HttpResponse(CreatedStatus, CreatedBody(newId, ToDto(Mapped(req.create, newId)))))
      && repo.rows == old(repo.rows)[newId := Mapped(req.create, newId)]
      && repo.order == old(repo.order) + [newId]
    ensures req.CreateBook? && newId in old(repo.rows) ==>
      r == Err(Db("Duplicate key")) && repo.rows == old(repo.rows) && repo.order == old(repo.order)
    ensures !req.GetAllBooks? && !req.CreateBook? && req.id !in old(repo.rows) ==>
      r == Err(NotFound("Book not found")) && repo.rows == old(repo.rows) && repo.order == old(repo.order)
    ensures req.UpdateBook? || req.BorrowBook? || req.ReturnBook? ==> repo.order == old(repo.order)
    ensures req.DeleteBook? && req.id in old(repo.rows) ==>
      exists k :: 0 <= k < |old(repo.order)| && old(repo.order)[k] == req.id
        && repo.order == old(repo.order)[..k] + old(repo.order)[k + 1..]
    ensures req.UpdateBook? && req.id in old(repo.rows) ==>
      var (after, thrown) := DetailsUpdated(old(repo.rows)[req.id], req.update.title, req.update.author,
                                            req.update.publicationYear, req.update.genre);
      && (thrown.None? ==> r == Ok(HttpResponse(NoContentStatus, NoBody)) && repo.rows == old(repo.rows)[req.id := after])
      && (thrown.Some? ==> r == Err(thrown.value) && repo.rows == old(repo.rows))
    ensures req.DeleteBook? && req.id in old(repo.rows) ==>
      r == Ok(HttpResponse(NoContentStatus, NoBody)) && repo.rows == old(repo.rows) - {req.id}
    ensures req.BorrowBook? && req.id in old(repo.rows) ==>
      match BorrowTransition(old(repo.rows)[req.id])
      case Ok(after) => r == Ok(HttpResponse(NoContentStatus, NoBody)) && repo.rows == old(repo.rows)[req.id := after]
      case Err(e) => r == Err(e) && repo.rows == old(repo.rows)
    ensures req.ReturnBook? && req.id in old(repo.rows) ==>
      match ReturnTransition(old(repo.rows)[req.id])
      case Ok(after) => r == Ok(HttpResponse(NoContentStatus, NoBody)) && repo.rows == old(repo.rows)[req.id := after]
      case Err(e) => r == Err(e) && repo.rows == old(repo.rows)
  {
    match req {
      case GetAllBooks =>
        var books := Handlers.GetAllBooks(repo);
        r := Ok(HttpResponse(OkStatus, BookListBody(books)));
      case GetBook(id) =>
        var found := Handlers.GetBookById(repo, id);
        r := OkOrNotFound(found);
      case CreateBook(body) =>
        var created := Handlers.CreateBook(repo, body, newId);
        match created {
          case Ok(dto) => r := Ok(HttpResponse(CreatedStatus, CreatedBody(dto.id, dto)));
          case Err(e) => r := Err(e);
        }
      case UpdateBook(id, body) =>
        var handled := Handlers.UpdateBook(repo, id, body);
        r := NoContentOrNotFound(handled);
      case DeleteBook(id) =>
        var handled := Handlers.DeleteBook(repo, id);
        r := NoContentOrNotFound(handled);
      case BorrowBook(id) =>
        var handled := Handlers.BorrowBook(repo, id);
        r := NoContentOrNotFound(handled);
      case ReturnBook(id) =>
        var handled := Handlers.ReturnBook(repo, id);
        r := NoContentOrNotFound(handled);
    }
  }

  /** One request through the pipeline: authorization first (401/403 with the
      store untouched), then the automatic validation of a create body (400),
      then the action, whose exception the global handler turns into 404 or 500. */
  method Serve(repo: BookRepository, user: Principal, req: Request, newId: Guid) returns (resp: HttpResponse)
    requires repo.Valid()
    modifies repo
    ensures repo.Valid()
    ensures Access(req.Endpoint(), user) == Challenge ==>
      resp == HttpResponse(UnauthorizedStatus, NoBody) && repo.rows == old(repo.rows) && repo.order == old(repo.order)
    ensures Access(req.Endpoint(), user) == Forbid ==>
      resp == HttpResponse(ForbiddenStatus, NoBody) && repo.rows == old(repo.rows) && repo.order == old(repo.order)
    ensures Access(req.Endpoint(), user) == Allow && req.CreateBook? && !IsValid(req.create) ==>
      resp == HttpResponse(BadRequestStatus, ValidationProblem(Validate(req.create)))
      && repo.rows == old(repo.rows) && repo.order == old(repo.order)
    ensures Access(req.Endpoint(), user) == Allow && req.CreateBook? && IsValid(req.create) && newId !in old(repo.rows) ==>
      && resp == HttpResponse(CreatedStatus, CreatedBody(newId, ToDto(Mapped(req.create, newId))))
      && repo.rows == old(repo.rows)[newId := Mapped(req.create, newId)]
      && repo.order == old(repo.order) + [newId]
    ensures req.CreateBook? && newId in old(repo.rows) ==>
      && repo.rows == old(repo.rows) && repo.order == old(repo.order)
      && (Access(req.Endpoint(), user) == Allow && IsValid(req.create) ==> resp.status == InternalServerErrorStatus)
    ensures !req.CreateBook? && !req.DeleteBook? ==> repo.order == old(repo.order)
    ensures Access(req.Endpoint(), user) == Allow && !req.GetAllBooks? && !req.CreateBook? && req.id !in old(repo.rows) ==>
      && resp.status == NotFoundStatus
      && resp.body == ErrorBody(ErrorResponse(NotFoundStatus, "Resource not found", "Book not found"))
      && repo.rows == old(repo.rows) && repo.order == old(repo.order)
    ensures Access(req.Endpoint(), user) == Allow && (req.GetAllBooks? || req.GetBook?) ==>
      repo.rows == old(repo.rows) && repo.order == old(repo.order)
    ensures Access(req.Endpoint(), user) == Allow && req.GetAllBooks? ==>
      && resp.status == OkStatus && resp.body.BookListBody?
      && |resp.body.books| == |old(repo.order)| == |old(repo.rows)|
      && (forall i :: 0 <= i < |old(repo.order)| ==>
            old(repo.order)[i] in old(repo.rows) && resp.body.books[i] == ToDto(old(repo.rows)[old(repo.order)[i]]))
    ensures Access(req.Endpoint(), user) == Allow && req.GetBook? && req.id in old(repo.rows) ==>
      resp == HttpResponse(OkStatus, BookBody(ToDto(old(repo.rows)[req.id])))
    ensures Access(req.Endpoint(), user) == Allow && req.DeleteBook? && req.id in old(repo.rows) ==>
      && resp == HttpResponse(NoContentStatus, NoBody) && repo.rows == old(repo.rows) - {req.id}
      && exists k :: 0 <= k < |old(repo.order)| && old(repo.order)[k] == req.id
           && repo.order == old(repo.order)[..k] + old(repo.order)[k + 1..]
    ensures Access(req.Endpoint(), user) == Allow && req.UpdateBook? && req.id in old(repo.rows) ==>
      var (after, thrown) := DetailsUpdated(old(repo.rows)[req.id], req.update.title, req.update.author,
                                            req.update.publicationYear, req.update.genre);
      && (thrown.None? ==> resp == HttpResponse(NoContentStatus, NoBody) && repo.rows == old(repo.rows)[req.id := after])
      && (thrown.Some? ==>
            && resp == HandleException(thrown.value)
            && resp.status == InternalServerErrorStatus
            && repo.rows == old(repo.rows))
    ensures Access(req.Endpoint(), user) == Allow && req.BorrowBook? && req.id in old(repo.rows) ==>
      if old(repo.rows)[req.id].status == Borrowed then
        && resp == HandleException(InvalidOperation("Book is already borrowed."))
        && resp.status == InternalServerErrorStatus
        && repo.rows == old(repo.rows)
      else
        resp == HttpResponse(NoContentStatus, NoBody)
        && repo.rows == old(repo.rows)[req.id := old(repo.rows)[req.id].(status := Borrowed)]
    ensures Access(req.Endpoint(), user) == Allow && req.ReturnBook? && req.id in old(repo.rows) ==>
      if old(repo.rows)[req.id].status == Available then
        && resp == HandleException(InvalidOperation("Book is already available."))
        && resp.status == InternalServerErrorStatus
        && repo.rows == old(repo.rows)
      else
        resp == HttpResponse(NoContentStatus, NoBody)
        && repo.rows == old(repo.rows)[req.id := old(repo.rows)[req.id].(status := Available)]
  {
    match Access(req.Endpoint(), user) {
      case Challenge => return HttpResponse(UnauthorizedStatus, NoBody);
      case Forbid => return HttpResponse(ForbiddenStatus, NoBody);
      case Allow =>
    }
    if req.CreateBook? && Validate(req.create) != [] {
      return HttpResponse(BadRequestStatus, ValidationProblem(Validate(req.create)));
    }
    var outcome := RunAction(repo, req, newId);
    resp := Invoke(outcome);
  }
}
