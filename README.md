# Library management: a Dafny model

This project models the core of a small library application. It has an
ASP.NET backend with books, lending and JWT login, and a Next.js frontend.

Modelled parts of the backend:
- the `Book` entity with its guard clauses and its two-state lending status;
- the book repository over the database;
- the seven command and query handlers;
- the AutoMapper profile;
- the FluentValidation rules for a create request;
- the books controller, with its per-endpoint roles and its "false or null
  means NotFound" rule;
- the global exception middleware;
- the credential check of the login service.

Modelled parts of the frontend:
- the route guard (`middleware.ts`);
- the book form's zod schema and its default values.

Files and modules:

| file | module | what it holds |
|---|---|---|
| `errors.dfy` | `Errors` | the exceptions the core throws; `Option` for a nullable return; `Result` for a value or a thrown exception |
| `domain.dfy` | `Domain` | `class Book`, whose methods assign fields in place as the entity does; the value `BookState` and the specification functions `Constructed`, `BorrowTransition`, `ReturnTransition` and `DetailsUpdated` |
| `mappings.dfy` | `Mappings` | DTOs, request bodies, and the two maps of the profile |
| `validation.dfy` | `Validation` | the create-request validator |
| `repository.dfy` | `Repository` | `class BookRepository`: the stored rows (`map`) and their storage order (`seq`) |
| `handlers.dfy` | `Handlers` | the handlers as methods on the repository, and sequences of handler calls |
| `exception_middleware.dfy` | `Http`, `ExceptionMiddleware` | HTTP responses, and the exception-to-response mapping |
| `books_controller.dfy` | `BooksController` | the role table, the NotFound rules, and `Serve` (one request through authorization, validation, the action and the exception handler) |
| `auth.dfy` | `Auth` | `LoginAsync` as a first-match lookup plus a password comparison |
| `route_guard.dfy` | `RouteGuard` | the route classifiers and the redirect decision |
| `book_form.dfy` | `BookForm` | the schema's validity rules and `defaultValues` |

Modelling choices:
- Parameters stand in for I/O and outside code:
  - `Guid.NewGuid()` is the `newId` argument;
  - the current year is `currentYear`;
  - JWT signing is an opaque `token: (string, string) -> string`;
  - `jwtDecode` is a total function returning `Option`, where `None` is the throw.
- Every request gets a fresh database context. `GetById` therefore returns a
  new entity object built from the stored row. A change reaches the store
  only through `Add`, `Update` or `Delete`. Because of this, an
  `UpdateDetails` that throws halfway leaves its partial writes only in the
  loaded object. The store is unchanged (`Handlers.UpdateBook`).
- An exception is the `Err` side of a `Result`. An in-place method returns
  `Option<Exception>` next to its new state.
- The guard clauses throw `ArgumentException`s. Like the lending guards'
  `InvalidOperationException`, they reach the client as HTTP 500, never 400.
- Role names are compared exactly, so `"Admin"` is not `"admin"`.
- The route guard's prefix test also matches paths such as `/bookstore`.
- An empty `token` cookie counts as no token, because `!""` is true.
- The form's `min(1)` accepts `" "`, but the server's validator and guards
  reject it (`BookForm.WhitespaceAcceptedByFormRejectedByServer`).

## Model

| member | source | states |
|---|---|---|
| Domain.Constructed | LibraryAPI.Domain/Entities/Book.cs:21-29 | the full constructor succeeds exactly when title, author and genre are not null-or-white-space and the year is positive; it then stores exactly the given id, fields and status |
| Domain.Book.constructor | LibraryAPI.Domain/Entities/Book.cs:15-19 | the parameterless constructor gives the new identifier and status Available and runs no guard |
| Domain.Book.New | LibraryAPI.Domain/Entities/Book.cs:21-29 | the guarded constructor on objects: it fails with `Constructed`'s exception, or else builds a fresh book holding `Constructed`'s value |
| Domain.Book.Borrow | LibraryAPI.Domain/Entities/Book.cs:31-36 | a Borrowed book throws "Book is already borrowed." and is unchanged; otherwise only the status becomes Borrowed |
| Domain.Book.Return | LibraryAPI.Domain/Entities/Book.cs:38-43 | an Available book throws "Book is already available." and is unchanged; otherwise only the status becomes Available |
| Domain.Book.UpdateDetails | LibraryAPI.Domain/Entities/Book.cs:45-51 | the object's new state and exception are those of the in-order, stop-at-first-failure update `DetailsUpdated` |
| Domain.ConstructedReportsFirstFailure | LibraryAPI.Domain/Entities/Book.cs:24-27 | the first failing guard decides the exception: title, then author, then year, then genre |
| Domain.TransitionGuards | LibraryAPI.Domain/Entities/Book.cs:31-43 | Borrow fails if and only if the book is Borrowed; Return fails if and only if it is Available; a success changes only the status |
| Domain.BorrowReturnInverse | LibraryAPI.Domain/Entities/Book.cs:31-43 | Borrow then Return, or Return then Borrow, restores the book exactly |
| Domain.SecondTransitionFails | LibraryAPI.Domain/Entities/Book.cs:33-34 | a second Borrow, or a second Return, right after a successful one fails |
| Domain.UpdateDetailsValid | LibraryAPI.Domain/Entities/Book.cs:45-51 | valid arguments replace the four descriptive fields, keep id and status, and throw nothing |
| Domain.UpdateDetailsStopsAtFirstFailure | LibraryAPI.Domain/Entities/Book.cs:47-50 | the update is not atomic: fields before the failing guard are overwritten and the later ones kept; id and status never change; it throws exactly when the arguments are invalid |
| Domain.TransitionsPreserveWellFormed | LibraryAPI.Domain/Entities/Book.cs:31-43 | Borrow and Return keep a book that passes the guards passing them |
| Mappings.MapToBook | LibraryAPI.Application/Mappings/BookProfile.cs:12-13 | the mapped entity is fresh, copies the four fields by name, has the new identifier, and is Available |
| Mappings.ToDtoFaithful | LibraryAPI.Application/Mappings/BookProfile.cs:11 | each DTO property equals the book's property; two books have equal DTOs exactly when they are equal |
| Mappings.MappedIsAvailable | LibraryAPI.Application/Mappings/BookProfile.cs:12-13 | a created book, and its DTO, are Available whatever the request holds |
| Validation.Validate | LibraryAPI.Application/Validators/CreateBookRequestValidator.cs:10-23 | the failure list is empty exactly when all rules hold: non-blank title of at most 200 characters, author and genre of at most 100, year above 0 |
| Validation.ValidateNamesFailingProperties | LibraryAPI.Application/Validators/CreateBookRequestValidator.cs:10-23 | the failures name exactly the properties whose rules fail, and no others |
| Validation.ValidRequestMapsToWellFormedBook | LibraryAPI.Application/Validators/CreateBookRequestValidator.cs:10-23 | a valid request maps to a book the entity's full constructor would also accept |
| Validation.ValidatorMatchesGuardsWithinLimits | LibraryAPI.Application/Validators/CreateBookRequestValidator.cs:10-23 | within the length limits, the validator accepts exactly what the guard clauses accept |
| Repository.BookRepository.constructor | LibraryAPI.Infrastructure/Repositories/BookRepository.cs:12-15 | a new store is empty |
| Repository.BookRepository.GetAll | LibraryAPI.Infrastructure/Repositories/BookRepository.cs:17-20 | every stored book once, in storage order: the length equals the store size, and every stored book is listed |
| Repository.BookRepository.GetById | LibraryAPI.Infrastructure/Repositories/BookRepository.cs:22-25 | null exactly when the id is absent; otherwise a fresh entity holding the stored row |
| Repository.BookRepository.Add | LibraryAPI.Infrastructure/Repositories/BookRepository.cs:27-31 | a new key is stored and appended to the order, with other rows unchanged; a duplicate key fails and writes nothing |
| Repository.BookRepository.Update | LibraryAPI.Infrastructure/Repositories/BookRepository.cs:33-37 | the row under the book's id is replaced and no other row changes; a missing key fails and writes nothing |
| Repository.BookRepository.Delete | LibraryAPI.Infrastructure/Repositories/BookRepository.cs:39-47 | an absent id changes nothing; a present id removes exactly that row and its place in the order |
| Handlers.CreateBook | LibraryAPI.Application/Features/Books/Commands/CreateBookCommand.cs:22-27 | exactly one Available book is added under the new id; other rows are unchanged; the new id is appended to the storage order; the returned DTO is the added book's; an id already stored fails with the database error and changes nothing |
| Handlers.UpdateBook | LibraryAPI.Application/Features/Books/Commands/UpdateBookCommand.cs:21-28 | an absent id gives false and no change; otherwise the stored row follows `DetailsUpdated` when no guard throws, and stays unchanged when one does |
| Handlers.DeleteBook | LibraryAPI.Application/Features/Books/Commands/DeleteBookCommand.cs:17-23 | an absent id gives false and no change; a present id gives true and removes only that row and its slot in the storage order, keeping the others in order |
| Handlers.BorrowBook | LibraryAPI.Application/Features/Books/Commands/BorrowBookCommand.cs:17-24 | an absent id gives false; an Available book is stored Borrowed and gives true; a Borrowed book throws with the store unchanged |
| Handlers.ReturnBook | LibraryAPI.Application/Features/Books/Commands/ReturnBookCommand.cs:17-24 | an absent id gives false; a Borrowed book is stored Available and gives true; an Available book throws with the store unchanged |
| Handlers.GetBookById | LibraryAPI.Application/Features/Books/Queries/GetBookByIdQuery.cs:21-25 | null exactly when the id is absent; otherwise the stored book's DTO; the store is not modified |
| Handlers.GetAllBooks | LibraryAPI.Application/Features/Books/Queries/GetAllBooksQuery.cs:21-25 | one DTO per stored book, in order; an empty store gives an empty list; the store is not modified |
| Handlers.BorrowThenReturn | LibraryAPI.Application/Features/Books/Commands/ReturnBookCommand.cs:19-23 | borrowing and then returning an Available book restores the store exactly |
| Handlers.BorrowTwice | LibraryAPI.Application/Features/Books/Commands/BorrowBookCommand.cs:19-23 | the second borrow throws "Book is already borrowed." and changes nothing; the storage order is kept |
| Handlers.DeleteTwice | LibraryAPI.Application/Features/Books/Commands/DeleteBookCommand.cs:19-23 | the second delete of an id returns false |
| Handlers.OthersUntouched | LibraryAPI.Application/Features/Books/Commands/UpdateBookCommand.cs:23-27 | update, borrow, return and delete leave the rows of other ids unchanged |
| ExceptionMiddleware.StatusCodeOf | LibraryAPI.API/Middleware/GlobalExceptionMiddleware.cs:46-53 | 404 if and only if the exception is a NotFoundException; 500 for every other exception |
| ExceptionMiddleware.MessageOf | LibraryAPI.API/Middleware/GlobalExceptionMiddleware.cs:55-62 | "Resource not found" if and only if NotFound, "Internal server error" otherwise |
| ExceptionMiddleware.HandleException | LibraryAPI.API/Middleware/GlobalExceptionMiddleware.cs:31-44 | the response status equals the body's StatusCode; DetailedMessage is the exception's own message |
| ExceptionMiddleware.Invoke | LibraryAPI.API/Middleware/GlobalExceptionMiddleware.cs:18-29 | a normal response passes through; a thrown exception becomes its error response |
| ExceptionMiddleware.GuardFailuresAreServerErrors | LibraryAPI.API/Middleware/GlobalExceptionMiddleware.cs:46-53 | the lending guards' and the guard clauses' exceptions all become 500 |
| BooksController.Access | LibraryAPI.API/Controllers/V1/BooksController.cs:18-172 | the reads allow anonymous callers; create, update and delete need role admin; borrow and return need user or admin; an anonymous caller on a protected endpoint gets 401 and any other role 403 |
| BooksController.NoContentOrNotFound | LibraryAPI.API/Controllers/V1/BooksController.cs:105-112 | false becomes NotFound("Book not found"), true becomes 204, and a thrown exception passes through |
| BooksController.OkOrNotFound | LibraryAPI.API/Controllers/V1/BooksController.cs:59-66 | null becomes NotFound("Book not found"); a DTO becomes 200 with that DTO |
| BooksController.RunAction | LibraryAPI.API/Controllers/V1/BooksController.cs:38-188 | each action's response and store change, rows and storage order both, stated per endpoint in terms of the handlers' specification functions: a create appends the new id, a delete removes only its id's slot, and every other action keeps the order |
| BooksController.Serve | LibraryAPI.API/Controllers/V1/BooksController.cs:15-188 | 401/403 change nothing; an invalid create gives 400; a valid create gives 201 with the new id and DTO; the list gives 200 with each stored book's DTO in storage order; a stored id gives 200 with its DTO; reads change nothing; a stored delete gives 204 and removes only that row; a stored update gives 204 with the new details, or 500 for the first failing guard with nothing changed; a missing id gives 404; borrowing a Borrowed book or returning an Available one gives 500 and changes nothing; the other borrow and return give 204 with only the status changed; a create with an id already stored gives 500 and changes nothing; only a create or a delete changes the storage order: a create appends the new id and a delete removes only its id's slot |
| Auth.FirstWithUsername | LibraryAPI.Infrastructure/Services/AuthService.cs:26-27 | the index of the first user whose name matches exactly, or None exactly when no user has that name |
| Auth.Login | LibraryAPI.Infrastructure/Services/AuthService.cs:24-38 | both failures raise Unauthorized("Incorrect username or password"); success holds exactly when the first user with the name has that password, and answers with that user's name and role and their token |
| Auth.LoginWithUniqueUsernames | LibraryAPI.Infrastructure/Services/AuthService.cs:26-37 | with unique names, login succeeds exactly when the named user's stored password matches |
| Auth.FailuresIndistinguishable | LibraryAPI.Infrastructure/Services/AuthService.cs:29-33 | an unknown name and a wrong password produce the same error |
| Auth.OnlyFirstMatchIsChecked | LibraryAPI.Infrastructure/Services/AuthService.cs:26-33 | a later user with the same name and the right password does not log in |
| Auth.TokenDependsOnlyOnNameAndRole | LibraryAPI.Infrastructure/Services/AuthService.cs:35-37 | two successful logins whose matched users share name and role give the same response, token included |
| RouteGuard.Decide | Library-frontend/middleware.ts:17-50 | redirect to /login exactly when there is no token on a /books path or the token fails to decode on an admin route; a non-admin role on an admin route and a token on /login both go to /books; otherwise it passes |
| RouteGuard.AdminRouteIsProtected | Library-frontend/middleware.ts:5-8 | every admin route is also a protected route |
| RouteGuard.EditPatternIff | Library-frontend/middleware.ts:7-9 | a path matches the edit pattern exactly when it is "/books/" + a non-empty segment without "/" + "/edit" |
| RouteGuard.PassThroughCases | Library-frontend/middleware.ts:45-49 | "/login" without a token and "/books" with a token pass; a "/books/..." page with a token passes unless it is an admin route and the caller is not an admin |
| RouteGuard.EmptyTokenIsNoToken | Library-frontend/middleware.ts:18-30 | an empty cookie is treated as no token |
| BookForm.SchemaIssues | Library-frontend/components/BookForm.tsx:9-18 | no issue exactly when the form passes: non-empty texts, year in [1000, current year], status "Available" or "Borrowed" |
| BookForm.DefaultValues | Library-frontend/components/BookForm.tsx:37-43 | falsy initial values fall back to "", the current year or "Available"; a numeric status other than 0 is kept as a number |
| BookForm.EmptyFormDefaults | Library-frontend/components/BookForm.tsx:37-43 | with no initial data the defaults are empty texts, the current year and "Available"; only the three empty texts are reported |
| BookForm.FalsyInitialValuesFallBack | Library-frontend/components/BookForm.tsx:38-42 | an empty title and a year of 0 fall back to their defaults |
| BookForm.BorrowedDefaultsRejected | Library-frontend/components/BookForm.tsx:42 | editing a Borrowed book starts the status at the number 1, and the schema rejects it |
| BookForm.StatusName | Library-frontend/components/BookForm.tsx:42 | the corrected status default is "Borrowed" exactly for status 1, and otherwise "Available" |
| BookForm.CorrectedDefaultValues | Library-frontend/components/BookForm.tsx:37-43 | the corrected defaults: the same fallbacks, with the status as its enum name |
| BookForm.CorrectedDefaultsKeepStatus | Library-frontend/components/BookForm.tsx:42 | the corrected default status always passes the schema and is the book's own status |
| BookForm.CorrectedDefaultsAccepted | Library-frontend/components/BookForm.tsx:9-18 | the corrected defaults of a stored book with non-empty texts and a year in range pass the schema |
| BookForm.WhitespaceAcceptedByFormRejectedByServer | Library-frontend/components/BookForm.tsx:10 | a white-space title passes `min(1)` but fails the server's validator, with the "Title is required." failure first |
| BookForm.WhitespaceTitleExample | Library-frontend/components/BookForm.tsx:10 | such a form exists: the title " " |
| BookForm.AcceptedFormPassesServer | Library-frontend/components/BookForm.tsx:9-18 | an accepted form with non-blank texts within the server's length limits passes the server's validator |

## Left out

- Validation wiring:
  - `AddApplication`, which registers the validators, is not part of this model.
  - `BooksController.Serve` assumes automatic validation answers an invalid create body with 400. The controller declares 400 for this case.
  - Update bodies have no validator. Their bad values reach the guard clauses and give 500.
- The `UpdateBookRequest` to `Book` map of the profile is never used by the core, so it is not modelled.
- The messages of `MaximumLength` are FluentValidation defaults. They are modelled only as a `MaximumLength(max)` failure.
- BookForm.SchemaIssues: the status issue carries a stand-in text. zod's own default message for an enum mismatch is not modelled.
- C# `null` strings are not represented. The entity's parameterless constructor leaves the strings empty here, where C# leaves them null.
- String lengths count Dafny characters. .NET and JavaScript count UTF-16 code units, so the two differ outside the Basic Multilingual Plane.
- `int` is unbounded. The source's 32-bit `PublicationYear` range and JSON number limits are not modelled.
- The form does not model fractional years: zod's `number()` accepts them and `publicationYear` here is an integer.
- JWT details are not modelled:
  - creation, signing, expiry and the clock (`GenerateJwtToken`), because they are cryptography and time;
  - the bearer authentication itself, which is library code.
  - `BooksController.Principal` is what a valid token yields. A missing or invalid token is `Anonymous`.
- The database context's column limits are not modelled. This includes its Author length of 200 against the validator's 100.
- The seed users and their plaintext passwords are not modelled.
- The frontend's matcher configuration is not modelled. The guard is modelled for every path it runs on.
- The ORM's error texts are not modelled. A duplicate key on `Add` and a missing row on `Update` are `Db("Duplicate key")` and `Db("No row to update")`, stand-ins for the messages of EF Core's own exceptions. Those messages would reach `DetailedMessage` in the 500 response.
- Concurrency is not modelled: two overlapping borrows of one book can both succeed in the source. Each handler here is one sequential step.
- Framework plumbing is not modelled, because it has no logic of its own:
  - MediatR, async tasks and cancellation;
  - logging, API versioning and Swagger;
  - the JSON property naming of the error body.
- Repository.BookRepository.GetAll: returns the stored values rather than tracked entity objects. Nothing in the core mutates them.
- The React pages, dialogs and the auth context, because they are rendering and browser state. This includes the form's `submitHandler`, which only sets UI state and resets the form.

## Findings

| source | as written | input that shows it | evidently intended | confidence | as-written member | corrected member |
|---|---|---|---|---|---|---|
| Library-frontend/components/BookForm.tsx:42 | `status` defaults to the initial status, or to "Available" when that is falsy, but the API sends the enum as a number: the JSON string-enum converter is configured only for minimal APIs, not for controllers. Status 0 is falsy and becomes "Available"; status 1 is kept as the number 1. | open the edit page of a Borrowed book (status 1) and save without touching the status select: `z.enum(["Available","Borrowed"])` rejects 1 | map the numeric status to its name, so a Borrowed book starts as "Borrowed" | medium, not executed | BookForm.DefaultValues | BookForm.CorrectedDefaultValues |
