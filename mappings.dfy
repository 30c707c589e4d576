/** The request and response shapes of the book API and the object mapping
    profile between them and the entity (LibraryAPI.Application/Mappings/BookProfile.cs,
    LibraryAPI.Application/DTOs/BookDto.cs). */
module Mappings {
  import opened Domain

  /** BookDto: the six properties of a book as the API returns them. */
  datatype BookDto = BookDto(
    id: Guid,
    title: string,
    author: string,
    publicationYear: int,
    genre: string,
    status: BookStatus)

  /** The body of a create request; it carries no identifier and no status
      that the mapping would use. */
  datatype CreateBookRequest = CreateBookRequest(
    title: string,
    author: string,
    publicationYear: int,
    genre: string)

  /** The body of an update request. */
  datatype UpdateBookRequest = UpdateBookRequest(
    title: string,
    author: string,
    publicationYear: int,
    genre: string)

  /** The Book to BookDto map: every property copied by name. */
  function ToDto(b: BookState): BookDto {
    BookDto(b.id, b.title, b.author, b.publicationYear, b.genre, b.status)
  }

  /** The CreateBookRequest to Book map: the parameterless constructor gives
      the identifier, the four descriptive properties are copied by name and
      the status is forced to Available. No guard clause runs on this path. */
  function Mapped(request: CreateBookRequest, newId: Guid): BookState {
    BookState(newId, request.title, request.author, request.publicationYear, request.genre, Available)
  }

  /** The mapper building the entity object for a create request. */
  method MapToBook(request: CreateBookRequest, newId: Guid) returns (b: Book)
    ensures fresh(b)
    ensures b.Value() == Mapped(request, newId)
  {
    b := new Book(newId);
    b.title := request.title;
    b.author := request.author;
    b.publicationYear := request.publicationYear;
    b.genre := request.genre;
    b.status := Available;
  }

  /** A DTO reports exactly the book it was made from: two books with equal
      DTOs are equal, and each DTO property is the book's. */
  lemma ToDtoFaithful(b: BookState, c: BookState)
    ensures ToDto(b).id == b.id && ToDto(b).title == b.title && ToDto(b).author == b.author
    ensures ToDto(b).publicationYear == b.publicationYear && ToDto(b).genre == b.genre
    ensures ToDto(b).status == b.status
    ensures ToDto(b) == ToDto(c) <==> b == c
  {
  }

  /** A created book is Available whatever the request holds, its descriptive
      properties are the request's, and its DTO reports Available. */
  lemma MappedIsAvailable(request: CreateBookRequest, newId: Guid)
    ensures Mapped(request, newId).status == Available
    ensures Mapped(request, newId).id == newId
    ensures Mapped(request, newId).title == request.title && Mapped(request, newId).author == request.author
    ensures Mapped(request, newId).publicationYear == request.publicationYear
    ensures Mapped(request, newId).genre == request.genre
    ensures ToDto(Mapped(request, newId)).status == Available
  {
  }
}
