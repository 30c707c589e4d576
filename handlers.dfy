/** The command and query handlers of the book feature
    (LibraryAPI.Application/Features/Books/Commands and .../Queries). Each one
    loads from the store, changes at most one entity and writes it back. A
    thrown exception is an `Err` result; `Ok(false)` and `None` stand for the
    handlers' false and null returns. */
module Handlers {
  import opened Errors
  import opened Domain
  import opened Mappings
  import opened Repository

  /** CreateBookCommandHandler.Handle: maps the request to a new Available
      book with the fresh identifier `newId`, adds it and returns its DTO. */
  method CreateBook(repo: BookRepository, request: CreateBookRequest, newId: Guid) returns (r: Result<BookDto>)
    requires repo.Valid()
    modifies repo
    ensures repo.Valid()
    ensures newId !in old(repo.rows) ==>
      && r == Ok(ToDto(Mapped(request, newId)))
      && repo.rows == old(repo.rows)[newId := Mapped(request, newId)]
      && repo.order == old(repo.order) + [newId]
    ensures newId in old(repo.rows) ==>
      r == Err(Db("Duplicate key")) && repo.rows == old(repo.rows) && repo.order == old(repo.order)
  {
    var book := MapToBook(request, newId);
    var thrown := repo.Add(book);
    if thrown.Some? {
      return Err(thrown.value);
    }
    return Ok(ToDto(book.Value()));
  }

  /** UpdateBookCommandHandler.Handle: false for an absent identifier;
      otherwise UpdateDetails on the loaded entity and, if no guard threw,
      UpdateAsync. A guard failure leaves the store as it was, although the
      loaded entity was partly overwritten. */
  method UpdateBook(repo: BookRepository, id: Guid, request: UpdateBookRequest) returns (r: Result<bool>)
    requires repo.Valid()
    modifies repo
    ensures repo.Valid() && repo.order == old(repo.order)
    ensures id !in old(repo.rows) ==> r == Ok(false) && repo.rows == old(repo.rows)
    ensures id in old(repo.rows) ==>
      var (after, thrown) := DetailsUpdated(old(repo.rows)[id], request.title, request.author,
                                            request.publicationYear, request.genre);
      && (thrown.None? ==> r == Ok(true) && repo.rows == old(repo.rows)[id := after])
      && (thrown.Some? ==> r == Err(thrown.value) && repo.rows == old(repo.rows))
  {
    var book := repo.GetById(id);
    if book == null {
      return Ok(false);
    }
    var thrown := book.UpdateDetails(request.title, request.author, request.publicationYear, request.genre);
    if thrown.Some? {
      return Err(thrown.value);
    }
    thrown := repo.Update(book);
    // The row was just loaded, so the write finds it: UpdateAsync cannot throw here.
    assert thrown == None;
    return Ok(true);
  }

  /** DeleteBookCommandHandler.Handle: false for an absent identifier,
      otherwise the row is removed and the result is true. */
  method DeleteBook(repo: BookRepository, id: Guid) returns (r: Result<bool>)
    requires repo.Valid()
    modifies repo
    ensures repo.Valid()
    ensures id !in old(repo.rows) ==> r == Ok(false) && repo.rows == old(repo.rows) && repo.order == old(repo.order)
    ensures id in old(repo.rows) ==> r == Ok(true) && repo.rows == old(repo.rows) - {id}
    ensures id in old(repo.rows) ==>
      exists k :: 0 <= k < |old(repo.order)| && old(repo.order)[k] == id
        && repo.order == old(repo.order)[..k] + old(repo.order)[k + 1..]
  {
    var book := repo.GetById(id);
    if book == null {
      return Ok(false);
    }
    repo.Delete(id);
    return Ok(true);
  }

  /** BorrowBookCommandHandler.Handle: false for an absent identifier;
      otherwise Borrow on the loaded entity and, if it did not throw, UpdateAsync. */
  method BorrowBook(repo: BookRepository, id: Guid) returns (r: Result<bool>)
    requires repo.Valid()
    modifies repo
    ensures repo.Valid() && repo.order == old(repo.order)
    ensures id !in old(repo.rows) ==> r == Ok(false) && repo.rows == old(repo.rows)
    ensures id in old(repo.rows) ==>
      match BorrowTransition(old(repo.rows)[id])
      case Ok(after) => r == Ok(true) && repo.rows == old(repo.rows)[id := after]
      case Err(e) => r == Err(e) && repo.rows == old(repo.rows)
  {
    var book := repo.GetById(id);
    if book == null {
      return Ok(false);
    }
    var thrown := book.Borrow();
    if thrown.Some? {
      return Err(thrown.value);
    }
    thrown := repo.Update(book);
    // The row was just loaded, so the write finds it: UpdateAsync cannot throw here.
    assert thrown == None;
    return Ok(true);
  }

  /** ReturnBookCommandHandler.Handle: as BorrowBook, with Return. */
  method ReturnBook(repo: BookRepository, id: Guid) returns (r: Result<bool>)
    requires repo.Valid()
    modifies repo
    ensures repo.Valid() && repo.order == old(repo.order)
    ensures id !in old(repo.rows) ==> r == Ok(false) && repo.rows == old(repo.rows)
    ensures id in old(repo.rows) ==>
      match ReturnTransition(old(repo.rows)[id])
      case Ok(after) => r == Ok(true) && repo.rows == old(repo.rows)[id := after]
      case Err(e) => r == Err(e) && repo.rows == old(repo.rows)
  {
    var book := repo.GetById(id);
    if book == null {
      return Ok(false);
    }
    var thrown := book.Return();
    if thrown.Some? {
      return Err(thrown.value);
    }
    thrown := repo.Update(book);
    // The row was just loaded, so the write finds it: UpdateAsync cannot throw here.
    assert thrown == None;
    return Ok(true);
  }

  /** GetBookByIdQueryHandler.Handle: null for an absent identifier, else the
      DTO of the stored book. It changes nothing (it has no modifies clause). */
  method GetBookById(repo: BookRepository, id: Guid) returns (r: Option<BookDto>)
    requires repo.Valid()
    ensures r.None? <==> id !in repo.rows
    ensures r.Some? ==> r.value == ToDto(repo.rows[id])
  {
    var book := repo.GetById(id);
    if book == null {
      return None;
    }
    return Some(ToDto(book.Value()));
  }

  /** GetAllBooksQueryHandler.Handle: one DTO per stored book, in the store's
      order. It changes nothing (it has no modifies clause). */
  method GetAllBooks(repo: BookRepository) returns (r: seq<BookDto>)
    requires repo.Valid()
    ensures |r| == |repo.order| == |repo.rows|
    ensures forall i :: 0 <= i < |r| ==> repo.order[i] in repo.rows && r[i] == ToDto(repo.rows[repo.order[i]])
    ensures forall id :: id in repo.rows ==> ToDto(repo.rows[id]) in r
    ensures repo.rows == map[] ==> r == []
  {
    var books := repo.GetAll();
    r := seq(|books|, i requires 0 <= i < |books| => ToDto(books[i]));
    forall id | id in repo.rows ensures ToDto(repo.rows[id]) in r {
      var i :| 0 <= i < |books| && books[i] == repo.rows[id];
      assert r[i] == ToDto(repo.rows[id]);
    }
  }

  // ---------------------------------------------------------------------------
  // Handler sequences

  /** Borrowing an Available book and then returning it through the two
      handlers leaves the store exactly as it was. */
  method BorrowThenReturn(repo: BookRepository, id: Guid) returns (borrowed: Result<bool>, returned: Result<bool>)
    requires repo.Valid()
    requires id in repo.rows && repo.rows[id].status == Available
    modifies repo
    ensures repo.Valid()
    ensures borrowed == Ok(true) && returned == Ok(true)
    ensures repo.rows == old(repo.rows) && repo.order == old(repo.order)
  {
    ghost var before := repo.rows;
    borrowed := BorrowBook(repo, id);
    assert repo.rows == before[id := before[id].(status := Borrowed)];
    returned := ReturnBook(repo, id);
    assert repo.rows[id] == before[id];
    assert repo.rows == before;
  }

  /** A second borrow of the same book fails with the guard's exception and
      changes nothing. */
  method BorrowTwice(repo: BookRepository, id: Guid) returns (first: Result<bool>, second: Result<bool>)
    requires repo.Valid()
    requires id in repo.rows && repo.rows[id].status == Available
    modifies repo
    ensures repo.Valid()
    ensures first == Ok(true)
    ensures second == Err(InvalidOperation("Book is already borrowed."))
    ensures repo.rows == old(repo.rows)[id := old(repo.rows)[id].(status := Borrowed)]
    ensures repo.order == old(repo.order)
  {
    first := BorrowBook(repo, id);
    second := BorrowBook(repo, id);
  }

  /** Deleting the same identifier twice: the second call finds nothing and
      returns false. */
  method DeleteTwice(repo: BookRepository, id: Guid) returns (first: Result<bool>, second: Result<bool>)
    requires repo.Valid()
    modifies repo
    ensures repo.Valid()
    ensures first == Ok(id in old(repo.rows))
    ensures second == Ok(false)
    ensures id !in repo.rows && repo.rows == old(repo.rows) - {id}
  {
    first := DeleteBook(repo, id);
    second := DeleteBook(repo, id);
  }

  /** Every handler leaves the rows of other identifiers alone. */
  method OthersUntouched(repo: BookRepository, id: Guid, other: Guid, request: UpdateBookRequest)
    returns (r: Result<bool>)
    requires repo.Valid() && other != id && other in repo.rows
    modifies repo
    ensures repo.Valid()
    ensures other in repo.rows && repo.rows[other] == old(repo.rows[other])
  {
    ghost var kept := repo.rows[other];
    r := UpdateBook(repo, id, request);
    assert other in repo.rows && repo.rows[other] == kept;
    r := BorrowBook(repo, id);
    assert other in repo.rows && repo.rows[other] == kept;
    r := ReturnBook(repo, id);
    assert other in repo.rows && repo.rows[other] == kept;
    r := DeleteBook(repo, id);
  }
}
