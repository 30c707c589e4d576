/** The Book entity (LibraryAPI.Domain/Entities/Book.cs): four guarded
    descriptive properties and a two-state lending status. */
module Domain {
  import opened Errors

  /** Book identifiers; Guid.NewGuid() is modelled by the caller supplying a value. */
  type Guid = nat

  /** BookStatus: Available is 0 and Borrowed is 1. */
  datatype BookStatus = Available | Borrowed

  /** The six properties of a Book, as a value. */
  datatype BookState = BookState(
    id: Guid,
    title: string,
    author: string,
    publicationYear: int,
    genre: string,
    status: BookStatus)

  /** char.IsWhiteSpace: the Unicode space, line and paragraph separators,
      the control characters U+0009 to U+000D, and U+0085. */
  predicate IsWhiteSpace(c: char) {
    || c == ' ' || '\t' <= c <= '\r' || c == '\U{0085}' || c == '\U{00A0}'
    || c == '\U{1680}' || '\U{2000}' <= c <= '\U{200A}' || c == '\U{2028}'
    || c == '\U{2029}' || c == '\U{202F}' || c == '\U{205F}' || c == '\U{3000}'
  }

  /** string.IsNullOrWhiteSpace (a null string is not representable here):
      true of the empty string and of strings made only of white space. */
  predicate IsNullOrWhiteSpace(s: string) {
    forall i :: 0 <= i < |s| ==> IsWhiteSpace(s[i])
  }

  /** What the guard clauses accept for the four descriptive properties. */
  predicate DetailsValid(title: string, author: string, publicationYear: int, genre: string) {
    && !IsNullOrWhiteSpace(title)
    && !IsNullOrWhiteSpace(author)
    && publicationYear > 0
    && !IsNullOrWhiteSpace(genre)
  }

  /** A book whose descriptive properties would pass the guard clauses. */
  predicate WellFormed(b: BookState) {
    DetailsValid(b.title, b.author, b.publicationYear, b.genre)
  }

  /** The exception of Guard.Against.NullOrWhiteSpace. */
  function TextGuardError(paramName: string): Exception {
    Argument(paramName, "Required input " + paramName + " was empty.")
  }

  /** The exception of Guard.Against.NegativeOrZero. */
  function PositiveGuardError(paramName: string): Exception {
    Argument(paramName, "Required input " + paramName + " cannot be zero or negative.")
  }

  function GuardText(s: string, paramName: string): Result<string> {
    if IsNullOrWhiteSpace(s) then Err(TextGuardError(paramName)) else Ok(s)
  }

  function GuardPositive(n: int, paramName: string): Result<int> {
    if n <= 0 then Err(PositiveGuardError(paramName)) else Ok(n)
  }

  /** The full constructor: the guards run in declaration order and the first
      one that fails decides the exception. */
  function Constructed(id: Guid, title: string, author: string, publicationYear: int,
                       genre: string, status: BookStatus): (r: Result<BookState>)
    ensures r.Ok? <==> DetailsValid(title, author, publicationYear, genre)
    ensures r.Ok? ==> r.value == BookState(id, title, author, publicationYear, genre, status)
    ensures r.Ok? ==> WellFormed(r.value)
  {
    var t :- GuardText(title, "title");
    var a :- GuardText(author, "author");
    var y :- GuardPositive(publicationYear, "publicationYear");
    var g :- GuardText(genre, "genre");
    Ok(BookState(id, t, a, y, g, status))
  }

  /** Book.Borrow as a transition on values. */
  function BorrowTransition(b: BookState): Result<BookState> {
    if b.status == Borrowed then Err(InvalidOperation("Book is already borrowed."))
    else Ok(b.(status := Borrowed))
  }

  /** Book.Return as a transition on values. */
  function ReturnTransition(b: BookState): Result<BookState> {
    if b.status == Available then Err(InvalidOperation("Book is already available."))
    else Ok(b.(status := Available))
  }

  /** Book.UpdateDetails: the four assignments run in order, each behind its
      guard, and the first failing guard stops the rest. Returns the state left
      behind and the exception thrown, if any. */
  function DetailsUpdated(b: BookState, title: string, author: string, publicationYear: int,
                          genre: string): (BookState, Option<Exception>)
  {
    if IsNullOrWhiteSpace(title) then (b, Some(TextGuardError("title")))
    else
      var b1 := b.(title := title);
      if IsNullOrWhiteSpace(author) then (b1, Some(TextGuardError("author")))
      else
        var b2 := b1.(author := author);
        if publicationYear <= 0 then (b2, Some(PositiveGuardError("publicationYear")))
        else
          var b3 := b2.(publicationYear := publicationYear);
          if IsNullOrWhiteSpace(genre) then (b3, Some(TextGuardError("genre")))
          else (b3.(genre := genre), None)
  }

  /** The state and exception an all-or-nothing call leaves: the new state
      when `r` succeeds, the old state and `r`'s exception when it fails. */
  predicate Committed(before: BookState, r: Result<BookState>, after: BookState, thrown: Option<Exception>) {
    match r
    case Ok(s) => after == s && thrown == None
    case Err(e) => after == before && thrown == Some(e)
  }

  class Book {
    var id: Guid
    var title: string
    var author: string
    var publicationYear: int
    var genre: string
    var status: BookStatus

    function Value(): BookState
      reads this
    {
      BookState(id, title, author, publicationYear, genre, status)
    }

    /** Book(): a new identifier and status Available; no guard runs and the
        descriptive properties keep their defaults (null strings are modelled
        as empty ones). */
    constructor (newId: Guid)
      ensures Value() == BookState(newId, "", "", 0, "", Available)
    {
      id, title, author, publicationYear, genre, status := newId, "", "", 0, "", Available;
    }

    /** An entity materialised by the ORM from a stored row. */
    constructor FromRow(row: BookState)
      ensures Value() == row
    {
      id, title, author, publicationYear, genre, status :=
        row.id, row.title, row.author, row.publicationYear, row.genre, row.status;
    }

    /** Book(id, title, author, publicationYear, genre, status = Available). */
    static method New(id: Guid, title: string, author: string, publicationYear: int, genre: string,
                      status: BookStatus := Available) returns (r: Result<Book>)
      ensures r.Err? <==> Constructed(id, title, author, publicationYear, genre, status).Err?
      ensures r.Err? ==> Constructed(id, title, author, publicationYear, genre, status) == Err(r.error)
      ensures r.Ok? ==> fresh(r.value)
      ensures r.Ok? ==> Constructed(id, title, author, publicationYear, genre, status) == Ok(r.value.Value())
    {
      if IsNullOrWhiteSpace(title) { return Err(TextGuardError("title")); }
      if IsNullOrWhiteSpace(author) { return Err(TextGuardError("author")); }
      if publicationYear <= 0 { return Err(PositiveGuardError("publicationYear")); }
      if IsNullOrWhiteSpace(genre) { return Err(TextGuardError("genre")); }
      var b := new Book.FromRow(BookState(id, title, author, publicationYear, genre, status));
      return Ok(b);
    }

    method Borrow() returns (thrown: Option<Exception>)
      modifies this
      ensures Committed(old(Value()), BorrowTransition(old(Value())), Value(), thrown)
    {
      if status == Borrowed {
        return Some(InvalidOperation("Book is already borrowed."));
      }
      status := Borrowed;
      return None;
    }

    method Return() returns (thrown: Option<Exception>)
      modifies this
      ensures Committed(old(Value()), ReturnTransition(old(Value())), Value(), thrown)
    {
      if status == Available {
        return Some(InvalidOperation("Book is already available."));
      }
      status := Available;
      return None;
    }

    method UpdateDetails(title: string, author: string, publicationYear: int, genre: string)
      returns (thrown: Option<Exception>)
      modifies this
      ensures (Value(), thrown) == DetailsUpdated(old(Value()), title, author, publicationYear, genre)
    {
      if IsNullOrWhiteSpace(title) { return Some(TextGuardError("title")); }
      this.title := title;
      if IsNullOrWhiteSpace(author) { return Some(TextGuardError("author")); }
      this.author := author;
      if publicationYear <= 0 { return Some(PositiveGuardError("publicationYear")); }
      this.publicationYear := publicationYear;
      if IsNullOrWhiteSpace(genre) { return Some(TextGuardError("genre")); }
      this.genre := genre;
      return None;
    }
  }

  // ---------------------------------------------------------------------------
  // Properties of the lifecycle

  /** The full constructor reports the first failing guard, in the order
      title, author, publicationYear, genre. */
  lemma ConstructedReportsFirstFailure(id: Guid, title: string, author: string, publicationYear: int,
                                       genre: string, status: BookStatus)
    ensures IsNullOrWhiteSpace(title) ==>
      Constructed(id, title, author, publicationYear, genre, status) == Err(TextGuardError("title"))
    ensures !IsNullOrWhiteSpace(title) && IsNullOrWhiteSpace(author) ==>
      Constructed(id, title, author, publicationYear, genre, status) == Err(TextGuardError("author"))
    ensures !IsNullOrWhiteSpace(title) && !IsNullOrWhiteSpace(author) && publicationYear <= 0 ==>
      Constructed(id, title, author, publicationYear, genre, status) == Err(PositiveGuardError("publicationYear"))
    ensures !IsNullOrWhiteSpace(title) && !IsNullOrWhiteSpace(author) && publicationYear > 0 && IsNullOrWhiteSpace(genre) ==>
      Constructed(id, title, author, publicationYear, genre, status) == Err(TextGuardError("genre"))
  {
  }

  /** Borrow fails exactly on a Borrowed book and Return exactly on an
      Available one; a successful transition changes nothing but the status. */
  lemma TransitionGuards(b: BookState)
    ensures BorrowTransition(b).Err? <==> b.status == Borrowed
    ensures BorrowTransition(b).Ok? ==> BorrowTransition(b).value == b.(status := Borrowed)
    ensures ReturnTransition(b).Err? <==> b.status == Available
    ensures ReturnTransition(b).Ok? ==> ReturnTransition(b).value == b.(status := Available)
  {
  }

  /** Borrow and Return undo each other. */
  lemma BorrowReturnInverse(b: BookState)
    ensures b.status == Available ==>
      BorrowTransition(b).Ok? && ReturnTransition(BorrowTransition(b).value) == Ok(b)
    ensures b.status == Borrowed ==>
      ReturnTransition(b).Ok? && BorrowTransition(ReturnTransition(b).value) == Ok(b)
  {
  }

  /** A second Borrow without an intervening Return fails, and so does a second Return. */
  lemma SecondTransitionFails(b: BookState)
    ensures BorrowTransition(b).Ok? ==> BorrowTransition(BorrowTransition(b).value).Err?
    ensures ReturnTransition(b).Ok? ==> ReturnTransition(ReturnTransition(b).value).Err?
  {
  }

  /** With valid arguments UpdateDetails replaces the four descriptive
      properties, keeps the identifier and the status, and throws nothing. */
  lemma UpdateDetailsValid(b: BookState, title: string, author: string, publicationYear: int, genre: string)
    requires DetailsValid(title, author, publicationYear, genre)
    ensures DetailsUpdated(b, title, author, publicationYear, genre)
      == (BookState(b.id, title, author, publicationYear, genre, b.status), None)
    ensures WellFormed(DetailsUpdated(b, title, author, publicationYear, genre).0)
  {
  }

  /** UpdateDetails is not atomic: the properties assigned before the failing
      guard keep their new values, the later ones their old values. Whatever
      happens, the identifier and the status are untouched, and it throws
      exactly when the arguments are invalid. */
  lemma UpdateDetailsStopsAtFirstFailure(b: BookState, title: string, author: string, publicationYear: int, genre: string)
    ensures var (after, thrown) := DetailsUpdated(b, title, author, publicationYear, genre);
      && after.id == b.id && after.status == b.status
      && (thrown.None? <==> DetailsValid(title, author, publicationYear, genre))
      && (IsNullOrWhiteSpace(title) ==> after == b)
      && (!IsNullOrWhiteSpace(title) && IsNullOrWhiteSpace(author) ==> after == b.(title := title))
      && (!IsNullOrWhiteSpace(title) && !IsNullOrWhiteSpace(author) && publicationYear <= 0 ==>
            after == b.(title := title, author := author))
      && (!IsNullOrWhiteSpace(title) && !IsNullOrWhiteSpace(author) && publicationYear > 0 && IsNullOrWhiteSpace(genre) ==>
            after == b.(title := title, author := author, publicationYear := publicationYear))
  {
  }

  /** The two transitions keep a well-formed book well-formed. */
  lemma TransitionsPreserveWellFormed(b: BookState)
    requires WellFormed(b)
    ensures BorrowTransition(b).Ok? ==> WellFormed(BorrowTransition(b).value)
    ensures ReturnTransition(b).Ok? ==> WellFormed(ReturnTransition(b).value)
  {
  }

  /** A concrete trace of the lifecycle: borrow, borrow again, return, return again. */
  method LifecycleScenario()
  {
    var r := Book.New(7, "Dune", "Herbert", 1965, "SciFi");
    assert !IsNullOrWhiteSpace("Dune") by { assert !IsWhiteSpace("Dune"[0]); }
    assert !IsNullOrWhiteSpace("Herbert") by { assert !IsWhiteSpace("Herbert"[0]); }
    assert !IsNullOrWhiteSpace("SciFi") by { assert !IsWhiteSpace("SciFi"[0]); }
    var b := r.value;
    assert b.status == Available;
    var e := b.Borrow();
    assert e == None && b.status == Borrowed;
    e := b.Borrow();
    assert e == Some(InvalidOperation("Book is already borrowed.")) && b.status == Borrowed;
    e := b.Return();
    assert e == None && b.Value() == BookState(7, "Dune", "Herbert", 1965, "SciFi", Available);
    e := b.Return();
    assert e == Some(InvalidOperation("Book is already available."));
  }
}
