/** The rules a create request must satisfy
    (LibraryAPI.Application/Validators/CreateBookRequestValidator.cs). */
module Validation {
  import opened Domain
  import opened Mappings
  import opened Errors

  /** The rule a failure comes from, with its configured message where the
      validator sets one. */
  datatype Rule =
    | NotEmpty(message: string)
    | MaximumLength(max: nat)
    | GreaterThan(bound: int, message: string)

  datatype ValidationFailure = ValidationFailure(propertyName: string, rule: Rule)

  const TitleMaxLength: nat := 200
  const AuthorMaxLength: nat := 100
  const GenreMaxLength: nat := 100

  /** NotEmpty followed by MaximumLength on a string property: NotEmpty
      rejects an empty or white-space-only string; both rules run. */
  predicate TextOk(s: string, max: nat) {
    !IsNullOrWhiteSpace(s) && |s| <= max
  }

  predicate TitleOk(r: CreateBookRequest) { TextOk(r.title, TitleMaxLength) }
  predicate AuthorOk(r: CreateBookRequest) { TextOk(r.author, AuthorMaxLength) }
  predicate YearOk(r: CreateBookRequest) { r.publicationYear > 0 }
  predicate GenreOk(r: CreateBookRequest) { TextOk(r.genre, GenreMaxLength) }

  /** The validity of a request: all four rules hold. */
  predicate IsValid(r: CreateBookRequest) {
    TitleOk(r) && AuthorOk(r) && YearOk(r) && GenreOk(r)
  }

  function TextFailures(propertyName: string, s: string, max: nat, message: string): seq<ValidationFailure> {
    (if IsNullOrWhiteSpace(s) then [ValidationFailure(propertyName, NotEmpty(message))] else [])
    + (if |s| > max then [ValidationFailure(propertyName, MaximumLength(max))] else [])
  }

  /** The names of the properties that some failure is about. */
  function FailedProperties(failures: seq<ValidationFailure>): set<string> {
    set f | f in failures :: f.propertyName
  }

  /** Validate: the failures of every rule, in declaration order. The list is
      empty exactly when the request is valid. */
  function Validate(r: CreateBookRequest): (failures: seq<ValidationFailure>)
    ensures failures == [] <==> IsValid(r)
  {
    TextFailures("Title", r.title, TitleMaxLength, "Title is required.")
    + TextFailures("Author", r.author, AuthorMaxLength, "Author is required.")
    + (if r.publicationYear > 0 then []
       else [ValidationFailure("PublicationYear", GreaterThan(0, "Publication year must be greater than 0."))])
    + TextFailures("Genre", r.genre, GenreMaxLength, "Genre is required.")
  }

  lemma {:induction false} FailedPropertiesAppend(a: seq<ValidationFailure>, b: seq<ValidationFailure>)
    ensures FailedProperties(a + b) == FailedProperties(a) + FailedProperties(b)
  {
    forall p | p in FailedProperties(a + b) ensures p in FailedProperties(a) + FailedProperties(b) {
      var f :| f in a + b && f.propertyName == p;
    }
    forall p | p in FailedProperties(a) + FailedProperties(b) ensures p in FailedProperties(a + b) {
      if p in FailedProperties(a) {
        var f :| f in a && f.propertyName == p;
        assert f in a + b;
      } else {
        var f :| f in b && f.propertyName == p;
        assert f in a + b;
      }
    }
  }

  lemma FailedPropertiesEmpty()
    ensures FailedProperties([]) == {}
  {
  }

  lemma FailedPropertiesOne(f: ValidationFailure)
    ensures FailedProperties([f]) == {f.propertyName}
  {
    assert f in [f];
  }

  lemma TextFailuresName(propertyName: string, s: string, max: nat, message: string)
    ensures FailedProperties(TextFailures(propertyName, s, max, message))
      == if TextOk(s, max) then {} else {propertyName}
  {
    var a := if IsNullOrWhiteSpace(s) then [ValidationFailure(propertyName, NotEmpty(message))] else [];
    var b := if |s| > max then [ValidationFailure(propertyName, MaximumLength(max))] else [];
    FailedPropertiesAppend(a, b);
  }

  /** The failures name a property exactly when that property's rules fail:
      an empty or over-long Title, Author or Genre, or a PublicationYear of
      zero or less, each gives a failure on that property and on no other. */
  lemma {:induction false} ValidateNamesFailingProperties(r: CreateBookRequest)
    ensures FailedProperties(Validate(r)) ==
      (if TitleOk(r) then {} else {"Title"}) + (if AuthorOk(r) then {} else {"Author"})
      + (if YearOk(r) then {} else {"PublicationYear"}) + (if GenreOk(r) then {} else {"Genre"})
  {
    var t := TextFailures("Title", r.title, TitleMaxLength, "Title is required.");
    var a := TextFailures("Author", r.author, AuthorMaxLength, "Author is required.");
    var y := if r.publicationYear > 0 then []
             else [ValidationFailure("PublicationYear", GreaterThan(0, "Publication year must be greater than 0."))];
    var g := TextFailures("Genre", r.genre, GenreMaxLength, "Genre is required.");
    assert Validate(r) == t + a + y + g;
    TextFailuresName("Title", r.title, TitleMaxLength, "Title is required.");
    TextFailuresName("Author", r.author, AuthorMaxLength, "Author is required.");
    TextFailuresName("Genre", r.genre, GenreMaxLength, "Genre is required.");
    if YearOk(r) { FailedPropertiesEmpty(); } else { FailedPropertiesOne(y[0]); }
    FailedPropertiesAppend(t, a);
    FailedPropertiesAppend(t + a, y);
    FailedPropertiesAppend(t + a + y, g);
  }

  /** A request the validator accepts maps to a book that the entity's guard
      clauses would also accept, although the mapping runs none of them. */
  lemma ValidRequestMapsToWellFormedBook(r: CreateBookRequest, newId: Guid)
    requires IsValid(r)
    ensures WellFormed(Mapped(r, newId))
    ensures Constructed(newId, r.title, r.author, r.publicationYear, r.genre, Available) == Ok(Mapped(r, newId))
  {
  }

  /** The validator is stricter than the guard clauses only through the
      length limits: a request within the limits is valid exactly when the
      guards accept its fields. */
  lemma ValidatorMatchesGuardsWithinLimits(r: CreateBookRequest)
    requires |r.title| <= TitleMaxLength && |r.author| <= AuthorMaxLength && |r.genre| <= GenreMaxLength
    ensures IsValid(r) <==> DetailsValid(r.title, r.author, r.publicationYear, r.genre)
  {
  }
}
