/** The book form of the frontend (Library-frontend/components/BookForm.tsx):
    the validity rules of its schema and the values it starts from. The
    current year is a parameter. */
module BookForm {
  import opened Errors
  import opened Domain
  import opened Mappings
  import opened Validation

  /** A JavaScript value in the status field: a string, or the number the
      API sends for the enum (0 for Available, 1 for Borrowed). */
  datatype JsValue = Str(s: string) | Num(n: int)

  /** The form's values. A year that is not a number (an empty number input)
      is None. */
  datatype FormData = FormData(title: string, author: string, publicationYear: Option<int>,
                               genre: string, status: JsValue)

  /** The optional initial book; absent fields are None. The status is numeric,
      as the frontend's Book type declares it. */
  datatype InitialData = InitialData(title: Option<string>, author: Option<string>,
                                     publicationYear: Option<int>, genre: Option<string>,
                                     status: Option<int>)

  const MinYear := 1000
  const AvailableText := "Available"
  const BorrowedText := "Borrowed"

  /** A schema issue: the field and the message it shows. */
  datatype Issue = Issue(path: string, message: string)

  /** `min(1)`: at least one character; white space counts. */
  predicate NonEmpty(s: string) { |s| >= 1 }

  predicate YearInRange(year: Option<int>, currentYear: int) {
    year.Some? && MinYear <= year.value <= currentYear
  }

  predicate StatusAccepted(status: JsValue) {
    status == Str(AvailableText) || status == Str(BorrowedText)
  }

  /** bookSchema's verdict: every field passes its rule. */
  predicate SchemaAccepts(d: FormData, currentYear: int) {
    && NonEmpty(d.title)
    && NonEmpty(d.author)
    && YearInRange(d.publicationYear, currentYear)
    && NonEmpty(d.genre)
    && StatusAccepted(d.status)
  }

  function YearIssues(year: Option<int>, currentYear: int): seq<Issue> {
    match year
    case None => [Issue("publicationYear", "El a\U{00F1}o debe ser un n\U{00FA}mero")]
    case Some(y) =>
      (if y < MinYear then [Issue("publicationYear", "A\U{00F1}o inv\U{00E1}lido")] else [])
      + (if y > currentYear then [Issue("publicationYear", "A\U{00F1}o inv\U{00E1}lido")] else [])
  }

  /** The issues bookSchema reports, field by field; none exactly when the
      schema accepts the values. */
  function SchemaIssues(d: FormData, currentYear: int): (issues: seq<Issue>)
    ensures issues == [] <==> SchemaAccepts(d, currentYear)
    ensures forall k :: 0 <= k < |issues| ==>
      issues[k].path in {"title", "author", "publicationYear", "genre", "status"}
  {
    (if NonEmpty(d.title) then [] else [Issue("title", "El t\U{00ED}tulo es obligatorio")])
    + (if NonEmpty(d.author) then [] else [Issue("author", "El autor es obligatorio")])
    + YearIssues(d.publicationYear, currentYear)
    + (if NonEmpty(d.genre) then [] else [Issue("genre", "El g\U{00E9}nero es obligatorio")])
    + (if StatusAccepted(d.status) then [] else [Issue("status", "Invalid enum value")])
  }

  /** `value || fallback` on a string: the empty string is falsy. */
  function OrText(v: Option<string>, fallback: string): string {
    if v.None? || v.value == "" then fallback else v.value
  }

  /** `value || fallback` on a number: zero is falsy. */
  function OrNumber(v: Option<int>, fallback: int): int {
    if v.None? || v.value == 0 then fallback else v.value
  }

  /** defaultValues as written: a status of 0 (Available) is falsy and becomes
      "Available", but a status of 1 (Borrowed) is kept as the number 1. */
  function DefaultValues(initial: InitialData, currentYear: int): (d: FormData)
    ensures d.title == OrText(initial.title, "") && d.author == OrText(initial.author, "")
    ensures d.genre == OrText(initial.genre, "")
    ensures d.publicationYear == Some(OrNumber(initial.publicationYear, currentYear))
    ensures initial.status.None? || initial.status == Some(0) ==> d.status == Str(AvailableText)
    ensures initial.status.Some? && initial.status.value != 0 ==> d.status == Num(initial.status.value)
  {
    FormData(OrText(initial.title, ""), OrText(initial.author, ""),
             Some(OrNumber(initial.publicationYear, currentYear)), OrText(initial.genre, ""),
             if initial.status.None? || initial.status.value == 0 then Str(AvailableText)
             else Num(initial.status.value))
  }

  /** defaultValues as evidently intended: the numeric status is turned into
      the name the select and the schema use. */
  function StatusName(status: Option<int>): (name: string)
    ensures status == Some(1) <==> name == BorrowedText
    ensures name == AvailableText || name == BorrowedText
  {
    if status == Some(1) then BorrowedText else AvailableText
  }

  function CorrectedDefaultValues(initial: InitialData, currentYear: int): (d: FormData)
    ensures d.status == Str(StatusName(initial.status))
    ensures d.title == OrText(initial.title, "") && d.author == OrText(initial.author, "")
    ensures d.genre == OrText(initial.genre, "")
    ensures d.publicationYear == Some(OrNumber(initial.publicationYear, currentYear))
  {
    FormData(OrText(initial.title, ""), OrText(initial.author, ""),
             Some(OrNumber(initial.publicationYear, currentYear)), OrText(initial.genre, ""),
             Str(StatusName(initial.status)))
  }

  /** The initial data the edit page passes: the API's book, status as a number. */
  function FromDto(dto: BookDto): InitialData {
    InitialData(Some(dto.title), Some(dto.author), Some(dto.publicationYear), Some(dto.genre),
                Some(if dto.status == Borrowed then 1 else 0))
  }

  /** With no initial data the form starts from empty texts, the current year
      and "Available"; the schema then rejects it only for the empty texts. */
  lemma EmptyFormDefaults(currentYear: int)
    requires currentYear >= MinYear
    ensures DefaultValues(InitialData(None, None, None, None, None), currentYear)
      == FormData("", "", Some(currentYear), "", Str(AvailableText))
    ensures SchemaIssues(DefaultValues(InitialData(None, None, None, None, None), currentYear), currentYear)
      == [Issue("title", "El t\U{00ED}tulo es obligatorio"), Issue("author", "El autor es obligatorio"),
          Issue("genre", "El g\U{00E9}nero es obligatorio")]
  {
  }

  /** Falsy initial values fall back: an empty title to "", a year of 0 to
      the current year. */
  lemma FalsyInitialValuesFallBack(currentYear: int, initial: InitialData)
    requires initial.title == Some("") && initial.publicationYear == Some(0)
    ensures DefaultValues(initial, currentYear).title == ""
    ensures DefaultValues(initial, currentYear).publicationYear == Some(currentYear)
  {
  }

  /** The finding: editing a Borrowed book starts the status at the number 1,
      which the schema's enum rejects, so the untouched form cannot be saved. */
  lemma BorrowedDefaultsRejected(dto: BookDto, currentYear: int)
    requires dto.status == Borrowed
    ensures DefaultValues(FromDto(dto), currentYear).status == Num(1)
    ensures !SchemaAccepts(DefaultValues(FromDto(dto), currentYear), currentYear)
    ensures Issue("status", "Invalid enum value") in SchemaIssues(DefaultValues(FromDto(dto), currentYear), currentYear)
  {
  }

  /** The corrected defaults always satisfy the status rule and keep the
      book's status: the form starts with the status the API reported. */
  lemma CorrectedDefaultsKeepStatus(dto: BookDto, currentYear: int)
    ensures StatusAccepted(CorrectedDefaultValues(FromDto(dto), currentYear).status)
    ensures CorrectedDefaultValues(FromDto(dto), currentYear).status
      == Str(if dto.status == Borrowed then BorrowedText else AvailableText)
  {
  }

  /** The corrected defaults of a stored book within the schema's year range
      pass the schema, whatever its status. */
  lemma CorrectedDefaultsAccepted(dto: BookDto, currentYear: int)
    requires dto.title != "" && dto.author != "" && dto.genre != ""
    requires MinYear <= dto.publicationYear <= currentYear
    ensures SchemaAccepts(CorrectedDefaultValues(FromDto(dto), currentYear), currentYear)
  {
  }

  /** The request the create page sends for accepted values. */
  function ToCreateRequest(d: FormData): CreateBookRequest
    requires d.publicationYear.Some?
  {
    CreateBookRequest(d.title, d.author, d.publicationYear.value, d.genre)
  }

  /** `min(1)` lets a white-space title through, which the server's validator
      then rejects. */
  lemma WhitespaceAcceptedByFormRejectedByServer(d: FormData, currentYear: int)
    requires SchemaAccepts(d, currentYear)
    requires IsNullOrWhiteSpace(d.title)
    ensures !IsValid(ToCreateRequest(d))
    ensures Validate(ToCreateRequest(d))[0] == ValidationFailure("Title", NotEmpty("Title is required."))
  {
  }

  /** Such values exist: a single space as the title passes the schema. */
  lemma WhitespaceTitleExample(currentYear: int)
    requires currentYear >= 2000
    ensures SchemaAccepts(FormData(" ", "Herbert", Some(1965), "SF", Str(AvailableText)), currentYear)
    ensures !IsValid(ToCreateRequest(FormData(" ", "Herbert", Some(1965), "SF", Str(AvailableText))))
  {
    assert IsWhiteSpace(" "[0]);
  }

  /** Conversely, values the schema accepts pass the server's validator when
      no text is white space only and the lengths are within its limits:
      a year of at least 1000 is positive. */
  lemma AcceptedFormPassesServer(d: FormData, currentYear: int)
    requires SchemaAccepts(d, currentYear)
    requires !IsNullOrWhiteSpace(d.title) && !IsNullOrWhiteSpace(d.author) && !IsNullOrWhiteSpace(d.genre)
    requires |d.title| <= TitleMaxLength && |d.author| <= AuthorMaxLength && |d.genre| <= GenreMaxLength
    ensures IsValid(ToCreateRequest(d))
    ensures Validate(ToCreateRequest(d)) == []
  {
  }
}
