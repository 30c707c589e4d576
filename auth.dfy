/** The credential check of the login service
    (LibraryAPI.Infrastructure/Services/AuthService.cs). The signed token is
    an opaque function of the user name and role, passed in as `token`. */
module Auth {
  import opened Errors

  datatype User = User(id: nat, username: string, email: string, passwordHash: string, role: string)
  datatype LoginRequest = LoginRequest(username: string, password: string)
  datatype LoginResponse = LoginResponse(token: string, username: string, role: string)

  const BadCredentials := "Incorrect username or password"

  /** FirstOrDefault with an exact user name comparison: the index of the
      first user with that name, or None when no user has it. */
  function FirstWithUsername(users: seq<User>, username: string): (r: Option<nat>)
    ensures r.None? <==> forall i :: 0 <= i < |users| ==> users[i].username != username
    ensures r.Some? ==>
      && r.value < |users|
      && users[r.value].username == username
      && forall j :: 0 <= j < r.value ==> users[j].username != username
  {
    if users == [] then None
    else if users[0].username == username then Some(0)
    else
      match FirstWithUsername(users[1..], username)
      case None => None
      case Some(k) => Some(k + 1)
  }

  /** LoginAsync: an unknown user name and a wrong password fail with the same
      UnauthorizedAccessException; otherwise the response carries a token made
      from the matched user's name and role, and that name and role. */
  function Login(users: seq<User>, request: LoginRequest, token: (string, string) -> string): (r: Result<LoginResponse>)
    ensures r.Err? ==> r.error == Unauthorized(BadCredentials)
    ensures (forall i :: 0 <= i < |users| ==> users[i].username != request.username) ==> r.Err?
    ensures r.Ok? <==>
      exists i :: 0 <= i < |users| && users[i].username == request.username
        && users[i].passwordHash == request.password
        && (forall j :: 0 <= j < i ==> users[j].username != request.username)
    ensures r.Ok? ==>
      exists i :: 0 <= i < |users| && users[i].username == request.username
        && (forall j :: 0 <= j < i ==> users[j].username != request.username)
        && r.value == LoginResponse(token(users[i].username, users[i].role), users[i].username, users[i].role)
  {
    match FirstWithUsername(users, request.username)
    case None => Err(Unauthorized(BadCredentials))
    case Some(i) =>
      var user := users[i];
      if user.passwordHash != request.password then Err(Unauthorized(BadCredentials))
      else Ok(LoginResponse(token(user.username, user.role), user.username, user.role))
  }

  /** The user names are unique, as the unique index on Username guarantees. */
  predicate UniqueUsernames(users: seq<User>) {
    forall i, j :: 0 <= i < j < |users| ==> users[i].username != users[j].username
  }

  /** With unique user names, login succeeds exactly for a user whose name
      and stored password both match, and answers with that user's name and role. */
  lemma LoginWithUniqueUsernames(users: seq<User>, request: LoginRequest, token: (string, string) -> string, k: nat)
    requires UniqueUsernames(users)
    requires k < |users| && users[k].username == request.username
    ensures Login(users, request, token).Ok? <==> users[k].passwordHash == request.password
    ensures Login(users, request, token).Ok? ==>
      Login(users, request, token).value == LoginResponse(token(users[k].username, users[k].role), users[k].username, users[k].role)
  {
    var r := FirstWithUsername(users, request.username);
    assert r == Some(k);
  }

  /** The two failures cannot be told apart: whatever the request, a failing
      login gives the same error. */
  lemma FailuresIndistinguishable(users: seq<User>, a: LoginRequest, b: LoginRequest, token: (string, string) -> string)
    requires Login(users, a, token).Err? && Login(users, b, token).Err?
    ensures Login(users, a, token) == Login(users, b, token)
  {
  }

  /** Only the first user with a name counts: a later user with the same name
      and the right password does not log in when the first one's password differs. */
  lemma OnlyFirstMatchIsChecked(users: seq<User>, request: LoginRequest, token: (string, string) -> string, i: nat, j: nat)
    requires i < j < |users|
    requires users[i].username == request.username && users[j].username == request.username
    requires forall m :: 0 <= m < i ==> users[m].username != request.username
    requires users[i].passwordHash != request.password && users[j].passwordHash == request.password
    ensures Login(users, request, token) == Err(Unauthorized(BadCredentials))
  {
    assert FirstWithUsername(users, request.username) == Some(i);
  }

  /** The token depends on nothing but the matched user's name and role: two
      user tables whose matched users agree on those give the same response. */
  lemma TokenDependsOnlyOnNameAndRole(users1: seq<User>, users2: seq<User>, request: LoginRequest,
                                      token: (string, string) -> string)
    requires Login(users1, request, token).Ok? && Login(users2, request, token).Ok?
    requires Login(users1, request, token).value.role == Login(users2, request, token).value.role
    ensures Login(users1, request, token) == Login(users2, request, token)
  {
  }
}
