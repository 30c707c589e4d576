/** The frontend route guard (Library-frontend/middleware.ts): which pages
    need a login, which need the admin role, and where a request is sent.
    The token decoder is a parameter that answers None where decoding throws. */
module RouteGuard {
  import opened Errors

  /** The claims the guard reads from a decoded token; a claim may be absent. */
  datatype DecodedToken = DecodedToken(name: Option<string>, role: Option<string>)

  datatype Decision = RedirectToLogin | RedirectToBooks | Next

  const BooksPath := "/books"
  const NewBookPath := "/books/new"
  const LoginPath := "/login"
  const AdminRole := "admin"

  predicate StartsWith(s: string, prefix: string) {
    |prefix| <= |s| && s[..|prefix|] == prefix
  }

  /** A path segment as `[^/]+` matches it: non-empty, without a slash. */
  predicate IsSegment(seg: string) {
    |seg| > 0 && forall i :: 0 <= i < |seg| ==> seg[i] != '/'
  }

  function EditPath(seg: string): string {
    "/books/" + seg + "/edit"
  }

  /** The admin route pattern `^/books/[^/]+/edit$`, checked character by character. */
  predicate MatchesEditPattern(p: string) {
    && |p| >= 13
    && p[..7] == "/books/"
    && p[|p| - 5..] == "/edit"
    && forall i :: 7 <= i < |p| - 5 ==> p[i] != '/'
  }

  /** isProtectedRoute: a prefix test, so "/bookstore" is protected too. */
  predicate IsProtectedRoute(p: string) {
    StartsWith(p, BooksPath)
  }

  /** isAdminRoute: "/books/new" exactly, or the edit pattern. */
  predicate IsAdminRoute(p: string) {
    p == NewBookPath || MatchesEditPattern(p)
  }

  /** isPublicRoute: "/login" exactly. */
  predicate IsPublicRoute(p: string) {
    p == LoginPath
  }

  /** `!token` is true for a missing cookie and for an empty one. */
  predicate HasToken(token: Option<string>) {
    token.Some? && token.value != ""
  }

  /** The admin check on a token: a token that does not decode sends the
      caller to the login page, a role other than "admin" (or none) to the
      book list, and an admin passes on (None). */
  function AdminCheck(token: string, decode: string -> Option<DecodedToken>): Option<Decision> {
    match decode(token)
    case None => Some(RedirectToLogin)
    case Some(decoded) => if decoded.role != Some(AdminRole) then Some(RedirectToBooks) else None
  }

  /** middleware: the checks in their order, the first that fires decides. */
  function Decide(pathname: string, token: Option<string>, decode: string -> Option<DecodedToken>): (d: Decision)
    ensures !HasToken(token) && IsProtectedRoute(pathname) ==> d == RedirectToLogin
    ensures HasToken(token) && IsAdminRoute(pathname) && decode(token.value).None? ==> d == RedirectToLogin
    ensures HasToken(token) && IsAdminRoute(pathname) && decode(token.value).Some? ==>
      (decode(token.value).value.role != Some(AdminRole) ==> d == RedirectToBooks)
    ensures HasToken(token) && IsPublicRoute(pathname) ==> d == RedirectToBooks
    ensures d == RedirectToLogin <==>
      || (!HasToken(token) && IsProtectedRoute(pathname))
      || (HasToken(token) && IsAdminRoute(pathname) && decode(token.value).None?)
    ensures d == Next <==>
      if HasToken(token) then
        && !IsPublicRoute(pathname)
        && (IsAdminRoute(pathname) ==> decode(token.value).Some? && decode(token.value).value.role == Some(AdminRole))
      else !IsProtectedRoute(pathname)
  {
    AdminRouteIsProtected(pathname);
    if !HasToken(token) && (IsProtectedRoute(pathname) || IsAdminRoute(pathname)) then RedirectToLogin
    else if HasToken(token) && IsAdminRoute(pathname) && AdminCheck(token.value, decode).Some? then
      AdminCheck(token.value, decode).value
    else if HasToken(token) && IsPublicRoute(pathname) then RedirectToBooks
    else Next
  }

  /** Every admin route is also a protected route, so a caller without a
      token is sent to the login page before any role is looked at. */
  lemma AdminRouteIsProtected(p: string)
    ensures IsAdminRoute(p) ==> IsProtectedRoute(p)
  {
    if MatchesEditPattern(p) {
      assert p[..6] == p[..7][..6];
    }
  }

  /** The character-level check is the regular expression: a path matches
      exactly when it is "/books/", one segment, and "/edit". */
  lemma {:induction false} EditPatternIff(p: string)
    ensures MatchesEditPattern(p) <==> exists seg :: IsSegment(seg) && p == EditPath(seg)
  {
    if MatchesEditPattern(p) {
      var seg := p[7..|p| - 5];
      assert forall i :: 0 <= i < |seg| ==> seg[i] == p[i + 7];
      assert IsSegment(seg);
      assert p == p[..7] + seg + p[|p| - 5..];
      assert p == EditPath(seg);
    }
    if exists seg :: IsSegment(seg) && p == EditPath(seg) {
      var seg :| IsSegment(seg) && p == EditPath(seg);
      assert |p| == |seg| + 12;
      forall i | 7 <= i < |p| - 5 ensures p[i] != '/' {
        assert p[i] == seg[i - 7];
      }
      assert p[..7] == "/books/";
      assert p[|p| - 5..] == "/edit";
    }
  }

  /** The login page with no token, and a non-admin book page with a token,
      both pass through. */
  lemma PassThroughCases(seg: string, token: string, decode: string -> Option<DecodedToken>)
    requires token != ""
    ensures Decide(LoginPath, None, decode) == Next
    ensures Decide(BooksPath, Some(token), decode) == Next
    ensures Decide(BooksPath + "/" + seg, Some(token), decode) == Next <==>
      !IsAdminRoute(BooksPath + "/" + seg) || (decode(token).Some? && decode(token).value.role == Some(AdminRole))
  {
    assert LoginPath[..6][1] != BooksPath[1];
  }

  /** An empty cookie counts as no token: the book list sends the visitor to the login page. */
  lemma EmptyTokenIsNoToken(decode: string -> Option<DecodedToken>)
    ensures Decide(BooksPath, Some(""), decode) == RedirectToLogin
    ensures Decide(LoginPath, Some(""), decode) == Next
  {
    assert LoginPath[..6][1] != BooksPath[1];
  }
}
