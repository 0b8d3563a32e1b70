/** The request gate in front of the CRM: API paths need a bearer
    authorization header, page paths need the `auth-token` cookie. The
    token itself is not checked here. */
module Gate {
  import opened Base

  datatype Decision = Unauthorized | RedirectToLogin | PassThrough

  const ApiPrefix := "/api/crm"
  const PagePrefix := "/crm"
  const BearerPrefix := "Bearer "

  /** The HTTP status each decision answers with; passing through leaves
      the answer to the route. */
  function HttpStatus(d: Decision): int
  {
    match d
    case Unauthorized => 401
    case RedirectToLogin => 307
    case PassThrough => 200
  }

  /** The gate function: `authorization` is the header if sent,
      `hasAuthCookie` whether an `auth-token` cookie is present. */
  function Decide(path: string, authorization: Option<string>, hasAuthCookie: bool): (d: Decision)
    ensures d == Unauthorized <==>
              ApiPrefix <= path && (authorization.None? || !(BearerPrefix <= authorization.value))
  {
    if ApiPrefix <= path && (authorization.None? || authorization.value == "" || !(BearerPrefix <= authorization.value)) then
      Unauthorized
    else if PagePrefix <= path && !hasAuthCookie then
      RedirectToLogin
    else
      PassThrough
  }

  /** API paths are never redirected: they do not start with the page
      prefix. */
  lemma ApiNeverRedirected(path: string, authorization: Option<string>, hasAuthCookie: bool)
    requires ApiPrefix <= path
    ensures !(PagePrefix <= path)
    ensures Decide(path, authorization, hasAuthCookie) != RedirectToLogin
  {
    assert path[1] == 'a';
  }

  /** A page request is redirected exactly when it lacks the cookie. */
  lemma RedirectExactly(path: string, authorization: Option<string>, hasAuthCookie: bool)
    ensures Decide(path, authorization, hasAuthCookie) == RedirectToLogin <==> PagePrefix <= path && !hasAuthCookie
  {
    if ApiPrefix <= path {
      ApiNeverRedirected(path, authorization, hasAuthCookie);
    }
  }

  /** Any header that starts with the bearer prefix gets through, whatever
      follows it: the token is verified by the routes, not here. */
  lemma TokenNotVerified(path: string, token: string, hasAuthCookie: bool)
    ensures Decide(path, Some(BearerPrefix + token), hasAuthCookie) != Unauthorized
  {
    assert BearerPrefix <= BearerPrefix + token;
  }

  /** The paths the gate is registered for: `/api/crm/:path*` and
      `/crm/:path*`. */
  predicate InScope(path: string)
  {
    path == ApiPrefix || ApiPrefix + "/" <= path || path == PagePrefix || PagePrefix + "/" <= path
  }

  /** The decision a request meets: the gate's for registered paths,
      passing through for the rest. */
  function Effective(path: string, authorization: Option<string>, hasAuthCookie: bool): (d: Decision)
    ensures !InScope(path) ==> d == PassThrough
  {
    if InScope(path) then Decide(path, authorization, hasAuthCookie) else PassThrough
  }

  /** The gate's own prefix test also catches `/crmx`, but the registration
      never sends that path to it, so it passes unchallenged. */
  lemma LookalikePath()
    ensures Decide("/crmx", None, false) == RedirectToLogin
    ensures Effective("/crmx", None, false) == PassThrough
  {
    assert PagePrefix <= "/crmx";
    var p := "/crmx";
    assert (PagePrefix + "/")[4] == '/' && p[4] == 'x';
    assert (ApiPrefix + "/")[1] == 'a' && p[1] == 'c';
    assert !InScope(p);
  }

  /** Within its registered paths, the gate protects every page and API
      path: without credentials nothing passes. */
  lemma NoCredentialsNoEntry(path: string)
    requires InScope(path)
    ensures Effective(path, None, false) != PassThrough
  {
    if !(ApiPrefix <= path) {
      assert path == PagePrefix || PagePrefix + "/" <= path;
      assert PagePrefix <= path;
    }
  }
}
