/** The API server's own request handling: the public cache header for
    API reads, the CORS origin check, the 404 fallback and the mapping of
    errors to statuses. */
module Server {

  import opened Js
  import Text

  /** The cache middleware: `Cache-Control: public, max-age=300` on API
      reads, except paths naming the admin or auth areas. */
  predicate CachesPublicly(verb: string, path: string) {
    Text.StartsWith(path, "/api/") && verb == "GET"
    && !Text.Contains(path, "/admin") && !Text.Contains(path, "/auth")
  }

  const CacheControl: string := "public, max-age=300"

  /** The headers the cache middleware sets, as a map. */
  function CacheHeaders(verb: string, path: string): (h: map<string, string>)
    ensures "Cache-Control" in h <==> CachesPublicly(verb, path)
    ensures "Cache-Control" in h ==> h["Cache-Control"] == CacheControl
    ensures |h.Keys| <= 1
  {
    if CachesPublicly(verb, path) then map["Cache-Control" := CacheControl] else map[]
  }

  /** Admin and auth reads are never cached, whatever follows the prefix. */
  lemma AdminNeverCached(verb: string, rest: string)
    ensures "Cache-Control" !in CacheHeaders(verb, "/api/admin" + rest)
    ensures "Cache-Control" !in CacheHeaders(verb, "/api/auth" + rest)
  {
    var a := "/api/admin" + rest;
    assert a[4..10] == "/admin";
    assert Text.OccursAt(a, "/admin", 4);
    var b := "/api/auth" + rest;
    assert b[4..9] == "/auth";
    assert Text.OccursAt(b, "/auth", 4);
  }

  const AllowedOrigins: seq<string> := [
    "http://localhost:3000",
    "http://74.176.208.152:3000",
    "http://localhost:3001",
    "https://vagus.vercel.app",
    "https://vagus-update.vercel.app",
    "https://vagusscience.online",
    "https://www.vagusscience.online"]

  /** The allowlist at start-up: `FRONTEND_URL` is added when set and not
      empty. */
  function Origins(frontendUrl: Option<string>): (o: seq<string>)
    ensures forall u :: u in o <==> u in AllowedOrigins || (frontendUrl.Some? && frontendUrl.value != "" && u == frontendUrl.value)
  {
    if frontendUrl.Some? && frontendUrl.value != "" then AllowedOrigins + [frontendUrl.value] else AllowedOrigins
  }

  /** The `origin` callback: a request without an `Origin` header (or with
      an empty one) passes, as does a listed origin. */
  predicate CorsAllows(origins: seq<string>, origin: Option<string>) {
    origin.None? || origin.value == "" || origin.value in origins
  }

  /** What reaches the global error handler. */
  datatype Error = Error(name: Value, code: Value, message: Value, stack: Value)

  /** The CORS refusal: a plain `Error`. */
  function CorsError(stack: Value): Error {
    Error(Str("Error"), Undefined, Str("Not allowed by CORS"), stack)
  }

  datatype Reply = Reply(status: nat, error: Value, path: Option<string>, stack: Option<Value>)

  /** The 404 handler for anything no route took. */
  function NotFound(originalUrl: string): (r: Reply)
    ensures r.status == 404 && r.path == Some(originalUrl) && r.stack.None?
  {
    Reply(404, Str("Route not found"), Some(originalUrl), None)
  }

  /** The global error handler; `production` is `NODE_ENV === "production"`.
      The first matching name wins; then a duplicate-key code; anything
      else is a 500 that shows its message and stack only outside
      production. */
  function HandleError(e: Error, production: bool): (r: Reply)
    ensures r.path.None?
    ensures r.status == 400 <==> e.name == Str("ValidationError") || e.name == Str("CastError")
    ensures r.status == 401 <==> e.name == Str("JsonWebTokenError") || e.name == Str("TokenExpiredError")
    ensures r.status == 409 <==>
              e.code == Str("ER_DUP_ENTRY")
              && e.name !in [Str("ValidationError"), Str("CastError"), Str("JsonWebTokenError"), Str("TokenExpiredError")]
    ensures r.status == 400 || r.status == 401 || r.status == 409 || r.status == 500
    ensures r.status != 500 ==> r.stack.None?
    ensures r.status == 500 && production ==> r.error == Str("Internal server error") && r.stack.None?
    ensures r.status == 500 && !production ==> r.error == e.message && r.stack == Some(e.stack)
  {
    if e.name == Str("ValidationError") then Reply(400, Str("Invalid input data"), None, None)
    else if e.name == Str("CastError") then Reply(400, Str("Invalid ID format"), None, None)
    else if e.name == Str("JsonWebTokenError") then Reply(401, Str("Invalid token"), None, None)
    else if e.name == Str("TokenExpiredError") then Reply(401, Str("Token expired"), None, None)
    else if e.code == Str("ER_DUP_ENTRY") then Reply(409, Str("Duplicate entry"), None, None)
    else if production then Reply(500, Str("Internal server error"), None, None)
    else Reply(500, e.message, None, Some(e.stack))
  }

  /** A refused origin is not answered with 403: the refusal travels to
      the global handler as a plain error and comes back as a 500, whose
      body names CORS only outside production. */
  lemma CorsRefusalIs500(origins: seq<string>, origin: Option<string>, stack: Value, production: bool)
    requires !CorsAllows(origins, origin)
    ensures HandleError(CorsError(stack), production).status == 500
    ensures !production ==> HandleError(CorsError(stack), production).error == Str("Not allowed by CORS")
  {
  }

  /** A production 500 reveals nothing of the error. */
  lemma ProductionHidesDetails(e: Error, f: Error)
    requires HandleError(e, true).status == 500 && HandleError(f, true).status == 500
    ensures HandleError(e, true) == HandleError(f, true)
  {
  }

  /** The 404 of an unmatched route is never mistaken for an error reply:
      no error maps to 404, and the reply names the URL it did not match. */
  lemma NotFoundDistinct(e: Error, production: bool, url: string, other: string)
    ensures HandleError(e, production) != NotFound(url)
    ensures NotFound(url) == NotFound(other) <==> url == other
  {
  }
}
