/** The request-independent logic of backend/server.js: the list of allowed
    origins built from FRONTEND_URL, the CORS origin check, and the global
    error handler's mapping from errors to HTTP answers. */
module Server {
  import opened Js
  import opened Strings

  /** Used when FRONTEND_URL is unset or empty. */
  const FallbackOrigins: seq<string> :=
    ["http://localhost:3000", "http://localhost:3001", "https://localhost:3000"]

  /** `s.replace(/\/+$/, '')`: drops the run of `/` at the end. */
  function StripTrailingSlashes(s: string): (r: string)
    ensures |r| <= |s| && r == s[..|r|]
    ensures forall i :: |r| <= i < |s| ==> s[i] == '/'
    ensures r == [] || r[|r| - 1] != '/'
  {
    if s != [] && s[|s| - 1] == '/' then
      var r := StripTrailingSlashes(s[..|s| - 1]);
      assert s[..|s| - 1][..|r|] == s[..|r|];
      r
    else s
  }

  /** `entry` is `piece` trimmed and then cut before its trailing slashes:
      trimmed `piece` is `entry` followed by nothing but `/`, and `entry`
      itself does not end in `/`. */
  ghost predicate NormalizedFrom(piece: string, entry: string) {
    var t := Trim(piece);
    && |entry| <= |t|
    && entry == t[..|entry|]
    && (forall k :: |entry| <= k < |t| ==> t[k] == '/')
    && (entry == [] || entry[|entry| - 1] != '/')
  }

  /** `o.trim().replace(/\/+$/, '')`. */
  function NormalizeOrigin(o: string): (r: string)
    ensures NormalizedFrom(o, r)
    ensures |r| <= |o|
  {
    StripTrailingSlashes(Trim(o))
  }

  /** An entry that is already trimmed and has no trailing slash is left
      alone, so normalizing twice changes nothing. */
  lemma NormalizeStable(o: string)
    requires IsTrimmed(o) && (o == [] || o[|o| - 1] != '/')
    ensures NormalizeOrigin(o) == o
  {
    assert Trim(o) == o;
    assert StripTrailingSlashes(o) == o;
  }

  /** `allowedOrigins`. `frontendUrl` is `None` when FRONTEND_URL is
      unset; an empty value is falsy too and selects the fallback list. */
  function AllowedOrigins(frontendUrl: Option<string>): (list: seq<string>)
    ensures frontendUrl.None? || frontendUrl.value == [] ==> list == FallbackOrigins
    ensures frontendUrl.Some? && frontendUrl.value != [] ==>
      exists pieces ::
        && Join(pieces, ",") == frontendUrl.value
        && (forall k :: 0 <= k < |pieces| ==> ',' !in pieces[k])
        && |list| == |pieces|
        && forall k :: 0 <= k < |list| ==> NormalizedFrom(pieces[k], list[k])
  {
    if frontendUrl.None? || frontendUrl.value == [] then FallbackOrigins
    else
      var pieces := Split(frontendUrl.value, ",");
      SplitJoin(frontendUrl.value, ",");
      PiecesCommaFree(frontendUrl.value);
      var list := seq(|pieces|, k requires 0 <= k < |pieces| => NormalizeOrigin(pieces[k]));
      assert forall k :: 0 <= k < |list| ==> NormalizedFrom(pieces[k], list[k]);
      list
  }

  /** The pieces of a comma split hold no comma. */
  lemma PiecesCommaFree(s: string)
    ensures forall k :: 0 <= k < |Split(s, ",")| ==> ',' !in Split(s, ",")[k]
  {
    var pieces := Split(s, ",");
    SplitPiecesFree(s, ",");
    forall k | 0 <= k < |pieces| ensures ',' !in pieces[k] {
      assert !Contains(pieces[k], ",");
      forall i | 0 <= i < |pieces[k]| ensures pieces[k][i] != ',' {
        assert !OccursAt(pieces[k], ",", i);
        assert pieces[k][i..i + 1] == [pieces[k][i]];
      }
    }
  }

  /* ---- The origin callback ---- */

  datatype CorsDecision = Allow | Reject(message: string)

  /** The text the CORS error handler looks for. */
  const CorsMarker: string := "not allowed by CORS"

  /** `corsOptions.origin`. `origin` is `None` when the request carries no
      Origin header. */
  function CheckOrigin(allowed: seq<string>, origin: Option<string>): (d: CorsDecision)
    ensures origin.None? || origin.value == [] ==> d == Allow
    ensures origin.Some? && origin.value != [] ==> (d == Allow <==> origin.value in allowed)
    ensures d.Reject? ==> Contains(d.message, CorsMarker)
  {
    if origin.None? || origin.value == [] then Allow
    else if origin.value in allowed then Allow
    else
      var m := "Origin " + origin.value + " not allowed by CORS policy";
      assert OccursAt(m, CorsMarker, 8 + |origin.value|) by {
        assert m == "Origin " + origin.value + " " + CorsMarker + " policy";
        OccursWithin("Origin " + origin.value + " ", CorsMarker, " policy", CorsMarker, 0);
      }
      Reject(m)
  }

  /* ---- The global error handler ---- */

  /** One entry of a Mongoose `ValidationError`'s `errors` object. */
  datatype FieldError = FieldError(path: string, message: string)

  /** The parts of a thrown error the handler reads. `message` is "" when
      absent; `status` is `None` when absent. */
  datatype AppError = AppError(name: string, message: string, status: Option<int>, errors: seq<FieldError>)

  datatype ErrorKind = CorsError | ValidationFailed | JwtInvalid | JwtExpired | DatabaseError | InternalError

  datatype ErrorReply = ErrorReply(status: int, kind: ErrorKind, message: string, details: seq<string>)

  predicate IsCorsError(e: AppError) {
    e.message != [] && Contains(e.message, CorsMarker)
  }

  /** The field messages, one per entry, in order. */
  function Messages(errors: seq<FieldError>): (ms: seq<string>)
    ensures |ms| == |errors|
    ensures forall i :: 0 <= i < |errors| ==> ms[i] == errors[i].message
  {
    if errors == [] then [] else [errors[0].message] + Messages(errors[1..])
  }

  /** The handler tests, in order: the CORS message, a validation error,
      the two token errors, the two database errors; anything else answers
      with the error's own status or 500. */
  function HandleError(e: AppError): (r: ErrorReply)
    ensures r.kind == CorsError <==> IsCorsError(e)
    ensures r.kind == ValidationFailed <==> !IsCorsError(e) && e.name == "ValidationError"
    ensures r.kind == JwtInvalid <==> !IsCorsError(e) && e.name == "JsonWebTokenError"
    ensures r.kind == JwtExpired <==> !IsCorsError(e) && e.name == "TokenExpiredError"
    ensures r.kind == DatabaseError <==>
      !IsCorsError(e) && (e.name == "MongoError" || e.name == "MongooseError")
    ensures r.kind == CorsError ==> r.status == 403 && r.details == [e.message]
    ensures r.kind == ValidationFailed ==>
      && r.status == 400
      && |r.details| == |e.errors|
      && forall i :: 0 <= i < |e.errors| ==> r.details[i] == e.errors[i].message
    ensures r.kind == JwtInvalid || r.kind == JwtExpired ==> r.status == 401
    ensures r.kind == DatabaseError ==> r.status == 500
    ensures r.kind == InternalError ==>
      && (e.status.None? || e.status.value == 0 ==> r.status == 500)
      && (e.status.Some? && e.status.value != 0 ==> r.status == e.status.value)
      && (r.message == if e.message != [] then e.message else "Internal server error")
  {
    if IsCorsError(e) then
      ErrorReply(403, CorsError, "Cross-Origin Request Blocked", [e.message])
    else if e.name == "ValidationError" then
      ErrorReply(400, ValidationFailed, "Validation failed", Messages(e.errors))
    else if e.name == "JsonWebTokenError" then
      ErrorReply(401, JwtInvalid, "Invalid authentication token", [])
    else if e.name == "TokenExpiredError" then
      ErrorReply(401, JwtExpired, "Authentication token has expired", [])
    else if e.name == "MongoError" || e.name == "MongooseError" then
      ErrorReply(500, DatabaseError, "Database operation failed", [])
    else
      var status := if e.status.None? || e.status.value == 0 then 500 else e.status.value;
      ErrorReply(status, InternalError, if e.message != [] then e.message else "Internal server error", [])
  }

  /** A rejected origin always reaches the client as a 403, whatever the
      error's name or status. */
  lemma RejectedOriginIs403(allowed: seq<string>, origin: string, name: string,
                            status: Option<int>, errors: seq<FieldError>)
    requires CheckOrigin(allowed, Some(origin)).Reject?
    ensures var m := CheckOrigin(allowed, Some(origin)).message;
      HandleError(AppError(name, m, status, errors)).status == 403
  {
  }

  /** Only an origin outside the list, given explicitly, is rejected; the
      comparison is exact, so an entry differing only by a trailing slash
      does not match. */
  lemma TrailingSlashOriginRejected()
    ensures CheckOrigin(["http://a.com"], Some("http://a.com/")).Reject?
  {
    assert "http://a.com/" != "http://a.com";
  }
}
