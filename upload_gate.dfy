/**
 * The gate in front of the per-upload coordinator (`validateRequestId`,
 * `checkAppAccess` and the start of `uploadHandler` in index.ts): an upload
 * request is forwarded only when its id has no `..` and its `Authorization`
 * header equals the configured token; otherwise it is answered with an error.
 */
module UploadGate {
  import opened Wrappers
  import opened Strings
  import opened Http

  /** The id holds two consecutive dots somewhere. */
  predicate HasDotDot(s: string) {
    exists i :: 0 <= i < |s| - 1 && s[i] == '.' && s[i + 1] == '.'
  }

  /** Searching for the substring `..` finds exactly the ids with two consecutive dots. */
  lemma {:induction false} IncludesDotDot(s: string)
    ensures Includes(s, "..") <==> HasDotDot(s)
    decreases |s|
  {
    if |s| > 0 {
      IncludesDotDot(s[1..]);
      if HasDotDot(s[1..]) {
        var i :| 0 <= i < |s[1..]| - 1 && s[1..][i] == '.' && s[1..][i + 1] == '.';
        assert s[i + 1] == '.' && s[i + 2] == '.';
      }
      if HasDotDot(s) {
        var i :| 0 <= i < |s| - 1 && s[i] == '.' && s[i + 1] == '.';
        if i > 0 {
          assert s[1..][i - 1] == '.' && s[1..][i] == '.';
        }
      }
      if 2 <= |s| {
        assert (s[..2] == "..") <==> (s[0] == '.' && s[1] == '.');
      }
    }
  }

  const TraversalMessage := "Path traversal detected"
  const UnauthorizedMessage := "Unauthorized"
  const NamespaceMessage := "Invalid bucket configuration"

  /** `validateRequestId`: throws exactly when the id contains `..`, and returns true otherwise. */
  function ValidateRequestId(requestId: string): (r: Result<bool, string>)
    ensures r.Failure? <==> HasDotDot(requestId)
    ensures r.Success? ==> r.value
    ensures r.Failure? ==> r.error == TraversalMessage
  {
    IncludesDotDot(requestId);
    if Includes(requestId, "..") then Failure(TraversalMessage) else Success(true)
  }

  /**
   * `checkAppAccess`: the `Authorization` header must be identical to the
   * configured token, a missing header matching only a missing token.
   */
  function CheckAppAccess(authorization: Option<string>, authToken: Option<string>): (r: Result<(), string>)
    ensures r.Success? <==> authorization == authToken
    ensures r.Failure? ==> r.error == UnauthorizedMessage
  {
    if authorization != authToken then Failure(UnauthorizedMessage) else Success(())
  }

  /** The message of a caught error, or `Unknown error` when it has none. */
  function ErrorMessage(error: string): (message: string)
    ensures message != ""
    ensures error != "" ==> message == error
    ensures error == "" ==> message == "Unknown error"
  {
    if error == "" then "Unknown error" else error
  }

  /** What `uploadHandler` does with a request: forward it to the coordinator for `id`, or answer it. */
  datatype UploadOutcome = Forward(id: string) | Reply(response: Response)

  /**
   * `uploadHandler` up to the forwarding call. The id is validated first and the
   * token second, each failure answered with 400 and its message; a missing
   * coordinator namespace is answered with 500; only a request passing all three
   * is forwarded, to the coordinator named by its own id.
   */
  function UploadHandler(requestId: string, req: Request, authToken: Option<string>, namespaceBound: bool)
    : (o: UploadOutcome)
    ensures o.Forward? <==> !HasDotDot(requestId) && req.authorization == authToken && namespaceBound
    ensures o.Forward? ==> o.id == requestId
    ensures HasDotDot(requestId) ==> o == Reply(ErrorResponse(400, TraversalMessage))
    ensures !HasDotDot(requestId) && req.authorization != authToken ==>
      o == Reply(ErrorResponse(400, UnauthorizedMessage))
    ensures !HasDotDot(requestId) && req.authorization == authToken && !namespaceBound ==>
      o == Reply(ErrorResponse(500, NamespaceMessage))
  {
    match ValidateRequestId(requestId)
    case Failure(error) => Reply(ErrorResponse(400, ErrorMessage(error)))
    case Success(_) =>
      match CheckAppAccess(req.authorization, authToken)
      case Failure(error) => Reply(ErrorResponse(400, ErrorMessage(error)))
      case Success(_) =>
        if !namespaceBound then Reply(ErrorResponse(500, NamespaceMessage))
        else Forward(requestId)
  }

  /** An id written as a parent-directory step is never forwarded, whatever its headers. */
  lemma TraversalIdRejected(prefix: string, suffix: string, req: Request, authToken: Option<string>, namespaceBound: bool)
    ensures UploadHandler(prefix + "../" + suffix, req, authToken, namespaceBound)
      == Reply(ErrorResponse(400, TraversalMessage))
  {
    var id := prefix + "../" + suffix;
    assert id[|prefix|] == '.' && id[|prefix| + 1] == '.';
  }

  /**
   * As written, a deployment with no token configured accepts every upload
   * request that carries no `Authorization` header.
   */
  lemma MissingTokenAcceptsMissingHeader(requestId: string, url: string, range: Option<string>)
    requires !HasDotDot(requestId)
    ensures UploadHandler(requestId, Request(url, None, range), None, true) == Forward(requestId)
  {
  }
}
