/**
 * The routes of the worker (index.ts): the middlewares that take the file id
 * from the upload metadata (POST) or from the path (PATCH, GET), followed by
 * the upload gate or the read path. The metadata parser is not modelled: its
 * `filename` entry is an input.
 */
module Routes {
  import opened Wrappers
  import opened Http
  import opened UploadGate
  import opened ReadPath

  /** The worker's bindings: the access token, the attachment bucket, and whether the coordinator namespace is bound. */
  datatype Env = Env(authToken: Option<string>, bucket: Option<Bucket>, uploadNamespace: bool)

  /** `setKeyFromMetadata` and `setKeyFromIdParam`: a missing file id is answered with 404 before any handler runs. */
  function RequireFileId(fileId: Option<string>): (r: Result<string, Response>)
    ensures r.Success? <==> fileId.Some?
    ensures r.Success? ==> r.value == fileId.value
    ensures r.Failure? ==> r.error == ErrorResponse(404, NotFoundMessage)
  {
    match fileId
    case None => Failure(ErrorResponse(404, NotFoundMessage))
    case Some(id) => Success(id)
  }

  /** A route that reaches the upload gate, given the file id its middleware found. */
  function UploadRoute(fileId: Option<string>, req: Request, env: Env): (o: UploadOutcome)
    ensures o.Forward? <==>
      fileId.Some? && !HasDotDot(fileId.value) && req.authorization == env.authToken && env.uploadNamespace
    ensures o.Forward? ==> o.id == fileId.value
    ensures fileId.None? ==> o == Reply(ErrorResponse(404, NotFoundMessage))
    ensures fileId.Some? ==> o == UploadHandler(fileId.value, req, env.authToken, env.uploadNamespace)
  {
    match RequireFileId(fileId)
    case Failure(response) => Reply(response)
    case Success(id) => UploadHandler(id, req, env.authToken, env.uploadNamespace)
  }

  /** `POST /files/attachments`: the id is the `filename` entry of the upload metadata. */
  function PostFiles(metadataFilename: Option<string>, req: Request, env: Env): (o: UploadOutcome)
    ensures o.Forward? <==>
      metadataFilename.Some? && !HasDotDot(metadataFilename.value) && req.authorization == env.authToken && env.uploadNamespace
    ensures o.Forward? ==> o.id == metadataFilename.value
    ensures metadataFilename.None? ==> o == Reply(ErrorResponse(404, NotFoundMessage))
    ensures metadataFilename.Some? ==> o == UploadHandler(metadataFilename.value, req, env.authToken, env.uploadNamespace)
  {
    UploadRoute(metadataFilename, req, env)
  }

  /** `PATCH /files/attachments/:id`: the id is the rest of the path. */
  function PatchFiles(idParam: Option<string>, req: Request, env: Env): (o: UploadOutcome)
    ensures o.Forward? <==>
      idParam.Some? && !HasDotDot(idParam.value) && req.authorization == env.authToken && env.uploadNamespace
    ensures o.Forward? ==> o.id == idParam.value
    ensures idParam.None? ==> o == Reply(ErrorResponse(404, NotFoundMessage))
    ensures idParam.Some? ==> o == UploadHandler(idParam.value, req, env.authToken, env.uploadNamespace)
  {
    UploadRoute(idParam, req, env)
  }

  /** `GET /files/attachments/:id`: the read path, with no id validation and no token check. */
  function GetFiles(
    idParam: Option<string>, req: Request, env: Env, cache: Cache,
    checksumHeader: string, toBase64: seq<bv8> -> string): (res: ReadResult)
    ensures idParam.None? ==> res == ReadResult(ErrorResponse(404, NotFoundMessage), [])
    ensures idParam.Some? ==> res == GetHandler(idParam.value, req, env.bucket, cache, checksumHeader, toBase64)
  {
    match RequireFileId(idParam)
    case Failure(response) => ReadResult(response, [])
    case Success(id) => GetHandler(id, req, env.bucket, cache, checksumHeader, toBase64)
  }

  /** No upload route forwards an id containing `..`; both answer 400 before any coordinator is addressed. */
  lemma TraversalNeverForwarded(id: string, req: Request, env: Env)
    requires HasDotDot(id)
    ensures PostFiles(Some(id), req, env) == Reply(ErrorResponse(400, TraversalMessage))
    ensures PatchFiles(Some(id), req, env) == Reply(ErrorResponse(400, TraversalMessage))
  {
  }

  /**
   * Reads are not gated: on a cache miss the bucket is read for any id,
   * including one with `..`, whatever the `Authorization` header says.
   */
  lemma ReadsAreNotGated(
    id: string, req: Request, env: Env, cache: Cache,
    checksumHeader: string, toBase64: seq<bv8> -> string)
    requires env.bucket.Some? && req.url !in cache
    ensures BucketGet(id, req.range) in GetFiles(Some(id), req, env, cache, checksumHeader, toBase64).effects
  {
    var res := GetFiles(Some(id), req, env, cache, checksumHeader, toBase64);
    assert res.effects[..2][1] == BucketGet(id, req.range);
  }
}
