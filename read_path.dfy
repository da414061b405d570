/**
 * The read path of the worker (`getHandler` and `objectHeaders` in index.ts):
 * a GET of a finished upload is answered from the edge cache when it can be,
 * otherwise from the bucket, with a `206` and a `Content-Range` header when
 * the object was read with a range, and with a `200` that is also written to
 * the cache otherwise.
 *
 * The bucket, the cache and the base64 encoder are inputs: the bucket as a
 * lookup of an id and the request's `Range` header, the cache as a map from
 * request URL to stored response. What the handler asks of them is recorded
 * as a sequence of effects, in the order the handler issues them.
 */
module ReadPath {
  import opened Wrappers
  import opened Strings
  import opened Http
  import opened ContentRangeHeader

  /**
   * What an R2 read returns, as far as the handler looks at it. `httpMetadata`
   * is the header bag that `writeHttpMetadata` fills in (content type,
   * disposition, encoding, cache control and the like).
   */
  datatype R2Object = R2Object(
    key: string,
    size: nat,
    httpEtag: string,
    httpMetadata: Headers,
    sha256: Option<seq<bv8>>,
    customMetadata: Option<map<string, string>>,
    range: Option<R2Range>)

  /** `headers.set(name, value)`: header names are case-insensitive and stored lower-cased. */
  function SetHeader(headers: Headers, name: string, value: string): Headers {
    LowerIdempotent(name);
    headers[Lower(name) := value]
  }

  /**
   * The checksum the response carries: the value stored under the checksum
   * header's name in the custom metadata when there is one (a multipart upload),
   * otherwise the store's own sha256 in base64, otherwise none.
   */
  function ChecksumValue(obj: R2Object, checksumHeader: string, toBase64: seq<bv8> -> string): Option<string> {
    if obj.customMetadata.Some? && checksumHeader in obj.customMetadata.value then
      Some(obj.customMetadata.value[checksumHeader])
    else if obj.sha256.Some? then
      Some(toBase64(obj.sha256.value))
    else
      None
  }

  /**
   * The headers of a response for `obj`: the HTTP metadata, with `etag` set to
   * the object's HTTP etag and the checksum header set to `ChecksumValue`.
   * The custom value wins over the native one; without either the checksum
   * header is only what the metadata had; no other header is touched.
   */
  function ExpectedHeaders(obj: R2Object, checksumHeader: string, toBase64: seq<bv8> -> string): (h: Headers)
    ensures Lower(checksumHeader) != "etag" || ChecksumValue(obj, checksumHeader, toBase64).None? ==>
      "etag" in h && h["etag"] == obj.httpEtag
    ensures obj.customMetadata.Some? && checksumHeader in obj.customMetadata.value ==>
      Lower(checksumHeader) in h && h[Lower(checksumHeader)] == obj.customMetadata.value[checksumHeader]
    ensures obj.sha256.Some? && !(obj.customMetadata.Some? && checksumHeader in obj.customMetadata.value) ==>
      Lower(checksumHeader) in h && h[Lower(checksumHeader)] == toBase64(obj.sha256.value)
    ensures (obj.sha256.None? && !(obj.customMetadata.Some? && checksumHeader in obj.customMetadata.value)
             && Lower(checksumHeader) != "etag") ==>
      (Lower(checksumHeader) in h <==> Lower(checksumHeader) in obj.httpMetadata) &&
      (Lower(checksumHeader) in h ==> h[Lower(checksumHeader)] == obj.httpMetadata[Lower(checksumHeader)])
    ensures forall name :: name != "etag" && name != Lower(checksumHeader) ==>
      (name in h <==> name in obj.httpMetadata) && (name in h ==> h[name] == obj.httpMetadata[name])
  {
    assert Lower("etag") == "etag";
    LowerIdempotent(checksumHeader);
    var withEtag := obj.httpMetadata["etag" := obj.httpEtag];
    match ChecksumValue(obj, checksumHeader, toBase64)
    case Some(checksum) => withEtag[Lower(checksumHeader) := checksum]
    case None => withEtag
  }

  /**
   * `objectHeaders`: successive `set` calls on a fresh header bag, the custom
   * checksum written after the native one so that it replaces it.
   */
  method ObjectHeaders(obj: R2Object, checksumHeader: string, toBase64: seq<bv8> -> string) returns (headers: Headers)
    ensures headers == ExpectedHeaders(obj, checksumHeader, toBase64)
  {
    headers := obj.httpMetadata;
    assert Lower("etag") == "etag";
    headers := SetHeader(headers, "etag", obj.httpEtag);
    if obj.sha256.Some? {
      headers := SetHeader(headers, checksumHeader, toBase64(obj.sha256.value));
    }
    if obj.customMetadata.Some? && checksumHeader in obj.customMetadata.value {
      headers := SetHeader(headers, checksumHeader, obj.customMetadata.value[checksumHeader]);
    }
  }

  /** A request made by the read path to one of its collaborators. */
  datatype Effect =
    | CacheMatch(key: string)
    | BucketGet(id: string, range: Option<string>)
    | CachePut(key: string, response: Response)

  /** The response of the read path and the requests it made, in order. */
  datatype ReadResult = ReadResult(response: Response, effects: seq<Effect>)

  /** The bucket, as a lookup of an id and the request's `Range` header. */
  type Bucket = (string, Option<string>) -> Option<R2Object>

  /** The edge cache, keyed by request URL. */
  type Cache = map<string, Response>

  /** A header value JavaScript treats as true: `undefined` and `''` are the only falsy ones. */
  predicate Truthy(header: Option<string>): (b: bool)
    ensures !b <==> header == None || header == Some("")
  {
    header.Some? && header.value != ""
  }

  const NotFoundMessage := "Not Found"

  /**
   * `getHandler`. Without a bucket it answers 404 before looking at the cache;
   * a cached response is returned as it is, with no bucket read; a missing
   * object is 404; a found object is a 206 with `content-range` exactly when
   * R2 read it with a range and the request has a non-empty `Range` header,
   * and a 200 otherwise. Only the 200 is written to the cache, under the
   * request's URL.
   */
  function GetHandler(
    requestId: string, req: Request, bucket: Option<Bucket>, cache: Cache,
    checksumHeader: string, toBase64: seq<bv8> -> string): (res: ReadResult)
    ensures bucket.None? ==> res == ReadResult(ErrorResponse(404, NotFoundMessage), [])
    ensures bucket.Some? && req.url in cache ==> res == ReadResult(cache[req.url], [CacheMatch(req.url)])
    ensures bucket.Some? && req.url !in cache ==>
      2 <= |res.effects| && res.effects[..2] == [CacheMatch(req.url), BucketGet(requestId, req.range)]
    ensures bucket.Some? && req.url !in cache && bucket.value(requestId, req.range).None? ==>
      res == ReadResult(ErrorResponse(404, NotFoundMessage), [CacheMatch(req.url), BucketGet(requestId, req.range)])
    ensures bucket.Some? && req.url !in cache && bucket.value(requestId, req.range).Some? ==>
      var obj := bucket.value(requestId, req.range).value;
      var headers := ExpectedHeaders(obj, checksumHeader, toBase64);
      if obj.range.Some? && Truthy(req.range) then
        res.response == Response(206, SetHeader(headers, "content-range", FormatContentRange(SelectedRange(obj.size, obj.range.value))), ObjectBody(obj.key))
        && |res.effects| == 2
      else
        res.response == Response(200, headers, ObjectBody(obj.key))
        && res.effects == [CacheMatch(req.url), BucketGet(requestId, req.range), CachePut(req.url, res.response)]
    ensures forall e :: e in res.effects && e.CachePut? ==>
      e.key == req.url && e.response == res.response && e.response.status == 200
  {
    if bucket.None? then
      ReadResult(ErrorResponse(404, NotFoundMessage), [])
    else if req.url in cache then
      ReadResult(cache[req.url], [CacheMatch(req.url)])
    else
      var lookups := [CacheMatch(req.url), BucketGet(requestId, req.range)];
      match bucket.value(requestId, req.range)
      case None => ReadResult(ErrorResponse(404, NotFoundMessage), lookups)
      case Some(obj) =>
        var headers := ExpectedHeaders(obj, checksumHeader, toBase64);
        if obj.range.Some? && Truthy(req.range) then
          var range := FormatContentRange(SelectedRange(obj.size, obj.range.value));
          ReadResult(Response(206, SetHeader(headers, "content-range", range), ObjectBody(obj.key)), lookups)
        else
          var response := Response(200, headers, ObjectBody(obj.key));
          ReadResult(response, lookups + [CachePut(req.url, response)])
  }

  /** The cache after the writes among `effects`, applied in order. */
  function ApplyCacheWrites(cache: Cache, effects: seq<Effect>): Cache
    decreases |effects|
  {
    if effects == [] then cache
    else
      var next := if effects[0].CachePut? then cache[effects[0].key := effects[0].response] else cache;
      ApplyCacheWrites(next, effects[1..])
  }

  /** Any sequence of effects without a cache write leaves the cache as it was. */
  lemma {:induction false} NoWritesLeaveCache(cache: Cache, effects: seq<Effect>)
    requires forall e :: e in effects ==> !e.CachePut?
    ensures ApplyCacheWrites(cache, effects) == cache
    decreases |effects|
  {
    if effects != [] {
      assert effects[0] in effects;
      assert forall e :: e in effects[1..] ==> e in effects;
      NoWritesLeaveCache(cache, effects[1..]);
    }
  }

  /**
   * A full response read from the bucket is served again, unchanged and
   * without a bucket read, to the same request once its cache write has landed.
   */
  lemma FullReadServedFromCache(
    requestId: string, req: Request, bucket: Bucket, cache: Cache,
    checksumHeader: string, toBase64: seq<bv8> -> string)
    requires req.url !in cache
    requires GetHandler(requestId, req, Some(bucket), cache, checksumHeader, toBase64).response.status == 200
    ensures var first := GetHandler(requestId, req, Some(bucket), cache, checksumHeader, toBase64);
      var cache' := ApplyCacheWrites(cache, first.effects);
      cache' == cache[req.url := first.response] &&
      GetHandler(requestId, req, Some(bucket), cache', checksumHeader, toBase64) == ReadResult(first.response, [CacheMatch(req.url)])
  {
    var first := GetHandler(requestId, req, Some(bucket), cache, checksumHeader, toBase64);
    var effects := first.effects;
    assert effects == [CacheMatch(req.url), BucketGet(requestId, req.range), CachePut(req.url, first.response)];
    var written := cache[req.url := first.response];
    assert ApplyCacheWrites(written, effects[3..]) == written;
    assert ApplyCacheWrites(cache, effects[2..]) == written;
    assert ApplyCacheWrites(cache, effects[1..]) == written;
  }

  /**
   * A range read is never cached: when R2 read the object with a range and the
   * request has a non-empty `Range` header, the answer is a 206, the cache is
   * unchanged, and the same request reads the bucket again.
   */
  lemma PartialReadNotCached(
    requestId: string, req: Request, bucket: Bucket, cache: Cache,
    checksumHeader: string, toBase64: seq<bv8> -> string)
    requires req.url !in cache
    requires bucket(requestId, req.range).Some? && bucket(requestId, req.range).value.range.Some?
    requires Truthy(req.range)
    ensures GetHandler(requestId, req, Some(bucket), cache, checksumHeader, toBase64).response.status == 206
    ensures var first := GetHandler(requestId, req, Some(bucket), cache, checksumHeader, toBase64);
      ApplyCacheWrites(cache, first.effects) == cache &&
      BucketGet(requestId, req.range) in
        GetHandler(requestId, req, Some(bucket), ApplyCacheWrites(cache, first.effects), checksumHeader, toBase64).effects
  {
    var first := GetHandler(requestId, req, Some(bucket), cache, checksumHeader, toBase64);
    NoWritesLeaveCache(cache, first.effects);
    var again := GetHandler(requestId, req, Some(bucket), cache, checksumHeader, toBase64);
    assert again.effects[1] == BucketGet(requestId, req.range);
  }
}
