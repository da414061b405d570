# hono-r2-tus-uploader: request gate, read path and demo content types

This project models the decision logic of a Cloudflare Worker that accepts
resumable (tus) uploads into an R2 bucket and serves the finished files. It
also models the content-type choice of the small static server that ships
with it as a demo.

The worker's `index.ts` is modelled in five modules:

- `ContentRangeHeader` covers `rangeHeader`. R2's range descriptor is either an
  optional offset and an optional length, or a suffix length. It becomes the
  triple `first-last/complete` and the text `bytes first-last/complete`.
  `RangeHeader` is the method with the three sequential `if`s of the source.
  It is proved equal to the declarative `SelectedRange`, and its header text
  parses back to that range. For a descriptor inside the object, the range
  is valid under section 14.4 of RFC 9110 (0 <= first <= last < complete
  length) exactly when it selects at least one byte; an offset equal to the
  object's length with no length selects none and gives `first = last + 1`.
- `UploadGate` covers `validateRequestId`, `checkAppAccess` and the guard at
  the start of `uploadHandler`. A request is forwarded to the per-id
  coordinator only if its id contains no `..`, its `Authorization` header
  equals the configured token, and the coordinator namespace is bound.
  Otherwise it gets a 400 or a 500 with an `{error}` body.
- `ReadPath` covers `objectHeaders` and `getHandler`. `getHandler` is a pure
  function of the request, an optional bucket lookup and a cache map. It
  returns the response and the sequence of cache and bucket requests it
  issued, in order.
- `Routes` covers the middlewares that take the file id from the upload
  metadata or the path, and the three routes that use them.
- `Http` holds the request and response values; header names are kept in
  lower case, as the Fetch API's `Headers` keeps them; `Strings` holds the
  JavaScript string built-ins the code relies on (decimal formatting of
  numbers, `toLowerCase`, `includes`); `Wrappers` holds `Option` and `Result`.

`DemoServer` models `demo/server.ts`. The path `/` is rewritten to
`/index.html`. `getMimeType` takes `split('.').pop()`, lower-cases it, and
looks it up in its `switch`.

Inputs that the code takes from outside are parameters of the model:

- the `filename` entry of the parsed upload metadata;
- the R2 lookup (a function of the id and the request's `Range` header);
- the contents of the edge cache (a map from request URL to response);
- the header bag that `writeHttpMetadata` fills;
- the base64 encoder `toBase64`;
- the name of the checksum header (`X_CHECKSUM_SHA256`).

`writeHttpMetadata` is a method of the runtime's R2 object. `toBase64` and
`X_CHECKSUM_SHA256` come from `tus/util.ts` and `tus/uploadHandler.ts`,
which are not part of this model.

Consequences of the code as written, stated as lemmas:

- If no `AUTH_TOKEN` is configured, upload requests without an
  `Authorization` header pass the check (`UploadGate.MissingTokenAcceptsMissingHeader`).
  The comparison is `!==` between two values that may both be `undefined`.
- Reads are not gated. The id check and the token check in `getHandler` are
  commented out, so a GET of any id, including one with `..`, reaches the
  bucket on a cache miss (`Routes.ReadsAreNotGated`). The comment in
  `validateRequestId` (index.ts:39) asks for path traversal to be caught, and
  the comment above the disabled checks (index.ts:48) says they are off for
  the demo. The code rejects traversal ids for uploads only, and the model
  follows the code.
- A descriptor that runs past the object gives positions outside it. For
  example, a suffix longer than the object gives a negative first position.
  The text is then written with a minus sign, as JavaScript's template
  literal writes it.

## Model

| member | source | states |
|---|---|---|
| `ContentRangeHeader.SelectedRange` | index.ts:110-121 | start is the offset (0 without one); end is start+length-1 with a length, otherwise objLen-1; a suffix N gives start objLen-N and end objLen-1; with no offset, length or suffix the range is 0..objLen-1; when the descriptor lies inside the object, 0 <= start, end <= objLen-1 and end-start+1 is the number of bytes selected |
| `ContentRangeHeader.HonouredIsSatisfiable` | index.ts:110-122 | for a descriptor inside the object, the header is a satisfiable range of section 14.4 of RFC 9110 (0 <= first <= last < complete length) exactly when at least one byte is selected |
| `ContentRangeHeader.ParseFormatContentRange` | index.ts:122 | the text `bytes first-last/complete` reads back as the triple it was written from, for any integers, negative ones included |
| `ContentRangeHeader.RangeHeader` | index.ts:110-123 | the three sequential updates of start and end produce the text of `SelectedRange`, and that text parses back to the selected range |
| `ContentRangeHeader.OffsetLengthExample` | index.ts:113-122 | a 1000-byte object read at offset 200 for 300 bytes gives `bytes 200-499/1000` |
| `ContentRangeHeader.SuffixExample` | index.ts:119-122 | the last 100 bytes of a 1000-byte object give `bytes 900-999/1000` |
| `Strings.NatToString` | index.ts:122 | a number is written as at least one decimal digit, with no leading zero, and the digits denote the number |
| `Strings.IntToString` | index.ts:122 | an integer is written with a `-` exactly when it is negative, followed by at least one digit denoting its magnitude |
| `Strings.ParseIntToString` | index.ts:122 | an integer's decimal text, optionally signed, followed by a non-digit reads back as that integer and that rest |
| `UploadGate.IncludesDotDot` | index.ts:40 | `includes('..')` holds exactly when two consecutive characters are dots |
| `UploadGate.ValidateRequestId` | index.ts:38-44 | throws `Path traversal detected` exactly when the id contains `..`, and returns true otherwise |
| `UploadGate.CheckAppAccess` | index.ts:30-36 | throws `Unauthorized` exactly when the `Authorization` header differs from the configured token, a missing header matching only a missing token |
| `UploadGate.ErrorMessage` | index.ts:148 | the reply carries the error's message when it has one and `Unknown error` otherwise; it is never empty |
| `UploadGate.UploadHandler` | index.ts:140-158 | forwards exactly when the id has no `..`, the header equals the token and the namespace is bound, and then to the coordinator for that same id; a traversal id gives 400 `Path traversal detected` before the token is looked at; a token mismatch gives 400 `Unauthorized`; a missing namespace gives 500 `Invalid bucket configuration` |
| `UploadGate.TraversalIdRejected` | index.ts:140-149 | any id containing `../` is answered with 400 and never forwarded, whatever the headers and the configuration |
| `UploadGate.MissingTokenAcceptsMissingHeader` | index.ts:30-34 | with no token configured, a request with no `Authorization` header and a clean id is forwarded |
| `ReadPath.ExpectedHeaders` | index.ts:93-107 | `etag` is the object's HTTP etag unless a checksum is written under a checksum header named `etag`; the checksum header carries the custom-metadata value when one exists, otherwise the native sha256 in base64, otherwise whatever the metadata had; every other header is the metadata's |
| `ReadPath.ObjectHeaders` | index.ts:93-108 | the successive `set` calls, native checksum first and custom value second, build exactly `ExpectedHeaders` |
| `ReadPath.Truthy` | index.ts:81 | a `Range` header counts as given unless it is absent or empty, the two falsy values a header can take |
| `ReadPath.GetHandler` | index.ts:58-90 | no bucket gives 404 with no cache or bucket request; a cache hit returns the cached response unchanged with only the cache lookup; a missing object gives 404 after the lookup and the bucket read; a found object gives 206 with `content-range` set to the formatted selected range exactly when R2 returned a range and the request's `Range` header is non-empty, with no cache write; otherwise it gives 200 with the object headers, written to the cache under the request URL; only 200 responses are ever written to the cache |
| `ReadPath.NoWritesLeaveCache` | index.ts:81-85 | any sequence of effects containing no cache write leaves the cache as it was |
| `ReadPath.FullReadServedFromCache` | index.ts:66-71 | after a 200 read from the bucket has been written to the cache, the same request gets that same response from the cache, with no bucket read |
| `ReadPath.PartialReadNotCached` | index.ts:81-85 | when R2 read the object with a range and the request has a non-empty `Range` header, the answer is a 206, the cache is unchanged, and the same request reads the bucket again |
| `Routes.RequireFileId` | index.ts:170-188 | a missing file id is answered with 404 `Not Found`; a present one is passed on unchanged |
| `Routes.UploadRoute` | index.ts:19-23 | an upload route forwards exactly when the middleware found an id, the id has no `..`, the token matches and the namespace is bound, forwarding that id; no id gives 404; a present id gets `uploadHandler`'s reply, so a token mismatch gives 400 `Unauthorized` and an unbound namespace 500 `Invalid bucket configuration` |
| `Routes.PostFiles` | index.ts:19 | `POST` forwards exactly when the metadata has a `filename`, it has no `..`, the token matches and the namespace is bound, forwarding that id; no `filename` gives 404; a present id gets `uploadHandler`'s reply, so a token mismatch gives 400 `Unauthorized` and an unbound namespace 500 `Invalid bucket configuration` |
| `Routes.PatchFiles` | index.ts:23 | `PATCH` forwards exactly when the path has an id, it has no `..`, the token matches and the namespace is bound, forwarding that id; no id gives 404; a present id gets `uploadHandler`'s reply, so a token mismatch gives 400 `Unauthorized` and an unbound namespace 500 `Invalid bucket configuration` |
| `Routes.GetFiles` | index.ts:22 | a read with no id is answered with 404 before the cache or the bucket is asked; a present id goes to `getHandler` with the configured bucket |
| `Routes.TraversalNeverForwarded` | index.ts:140-149 | neither POST nor PATCH forwards an id containing `..`; both answer 400 `Path traversal detected` |
| `Routes.ReadsAreNotGated` | index.ts:46-57 | with a bucket and a cache miss, a GET reads the bucket for any id, `..` or not, whatever its `Authorization` header |
| `DemoServer.RewritePath` | demo/server.ts:9-11 | `/` becomes `/index.html`; every other path is unchanged |
| `DemoServer.Split` | demo/server.ts:26 | `split('.')` gives at least one piece, and no piece contains the separator |
| `DemoServer.JoinSplit` | demo/server.ts:26 | joining the pieces of `split` with the separator gives back the string |
| `DemoServer.LastPieceAfterLastSeparator` | demo/server.ts:26 | `pop()` of the split is the text after the last separator |
| `DemoServer.AfterLastSeparatorIsSuffix` | demo/server.ts:26 | the text after the last separator ends the string, contains no separator, and is preceded by a separator unless it is the whole string |
| `DemoServer.LastPieceAfterDot` | demo/server.ts:26 | for `stem.ext` with no dot in `ext`, `pop()` yields `ext`, whatever dots the stem holds |
| `DemoServer.LastPieceWithoutDot` | demo/server.ts:26 | a path with no dot is its own last piece |
| `DemoServer.LastPieceLower` | demo/server.ts:26 | lower-casing before or after taking the last piece gives the same text |
| `DemoServer.PathExtension` | demo/server.ts:26 | the extension is what follows the last dot of the lower-cased path, or the whole lower-cased path when it has no dot |
| `DemoServer.MimeForExtension` | demo/server.ts:27-33 | `html`, `css` and `js`, and only they, give `text/html`, `text/css` and `application/javascript`; every other extension gives `application/octet-stream` |
| `DemoServer.GetMimeType` | demo/server.ts:25-34 | the type is the `switch` applied to the text after the last dot of the lower-cased path |
| `DemoServer.MimeTypeOfExtension` | demo/server.ts:25-34 | the type of `stem.ext` is the `switch` applied to the lower-cased `ext` |
| `DemoServer.KnownMimeType` | demo/server.ts:27-30 | a path ending in `.html`, `.css` or `.js`, after any stem with or without dots, gets that case's type of the `switch` (`text/html`, `text/css`, `application/javascript`), never the default |
| `DemoServer.OtherMimeType` | demo/server.ts:32 | any other extension is `application/octet-stream` |
| `DemoServer.MimeTypeWithoutDot` | demo/server.ts:26-33 | a path with no dot is looked up as a whole, lower-cased |
| `DemoServer.MimeTypeIgnoresCase` | demo/server.ts:26 | two paths equal up to case get the same type |
| `DemoServer.MimeTypeExamples` | demo/server.ts:25-34 | `X.HTML` and `x.html` are both `text/html`; `a.html.js` is `application/javascript` |
| `DemoServer.RootServedAsHtml` | demo/server.ts:9-17 | the root request is served as `text/html` when the file path is the directory followed by the rewritten path |

## Left out

- The upload coordinator, the retry wrapper around the bucket, the metadata
  parser and the header constants are defined in `tus/uploadHandler.ts`,
  `tus/retry.ts`, `tus/parse.ts` and `tus/util.ts`. Those files are not part
  of this model. The parsed `filename`, the bucket lookup (retries included),
  `toBase64` and the checksum header name are inputs.
- Forwarding to the Durable Object (`idFromName`, `get`, `fetch`) is the
  `Forward(id)` outcome. Its request body, the abort signal and
  `DO_CALL_TIMEOUT` are not modelled. That constant is 30 minutes, although
  its comment says 20.
- The cache write runs in the background through `waitUntil`. The model
  records only that it is issued after the response is built. It does not
  model its asynchrony or the cache's own rules about what it stores.
- Response bodies are names (`ObjectBody(key)`, `JsonError(message)`), not
  streams. The headers that Hono's `c.json` adds are not modelled.
  `writeHttpMetadata` is its resulting header bag. Console logging is left
  out.
- Hono's route matching, the catch-all 404 route and `optionsHandler`'s
  constant CORS and tus headers are framework wiring and constants.
- Strings.NatToString, Strings.IntToString: JavaScript numbers are doubles,
  and the model uses unbounded integers. `objLen - 1` and
  `startIndexInclusive + r2Range.length - 1` are exact only below 2^53, and a
  template literal writes 10^21 and above in exponent form (`1e+21`). The
  object sizes R2 accepts are far below both bounds.
- ReadPath.GetHandler: the bucket lookup gives an object or nothing. The
  error that `RetryBucket.get` throws once its retries run out is not
  modelled; `getHandler` does not catch it, so the framework answers 500.
  `cache.match` is modelled as an exact lookup by URL that returns the stored
  response; the edge cache's own handling of `Range` and conditional headers
  on match is not modelled.
- Strings.Lower: lower-cases ASCII letters only. `toLowerCase` also folds
  non-ASCII letters, so the model can differ from the source on non-ASCII
  extensions.
- DemoServer.RootServedAsHtml: takes the file path to be the directory
  string followed by the request path. `join`'s path normalisation is not
  modelled.
- `Bun.serve`, the `Bun.file` read and its 404 on a missing file are file and
  network I/O.
- Only the two errors that the gate throws are modelled. Other exceptions
  inside the `try` block are not.
