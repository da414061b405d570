/** The parts of an HTTP request and response that the worker's decisions depend on. */
module Http {
  import opened Wrappers
  import opened Strings

  /** Every name is already in lower case. */
  predicate LowerCaseNames(h: map<string, string>) {
    forall name :: name in h ==> Lower(name) == name
  }

  /**
   * A header bag. Names are stored lower-cased, as the Fetch API's `Headers`
   * stores them, so that a later `set` of the same name replaces an earlier one
   * and no two entries differ only in case.
   */
  type Headers = h: map<string, string> | LowerCaseNames(h) witness map[]

  /** The body of a response: the JSON `{error: message}` object, or an object's content from the bucket. */
  datatype Body = JsonError(error: string) | ObjectBody(key: string)

  datatype Response = Response(status: nat, headers: Headers, body: Body)

  /** What the handlers read from an incoming request: its URL and its `Authorization` and `Range` headers. */
  datatype Request = Request(url: string, authorization: Option<string>, range: Option<string>)

  /** `c.json({ error: message }, status)`. */
  function ErrorResponse(status: nat, message: string): Response {
    Response(status, map[], JsonError(message))
  }
}
