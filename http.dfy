/**
 * What an adapter hands to the HTTP transport and what it gets back. The transport itself
 * (connection pool, TLS, timeouts, retries) is outside the model.
 */
module Http {
  import opened Base
  import opened PyObjects

  datatype Method = GET | POST | DELETE

  /** A request body: none, raw octets, or a JSON document (sent as its `json.dumps` text). */
  datatype Body = NoBody | Raw(bytes: seq<byte>) | Json(document: PyValue)

  /** One outgoing request; headers in the order the adapter inserts them. */
  datatype Request = Request(verb: Method, url: string, headers: seq<(string, string)>, body: Body)

  /** A completed exchange: the status code and the raw body. */
  datatype Response = Response(status: int, body: seq<byte>)

  /**
   * A completed exchange whose body is read as JSON: the raw body, and `json`, what
   * `json.loads` makes of that body, None when it is not JSON text.
   */
  datatype JsonResponse = JsonResponse(status: int, body: seq<byte>, json: Option<PyValue>)

  /**
   * The host name is spliced into the literal part of a `str.format` template, so a brace in
   * it would be read as format syntax; without braces the literal text is copied unchanged.
   */
  predicate LiteralForFormat(s: string)
  {
    '{' !in s && '}' !in s
  }
}
