/** The router's answer (`CommandResult`): an HTTP status, a content type,
    an optional payload and extra response headers. The record is immutable;
    `WithHeader` builds a new one. */
module Results {
  import opened Wrappers
  import opened Text
  import opened Discovery

  /** The `HttpStatusCode` values the router produces. */
  const StatusOk := 200
  const StatusBadRequest := 400
  const StatusNotFound := 404

  /** The payload. The discovery document is kept as the value it
      serialises; its JSON text is not modelled. */
  datatype Body = TextBody(text: string) | JsonBody(document: DiscoveryDocument)

  /** One header as a case-insensitive dictionary stores it: the spelling of
      the name it was first added under, and its current value. */
  datatype HeaderEntry = HeaderEntry(name: string, value: string)

  /** A dictionary with the `OrdinalIgnoreCase` comparer, filed under the
      case-folded name: two names that differ only in ASCII case are one key. */
  type HeaderMap = map<string, HeaderEntry>

  /** The key a header name is filed under. */
  function HeaderKey(name: string): string {
    ToLower(name)
  }

  /** Every entry is filed under the key of its own name. */
  predicate WellKeyed(h: HeaderMap) {
    forall k :: k in h ==> k == HeaderKey(h[k].name)
  }

  /** `headers[name]` with the case-insensitive comparer, if present. */
  function Lookup(h: HeaderMap, name: string): Option<string> {
    if HeaderKey(name) in h then Some(h[HeaderKey(name)].value) else None
  }

  datatype CommandResult = CommandResult(
    statusCode: int,
    contentType: string,
    content: Option<Body>,
    headers: HeaderMap)

  /** `FromText(statusCode, content, contentType = "text/plain")`: a result
      with the given status, payload and content type, and no headers. */
  function FromText(statusCode: int, content: Body, contentType: string := "text/plain"): (r: CommandResult)
    ensures r.statusCode == statusCode && r.content == Some(content) && r.contentType == contentType
    ensures r.headers == map[] && WellKeyed(r.headers)
  {
    CommandResult(statusCode, contentType, Some(content), map[])
  }

  /** `Empty(statusCode)`: a result with no payload, "text/plain" and no headers. */
  function Empty(statusCode: int): (r: CommandResult)
    ensures r.statusCode == statusCode && r.content.None? && r.contentType == "text/plain"
    ensures r.headers == map[] && WellKeyed(r.headers)
  {
    CommandResult(statusCode, "text/plain", None, map[])
  }

  /** `result.WithHeader(name, value)`: a copy of `result` whose headers map
      `name` (ignoring case) to `value`. A header already present under a name
      equal ignoring case gets the new value and keeps its spelling; no header
      is duplicated, every other header and everything else is kept. */
  function WithHeader(result: CommandResult, name: string, value: string): (r: CommandResult)
    ensures Lookup(r.headers, name) == Some(value)
    ensures forall n :: HeaderKey(n) != HeaderKey(name) ==> Lookup(r.headers, n) == Lookup(result.headers, n)
    ensures r.headers.Keys == result.headers.Keys + {HeaderKey(name)}
    ensures forall k :: k in result.headers && k != HeaderKey(name) ==> r.headers[k] == result.headers[k]
    ensures r.statusCode == result.statusCode && r.contentType == result.contentType
    ensures r.content == result.content
    ensures |r.headers| == |result.headers| + (if Lookup(result.headers, name).Some? then 0 else 1)
    ensures r.headers[HeaderKey(name)].name ==
            (if HeaderKey(name) in result.headers then result.headers[HeaderKey(name)].name else name)
    ensures WellKeyed(result.headers) ==> WellKeyed(r.headers)
  {
    var key := HeaderKey(name);
    var entry := if key in result.headers then result.headers[key].(value := value) else HeaderEntry(name, value);
    CommandResult(result.statusCode, result.contentType, result.content, result.headers[key := entry])
  }

  /** Setting a header twice under names equal ignoring case keeps only the
      second value (and the first spelling). */
  lemma WithHeaderOverwrites(result: CommandResult, name: string, name': string, value: string, value': string)
    requires HeaderKey(name) == HeaderKey(name')
    ensures WithHeader(WithHeader(result, name, value), name', value') == WithHeader(result, name, value')
  {
  }

  /** Headers set under names that differ ignoring case do not interfere. */
  lemma WithHeaderCommutes(result: CommandResult, name: string, name': string, value: string, value': string)
    requires HeaderKey(name) != HeaderKey(name')
    ensures WithHeader(WithHeader(result, name, value), name', value') == WithHeader(WithHeader(result, name', value'), name, value)
  {
    var k, k' := HeaderKey(name), HeaderKey(name');
    var e := if k in result.headers then result.headers[k].(value := value) else HeaderEntry(name, value);
    var e' := if k' in result.headers then result.headers[k'].(value := value') else HeaderEntry(name', value');
    var h := result.headers;
    var left := WithHeader(result, name, value);
    assert left.headers == h[k := e];
    assert (k' in left.headers) == (k' in h) && (k' in h ==> left.headers[k'] == h[k']);
    var right := WithHeader(result, name', value');
    assert right.headers == h[k' := e'];
    assert (k in right.headers) == (k in h) && (k in h ==> right.headers[k] == h[k]);
    UpdatesCommute(h, k, k', e, e');
  }

  /** Updates of a map at two different keys commute. */
  lemma UpdatesCommute(h: HeaderMap, k: string, k': string, e: HeaderEntry, e': HeaderEntry)
    requires k != k'
    ensures h[k := e][k' := e'] == h[k' := e'][k := e]
  {
  }
}
