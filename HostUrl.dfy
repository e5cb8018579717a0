/** Building the service's base URL from a scheme and a host
    (`CommandProcessor.BuildUrl`) and reading one out of a `Forwarded`
    header (`CommandProcessor.ParseForwardedHeader`). The header is read
    tolerantly in the manner of section 4 of RFC 7239: comma-separated
    elements, each a `;`-separated list of `key=value` pairs, of which only
    `host` (section 5.3) and `proto` (section 5.4) matter. */
module HostUrl {
  import opened Wrappers
  import opened Text

  /** The base URL when nothing better is known. */
  const LocalHostUrl := "http://localhost:7071"

  /** The scheme as `BuildUrl` cleans it: trimmed, every trailing ':' removed,
      and "https" when nothing is left. It is never empty, never blank and
      never ends with ':'. */
  function SanitizeScheme(scheme: string): (r: string)
    ensures r != [] && !IsBlank(r) && r[|r| - 1] != ':'
  {
    var s := TrimEndChar(Trim(scheme), ':');
    TrimEndBySpec(Trim(scheme), Char(':'));
    if IsBlank(s) then assert "https"[0] == 'h'; "https" else s
  }

  /** The host as `BuildUrl` cleans it: trimmed, every trailing '/' removed,
      then every surrounding '"' removed. The result neither starts nor ends
      with '"'. */
  function SanitizeHost(host: string): (r: string)
    ensures r == [] || (r[0] != '"' && r[|r| - 1] != '"')
  {
    TrimBySpec(TrimEndChar(Trim(host), '/'), Char('"'));
    TrimChar(TrimEndChar(Trim(host), '/'), '"')
  }

  /** Does the cleaned host already carry a scheme? */
  predicate IsFullUrl(host: string) {
    Contains(SanitizeHost(host), "://")
  }

  /** `BuildUrl(scheme, host)`: the local default for a blank host; the
      cleaned host without trailing '/'s when it is already a full URL;
      otherwise the lower-cased cleaned scheme, "://" and the cleaned host.
      The result is never empty. */
  function BuildUrl(scheme: string, host: string): (r: string)
    ensures r != ""
  {
    if IsBlank(host) then LocalHostUrl
    else if IsFullUrl(host) then
      var h := SanitizeHost(host);
      ContainsChar(h, "://", 0);
      TrimEndBySpec(h, Char('/'));
      var r := TrimEndChar(h, '/');
      assert r != "" by {
        var k :| 0 <= k < |h| && h[k] == ':';
        if |r| <= k { assert h[|r|..][k - |r|] == h[k]; }
      }
      r
    else ToLower(SanitizeScheme(scheme)) + "://" + SanitizeHost(host)
  }

  /** A blank host gives the local default, whatever the scheme. */
  lemma BuildUrlBlankHost(scheme: string, host: string)
    requires IsBlank(host)
    ensures BuildUrl(scheme, host) == LocalHostUrl
  {
  }

  /** A host that is already a full URL is returned as is, less its trailing
      '/'s: the result is a prefix of the cleaned host, followed there only
      by '/'s, does not end with '/', and does not depend on the scheme. */
  lemma BuildUrlFullUrl(scheme: string, scheme': string, host: string)
    requires !IsBlank(host) && IsFullUrl(host)
    ensures var r, h := BuildUrl(scheme, host), SanitizeHost(host);
      && StartsWith(h, r) && r[|r| - 1] != '/'
      && (forall i :: |r| <= i < |h| ==> h[i] == '/')
    ensures BuildUrl(scheme, host) == BuildUrl(scheme', host)
  {
    var h := SanitizeHost(host);
    TrimEndBySpec(h, Char('/'));
    var r := TrimEndChar(h, '/');
    assert BuildUrl(scheme, host) == r;
    assert forall i :: |r| <= i < |h| ==> h[i] == h[|r|..][i - |r|];
  }

  /** Otherwise the URL is "scheme://host", with the scheme cleaned and
      lower-cased. */
  lemma BuildUrlJoins(scheme: string, host: string)
    requires !IsBlank(host) && !IsFullUrl(host)
    ensures BuildUrl(scheme, host) == ToLower(SanitizeScheme(scheme)) + "://" + SanitizeHost(host)
  {
  }

  /** A blank scheme means "https". */
  lemma BuildUrlBlankScheme(scheme: string, host: string)
    requires !IsBlank(host) && !IsFullUrl(host) && IsBlank(scheme)
    ensures BuildUrl(scheme, host) == "https://" + SanitizeHost(host)
  {
    BlankSchemeIsHttps(scheme);
    BuildUrlJoins(scheme, host);
  }

  lemma BlankSchemeIsHttps(scheme: string)
    requires IsBlank(scheme)
    ensures ToLower(SanitizeScheme(scheme)) == "https"
  {
    TrimBlank(scheme);
    assert TrimEndChar("", ':') == "";
    assert ToLower("https") == "https";
  }

  /** Schemes that differ only in ASCII case give the same URL. */
  lemma BuildUrlSchemeCase(scheme: string, host: string)
    requires !IsBlank(host) && !IsFullUrl(host)
    ensures BuildUrl(scheme, host) == BuildUrl(ToLower(scheme), host)
  {
    ToLowerTrim(scheme);
    ToLowerTrimEndColon(Trim(scheme));
    var s := TrimEndChar(Trim(scheme), ':');
    ToLowerTrim(s);
    ToLowerLowers(s);
    assert ToLower(ToLower(s)) == ToLower(s);
  }

  /** A host with nothing to clean and no '/' is used as is, and is not a
      full URL. */
  lemma PlainHost(host: string)
    requires host != [] && Unpadded(host, WhiteSpace) && Unpadded(host, Char('"'))
    requires '/' !in host
    ensures !IsBlank(host) && SanitizeHost(host) == host && !IsFullUrl(host)
  {
    assert !IsWhiteSpace(host[0]);
    TrimByUnchanged(host, WhiteSpace);
    assert TrimEndChar(host, '/') == host;
    TrimByUnchanged(host, Char('"'));
    ContainsChar(host, "://", 1);
  }

  /** "http" and "https" are schemes with nothing to clean. */
  lemma SchemeIsClean(scheme: string)
    requires scheme == "http" || scheme == "https"
    ensures ToLower(SanitizeScheme(scheme)) == scheme
  {
    TrimByUnchanged(scheme, WhiteSpace);
    assert TrimEndChar(scheme, ':') == scheme;
    ToLowerLowers(scheme);
  }

  /** For such a host and scheme the URL is literally "scheme://host". */
  lemma BuildUrlPlain(scheme: string, host: string)
    requires scheme == "http" || scheme == "https"
    requires host != [] && Unpadded(host, WhiteSpace) && Unpadded(host, Char('"'))
    requires '/' !in host
    ensures BuildUrl(scheme, host) == scheme + "://" + host
  {
    PlainHost(host);
    BuildUrlJoins(scheme, host);
    SchemeIsClean(scheme);
  }

  /** A blank string trims to nothing. */
  lemma TrimBlank(s: string)
    requires IsBlank(s)
    ensures Trim(s) == ""
  {
    TrimBySpec(s, WhiteSpace);
  }

  /** Stripping trailing ':'s commutes with lower-casing (':' is no letter). */
  lemma {:induction false} ToLowerTrimEndColon(s: string)
    ensures TrimEndChar(ToLower(s), ':') == ToLower(TrimEndChar(s, ':'))
    decreases |s|
  {
    if |s| > 0 {
      if s[|s| - 1] == ':' {
        assert ToLower(s)[..|s| - 1] == ToLower(s[..|s| - 1]);
        ToLowerTrimEndColon(s[..|s| - 1]);
      }
    }
  }

  /** One `key=value` pair of a `Forwarded` element as the parser reads it:
      cut at the first '=', both sides trimmed, the key lower-cased and every
      surrounding '"' stripped from the value. A pair without '=' is none. */
  function ParsePair(pair: string): (r: Option<(string, string)>)
    ensures r.None? <==> '=' !in pair
    ensures r.Some? ==> var v := r.value.1; v == [] || (v[0] != '"' && v[|v| - 1] != '"')
  {
    var kvp := SplitFirst(pair, '=');
    if |kvp| != 2 then None
    else
      TrimBySpec(kvp[1], Char('"'));
      Some((ToLower(kvp[0]), TrimChar(kvp[1], '"')))
  }

  /** A pair cut at its first '=' reads as the trimmed, lower-cased text
      before it and the trimmed text after it with every surrounding '"'
      stripped: keys are compared after lower-casing. */
  lemma ParsePairAt(key: string, value: string)
    requires '=' !in key
    ensures ParsePair(key + "=" + value) == Some((ToLower(Trim(key)), TrimChar(Trim(value), '"')))
    ensures IsLower(ParsePair(key + "=" + value).value.0)
  {
    var pair := key + "=" + value;
    assert pair[|key|] == '=' && pair[..|key|] == key && pair[|key| + 1..] == value;
    SplitFirstAt(pair, '=', |key|);
    ToLowerLowers(Trim(key));
  }

  /** A pair with a trimmed, lower-case key and a value with nothing to
      strip reads as that very key and value. */
  lemma ParsePairPlain(key: string, value: string)
    requires '=' !in key && Unpadded(key, WhiteSpace) && IsLower(key)
    requires Unpadded(value, WhiteSpace) && Unpadded(value, Char('"'))
    ensures ParsePair(key + "=" + value) == Some((key, value))
  {
    ParsePairAt(key, value);
    TrimByUnchanged(key, WhiteSpace);
    TrimByUnchanged(value, WhiteSpace);
    TrimByUnchanged(value, Char('"'));
    ToLowerLowers(key);
  }

  /** An upper-case key reads as its lower-case form: `PROTO=http` sets
      `proto`. */
  lemma ParsePairUpperKey(pair: string)
    requires pair == "PROTO=http"
    ensures ParsePair(pair) == Some(("proto", "http"))
  {
    UpperKeyLayout(pair, "PROTO", "http");
    ParsePairAt("PROTO", "http");
    UpperKeyFacts("PROTO", "http");
  }

  /* Proof steps for the example above, each about few literals. */

  lemma UpperKeyLayout(pair: string, key: string, value: string)
    requires pair == "PROTO=http" && key == "PROTO" && value == "http"
    ensures pair == key + "=" + value && '=' !in key
  {
  }

  lemma UpperKeyFacts(key: string, value: string)
    requires key == "PROTO" && value == "http"
    ensures ToLower(Trim(key)) == "proto" && TrimChar(Trim(value), '"') == "http"
  {
    assert !IsWhiteSpace(key[0]) && !IsWhiteSpace(value[0]);
    TrimByUnchanged(key, WhiteSpace);
    TrimByUnchanged(value, WhiteSpace);
    TrimByUnchanged(value, Char('"'));
    assert ToLower(key) == "proto";
  }

  /** Does `read` read `pair` as a pair with key `key`? */
  predicate ReadsKey(read: string -> Option<(string, string)>, pair: string, key: string) {
    read(pair).Some? && read(pair).value.0 == key
  }

  /** The value of the last pair that `read` reads with key `key`, if any:
      later pairs overwrite earlier ones. */
  function LastValueOf(pairs: seq<string>, read: string -> Option<(string, string)>, key: string): Option<string>
    decreases |pairs|
  {
    if pairs == [] then None
    else if ReadsKey(read, pairs[|pairs| - 1], key) then Some(read(pairs[|pairs| - 1]).value.1)
    else LastValueOf(pairs[..|pairs| - 1], read, key)
  }

  /** The value of the last pair of an element with key `key`, if any. */
  function LastValue(pairs: seq<string>, key: string): Option<string> {
    LastValueOf(pairs, ParsePair, key)
  }

  /** Reading one more pair: it overrides the value exactly when it has the key. */
  lemma LastValueOfStep(pairs: seq<string>, read: string -> Option<(string, string)>, j: nat, key: string)
    requires j < |pairs|
    ensures LastValueOf(pairs[..j + 1], read, key) ==
      if ReadsKey(read, pairs[j], key) then Some(read(pairs[j]).value.1) else LastValueOf(pairs[..j], read, key)
  {
    assert pairs[..j + 1][..j] == pairs[..j];
    assert pairs[..j + 1][j] == pairs[j];
  }

  /** The value is that of the last pair with the key. */
  lemma {:induction false} LastValueOfAt(pairs: seq<string>, read: string -> Option<(string, string)>, key: string, i: nat)
    requires i < |pairs| && ReadsKey(read, pairs[i], key)
    requires forall j :: i < j < |pairs| ==> !ReadsKey(read, pairs[j], key)
    ensures LastValueOf(pairs, read, key) == Some(read(pairs[i]).value.1)
    decreases |pairs|
  {
    if i < |pairs| - 1 {
      var front := pairs[..|pairs| - 1];
      assert forall j :: i < j < |front| ==> front[j] == pairs[j];
      LastValueOfAt(front, read, key, i);
    }
  }

  /** There is no value exactly when no pair has the key. */
  lemma {:induction false} LastValueOfNone(pairs: seq<string>, read: string -> Option<(string, string)>, key: string)
    ensures LastValueOf(pairs, read, key).None? <==> forall j :: 0 <= j < |pairs| ==> !ReadsKey(read, pairs[j], key)
    decreases |pairs|
  {
    if pairs != [] {
      var front := pairs[..|pairs| - 1];
      LastValueOfNone(front, read, key);
      assert forall j :: 0 <= j < |front| ==> front[j] == pairs[j];
    }
  }

  /** What one `Forwarded` element yields: when its last `host` is non-blank,
      the URL built from it and its last `proto` ("https" when it has none). */
  function SegmentUrl(segment: string): Option<string> {
    var pairs := SplitEntries(segment, ';');
    var host := LastValue(pairs, "host");
    if host.None? || IsBlank(host.value) then None
    else Some(BuildUrl(LastValue(pairs, "proto").GetOr("https"), host.value))
  }

  /** The URL of the first element for which `urlOf` gives one. */
  function FirstUrlOf(segments: seq<string>, urlOf: string -> Option<string>): Option<string>
    decreases |segments|
  {
    if segments == [] then None
    else if urlOf(segments[0]).Some? then urlOf(segments[0])
    else FirstUrlOf(segments[1..], urlOf)
  }

  /** The URL of the first element that yields one. */
  function FirstUrl(segments: seq<string>): Option<string> {
    FirstUrlOf(segments, SegmentUrl)
  }

  /** The reference reading of a `Forwarded` header: the URL of its first element with a host. */
  function ParseForwarded(forwarded: string): Option<string> {
    FirstUrl(SplitEntries(forwarded, ','))
  }

  /** The first element that yields a URL decides. */
  lemma {:induction false} FirstUrlOfAt(segments: seq<string>, urlOf: string -> Option<string>, i: nat)
    requires i < |segments| && urlOf(segments[i]).Some?
    requires forall j :: 0 <= j < i ==> urlOf(segments[j]).None?
    ensures FirstUrlOf(segments, urlOf) == urlOf(segments[i])
    decreases i
  {
    if i > 0 {
      var rest := segments[1..];
      assert forall j :: 0 <= j < i - 1 ==> rest[j] == segments[j + 1];
      FirstUrlOfAt(rest, urlOf, i - 1);
    }
  }

  /** There is no URL exactly when no element yields one. */
  lemma {:induction false} FirstUrlOfNone(segments: seq<string>, urlOf: string -> Option<string>)
    ensures FirstUrlOf(segments, urlOf).None? <==> forall j :: 0 <= j < |segments| ==> urlOf(segments[j]).None?
    decreases |segments|
  {
    if segments != [] {
      var rest := segments[1..];
      FirstUrlOfNone(rest, urlOf);
      assert forall j :: 0 <= j < |rest| ==> rest[j] == segments[j + 1];
    }
  }

  /** Once an element has yielded a URL, later elements are never consulted. */
  lemma {:induction false} FirstUrlOfIgnoresLater(segments: seq<string>, later: seq<string>, urlOf: string -> Option<string>)
    requires FirstUrlOf(segments, urlOf).Some?
    ensures FirstUrlOf(segments + later, urlOf) == FirstUrlOf(segments, urlOf)
    decreases |segments|
  {
    assert (segments + later)[0] == segments[0];
    if urlOf(segments[0]).None? {
      assert (segments + later)[1..] == segments[1..] + later;
      FirstUrlOfIgnoresLater(segments[1..], later, urlOf);
    }
  }

  /** `ParseForwardedHeader(forwarded)`, as written: for each element, scan
      its pairs keeping the last `proto` and `host`, and return at the first
      element whose host is non-blank. */
  method ParseForwardedHeader(forwarded: string) returns (url: Option<string>)
    ensures url == ParseForwarded(forwarded)
  {
    var segments := SplitEntries(forwarded, ',');
    for i := 0 to |segments|
      invariant FirstUrlOf(segments[i..], SegmentUrl) == FirstUrl(segments)
    {
      var segment := segments[i];
      var proto: Option<string> := None;
      var host: Option<string> := None;

      var pairs := SplitEntries(segment, ';');
      for j := 0 to |pairs|
        invariant proto == LastValue(pairs[..j], "proto")
        invariant host == LastValue(pairs[..j], "host")
      {
        LastValueOfStep(pairs, ParsePair, j, "proto");
        LastValueOfStep(pairs, ParsePair, j, "host");
        var kvp := SplitFirst(pairs[j], '=');
        if |kvp| != 2 {
          continue;
        }

        var key := ToLower(kvp[0]);
        var value := TrimChar(kvp[1], '"');

        if key == "proto" {
          proto := Some(value);
        } else if key == "host" {
          host := Some(value);
        }
      }

      assert pairs[..|pairs|] == pairs;
      if !IsNullOrWhiteSpace(host) {
        return Some(BuildUrl(proto.GetOr("https"), host.value));
      }
      assert segments[i..][1..] == segments[i + 1..];
    }
    return None;
  }

  /** A parameter token or value that needs no trimming and holds none of
      the separators of the `Forwarded` header. */
  predicate PlainToken(t: string) {
    t != [] && Unpadded(t, WhiteSpace) && Unpadded(t, Char('"'))
    && ',' !in t && ';' !in t && '=' !in t
  }

  /** A `Forwarded` element made of a leading pair `key=value`, then
      `proto=...` and `host=...`. */
  function Element(key: string, value: string, proto: string, host: string): string {
    key + "=" + value + ";" + "proto=" + proto + ";" + "host=" + host
  }

  /** An element whose first pair is neither `proto` nor `host` yields the URL
      built from its `proto` and `host`. */
  lemma ElementUrl(key: string, value: string, proto: string, host: string)
    requires PlainToken(key) && IsLower(key) && key != "proto" && key != "host"
    requires PlainToken(value) && PlainToken(host) && '/' !in host
    requires proto == "http" || proto == "https"
    ensures SegmentUrl(Element(key, value, proto, host)) == Some(proto + "://" + host)
  {
    var p1, p2, p3 := key + "=" + value, "proto" + "=" + proto, "host" + "=" + host;
    ProtoToken(proto);
    PlainPair(key, value);
    PlainPair("proto", proto);
    PlainPair("host", host);
    assert Element(key, value, proto, host) == p1 + [';'] + p2 + [';'] + p3;
    SplitThree(p1, p2, p3, ';');
    PairsValues(key, value, proto, host);
    assert !IsWhiteSpace(host[0]);
    BuildUrlPlain(proto, host);
  }

  /** The pairs of such an element give its `proto` and its `host`. */
  lemma PairsValues(key: string, value: string, proto: string, host: string)
    requires PlainToken(key) && IsLower(key) && key != "proto" && key != "host"
    requires PlainToken(value) && PlainToken(host)
    requires proto == "http" || proto == "https"
    ensures var pairs := [key + "=" + value, "proto" + "=" + proto, "host" + "=" + host];
      LastValue(pairs, "host") == Some(host) && LastValue(pairs, "proto") == Some(proto)
  {
    ProtoToken(proto);
    ParsePairPlain(key, value);
    ParsePairPlain("proto", proto);
    ParsePairPlain("host", host);
    var pairs := [key + "=" + value, "proto" + "=" + proto, "host" + "=" + host];
    LastValueOfAt(pairs, ParsePair, "host", 2);
    LastValueOfAt(pairs, ParsePair, "proto", 1);
  }

  /** When the first element of a `Forwarded` header yields a URL, that URL
      is the header's, whatever follows. */
  lemma ForwardedFirstElement(key: string, value: string, proto: string, host: string, rest: string)
    requires PlainToken(key) && IsLower(key) && key != "proto" && key != "host"
    requires PlainToken(value) && PlainToken(host) && '/' !in host
    requires proto == "http" || proto == "https"
    ensures ParseForwarded(Element(key, value, proto, host) + "," + rest) == Some(proto + "://" + host)
  {
    var element := Element(key, value, proto, host);
    ElementUrl(key, value, proto, host);
    ElementToken(key, value, proto, host);
    assert element + "," + rest == element + [','] + rest;
    SplitEntriesCons(element, rest, ',');
    FirstUrlOfAt(SplitEntries(element + "," + rest, ','), SegmentUrl, 0);
  }

  /** The example of a header with two elements, each with a `proto` and a
      `host`: the first decides. */
  lemma ForwardedTwoElements(forwarded: string)
    requires forwarded == "for=1.2.3.4;proto=http;host=a.example.com, proto=https;host=b.example.com"
    ensures !IsBlank(forwarded) && ParseForwarded(forwarded) == Some("http://a.example.com")
  {
    var key, value, proto, host := "for", "1.2.3.4", "http", "a.example.com";
    var first, rest := "for=1.2.3.4;proto=http;host=a.example.com", " proto=https;host=b.example.com";
    ExampleElements(forwarded, first, rest);
    ExamplePairs(first, "for=1.2.3.4", "proto=http", "host=a.example.com");
    ExamplePair("for=1.2.3.4", key, value);
    ExamplePair("proto=http", "proto", proto);
    ExamplePair("host=a.example.com", "host", host);
    ElementLayout(key, value, proto, host);
    ExampleFacts(key, value, host);
    ExampleUrl(proto, host);
    ForwardedFirstElement(key, value, proto, host, rest);
    ElementToken(key, value, proto, host);
    assert forwarded[0] == Element(key, value, proto, host)[0];
  }

  /* The steps of the example, kept apart so that each one sees few facts
     about literal strings. */

  lemma ExampleElements(forwarded: string, first: string, rest: string)
    requires forwarded == "for=1.2.3.4;proto=http;host=a.example.com, proto=https;host=b.example.com"
    requires first == "for=1.2.3.4;proto=http;host=a.example.com" && rest == " proto=https;host=b.example.com"
    ensures forwarded == first + "," + rest
  {
  }

  lemma ExamplePairs(first: string, p1: string, p2: string, p3: string)
    requires first == "for=1.2.3.4;proto=http;host=a.example.com"
    requires p1 == "for=1.2.3.4" && p2 == "proto=http" && p3 == "host=a.example.com"
    ensures first == p1 + ";" + p2 + ";" + p3
  {
  }

  lemma ExamplePair(pair: string, key: string, value: string)
    requires || (pair == "for=1.2.3.4" && key == "for" && value == "1.2.3.4")
             || (pair == "proto=http" && key == "proto" && value == "http")
             || (pair == "host=a.example.com" && key == "host" && value == "a.example.com")
    ensures pair == key + "=" + value
  {
  }

  lemma ElementLayout(key: string, value: string, proto: string, host: string)
    ensures Element(key, value, proto, host)
      == (key + "=" + value) + ";" + ("proto" + "=" + proto) + ";" + ("host" + "=" + host)
  {
    assert "proto=" == "proto" + "=" && "host=" == "host" + "=";
  }

  lemma ExampleFacts(key: string, value: string, host: string)
    requires key == "for" && value == "1.2.3.4" && host == "a.example.com"
    ensures PlainToken(key) && IsLower(key) && key != "proto" && key != "host"
    ensures PlainToken(value) && PlainToken(host) && '/' !in host
  {
    assert !IsWhiteSpace(key[0]) && !IsWhiteSpace(value[0]) && !IsWhiteSpace(host[0]);
  }

  lemma ExampleUrl(proto: string, host: string)
    requires proto == "http" && host == "a.example.com"
    ensures proto + "://" + host == "http://a.example.com"
  {
  }

  lemma ProtoToken(proto: string)
    requires proto == "http" || proto == "https"
    ensures PlainToken(proto) && IsLower("proto") && IsLower("host")
    ensures PlainToken("proto") && PlainToken("host")
  {
    assert !IsWhiteSpace(proto[0]);
  }

  /** A pair of plain tokens is an entry that needs no trimming. */
  lemma PlainPair(key: string, value: string)
    requires PlainToken(key) && PlainToken(value)
    ensures var pair := key + "=" + value;
      pair != [] && Unpadded(pair, WhiteSpace) && ',' !in pair && ';' !in pair
  {
    var pair := key + "=" + value;
    assert pair[0] == key[0] && pair[|pair| - 1] == value[|value| - 1];
  }

  lemma ElementToken(key: string, value: string, proto: string, host: string)
    requires PlainToken(key) && PlainToken(value) && PlainToken(host)
    requires proto == "http" || proto == "https"
    ensures var element := Element(key, value, proto, host);
      element != [] && Unpadded(element, WhiteSpace) && ',' !in element
  {
    var element := Element(key, value, proto, host);
    ProtoToken(proto);
    assert element[0] == key[0] && element[|element| - 1] == host[|host| - 1];
  }

  /** Three entries that need no trimming split back into themselves. */
  lemma SplitThree(a: string, b: string, c: string, sep: char)
    requires sep !in a && a != [] && Unpadded(a, WhiteSpace)
    requires sep !in b && b != [] && Unpadded(b, WhiteSpace)
    requires sep !in c && c != [] && Unpadded(c, WhiteSpace)
    ensures SplitEntries(a + [sep] + b + [sep] + c, sep) == [a, b, c]
  {
    assert a + [sep] + b + [sep] + c == a + [sep] + (b + [sep] + c);
    SplitEntriesCons(a, b + [sep] + c, sep);
    SplitEntriesCons(b, c, sep);
    SplitEntriesPiece(c, sep);
  }
}
