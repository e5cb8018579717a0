/** The command router (`CommandProcessor`): normalises the command, works
    out the service's externally visible base URL, and answers with a fixed
    or lightly templated result. The value of the `WEBSITE_HOSTNAME`
    environment variable is passed in as `websiteHostname`. */
module CommandProcessor {
  import opened Wrappers
  import opened Text
  import opened Requests
  import opened Results
  import opened Discovery
  import opened HostUrl

  const PingCommand := "ping"
  const UrlCommand := "url"
  const DiscoveryCommand := ".well-known/openid-configuration"
  const MissingCommandMessage := "Missing command. Provide it in the route or ?command=query."

  /** The commands the router knows. */
  predicate IsKnownCommand(command: string) {
    command == PingCommand || command == UrlCommand || command == DiscoveryCommand
  }

  /** `Normalize(command)`: "" for a null or blank command, otherwise the
      command trimmed and lower-cased. The result is empty exactly for a null
      or blank command, and is itself trimmed and lower-case. */
  function Normalize(command: Option<string>): (r: string)
    ensures r == "" <==> IsNullOrWhiteSpace(command)
    ensures Unpadded(r, WhiteSpace) && IsLower(r)
  {
    if IsNullOrWhiteSpace(command) then ""
    else
      TrimLowerSpec(command.value);
      ToLower(Trim(command.value))
  }

  /** Trimming then lower-casing gives a trimmed, lower-case string, empty
      exactly for a blank one. */
  lemma TrimLowerSpec(s: string)
    ensures var r := ToLower(Trim(s));
      (r == "" <==> IsBlank(s)) && Unpadded(r, WhiteSpace) && IsLower(r)
  {
    var t := Trim(s);
    BlankIsAllStripped(s);
    TrimBySpec(s, WhiteSpace);
    ToLowerLowers(t);
    if t != [] {
      LowerCharWhiteSpace(t[0]);
      LowerCharWhiteSpace(t[|t| - 1]);
    }
  }

  /** Blank means that `Trim()` removes every character. */
  lemma BlankIsAllStripped(s: string)
    ensures IsBlank(s) <==> AllStripped(s, WhiteSpace)
  {
    assert forall i :: 0 <= i < |s| ==> (Strips(WhiteSpace, s[i]) <==> IsWhiteSpace(s[i]));
  }

  /** A trimmed, lower-case command normalises to itself. */
  lemma NormalizeFixes(s: string)
    requires Unpadded(s, WhiteSpace) && IsLower(s)
    ensures Normalize(Some(s)) == s
  {
    if s != [] {
      assert !IsWhiteSpace(s[0]);
      TrimByUnchanged(s, WhiteSpace);
      ToLowerLowers(s);
    }
  }

  /** Normalising twice is normalising once. */
  lemma NormalizeIdempotent(command: Option<string>)
    ensures Normalize(Some(Normalize(command))) == Normalize(command)
  {
    NormalizeFixes(Normalize(command));
  }

  /** Commands that differ only in ASCII case normalise alike. */
  lemma NormalizeIgnoresCase(s: string, t: string)
    requires ToLower(s) == ToLower(t)
    ensures Normalize(Some(s)) == Normalize(Some(t))
  {
    ToLowerTrim(s);
    ToLowerTrim(t);
  }

  /** White space around a command does not change how it normalises. */
  lemma NormalizeIgnoresPadding(l: string, s: string, r: string)
    requires IsBlank(l) && IsBlank(r)
    ensures Normalize(Some(l + s + r)) == Normalize(Some(s))
  {
    BlankIsAllStripped(l);
    BlankIsAllStripped(r);
    TrimByPadding(l, s, r, WhiteSpace);
    BlankIsAllStripped(s);
    BlankIsAllStripped(l + s + r);
    TrimBySpec(s, WhiteSpace);
    TrimBySpec(l + s + r, WhiteSpace);
  }

  /** " PING " is the `ping` command. */
  lemma NormalizePaddedPing()
    ensures Normalize(Some(" PING ")) == PingCommand
  {
    assert " PING " == " " + "PING" + " ";
    assert AllStripped(" ", WhiteSpace) by { assert Strips(WhiteSpace, ' '); }
    TrimByPadding(" ", "PING", " ", WhiteSpace);
    TrimByUnchanged("PING", WhiteSpace);
    assert !IsBlank(" PING ") by { assert !IsWhiteSpace(" PING "[1]); }
    var l := ToLower("PING");
    assert l[0] == 'p' && l[1] == 'i' && l[2] == 'n' && l[3] == 'g';
    assert l == PingCommand;
  }

  /** The value of header `name` when it is present and not blank. */
  function UsableHeader(request: CommandRequest, name: string): (r: Option<string>)
    ensures r.Some? <==> name in request.headers && !IsBlank(request.headers[name])
    ensures r.Some? ==> r.value == request.headers[name]
  {
    var (found, value) := TryGetHeader(request, name);
    if found && !IsBlank(value) then Some(value) else None
  }

  /** `TryGetForwardedUrl(request, out url)`: the URL the proxy headers
      give, `X-Forwarded-Host` (with `X-Forwarded-Proto`, else "https")
      before `Forwarded`. */
  function TryGetForwardedUrl(request: CommandRequest): (r: Option<string>)
    ensures r.Some? ==> r.value != ""
    ensures UsableHeader(request, "X-Forwarded-Host").Some? ==> r.Some?
  {
    var (hasForwardedHost, forwardedHost) := TryGetHeader(request, "X-Forwarded-Host");
    if hasForwardedHost && !IsBlank(forwardedHost) then
      var (hasForwardedProto, forwardedProto) := TryGetHeader(request, "X-Forwarded-Proto");
      var scheme := if hasForwardedProto && !IsBlank(forwardedProto) then forwardedProto else "https";
      Some(BuildUrl(scheme, forwardedHost))
    else
      var (hasForwarded, forwarded) := TryGetHeader(request, "Forwarded");
      if hasForwarded && !IsBlank(forwarded) then
        var parsed := ParseForwarded(forwarded);
        if parsed.Some? && parsed.value != "" then parsed else None
      else None
  }

  /** `ResolveHostUrl(request)`: the base URL from, in this order, the proxy
      headers, `Host`, `WEBSITE_HOSTNAME`, and the local default. */
  function ResolveHostUrl(request: CommandRequest, websiteHostname: Option<string>): (r: string)
    ensures r != ""
  {
    var forwarded := TryGetForwardedUrl(request);
    if forwarded.Some? then
      forwarded.value
    else
      var (hasHost, host) := TryGetHeader(request, "Host");
      if hasHost && !IsBlank(host) then
        var (hasProto, proto) := TryGetHeader(request, "X-Forwarded-Proto");
        var scheme := if hasProto && !IsBlank(proto) then proto
                      else if StartsWithIgnoreCase(host, "localhost") then "http" else "https";
        BuildUrl(scheme, host)
      else if !IsNullOrWhiteSpace(websiteHostname) then BuildUrl("https", websiteHostname.value)
      else LocalHostUrl
  }

  /** Every URL a `Forwarded` element yields is non-empty. */
  lemma {:induction false} FirstUrlNonEmpty(segments: seq<string>)
    ensures FirstUrl(segments).Some? ==> FirstUrl(segments).value != ""
    decreases |segments|
  {
    if segments != [] && SegmentUrl(segments[0]).None? {
      FirstUrlNonEmpty(segments[1..]);
    }
  }

  /** The proxy headers give no URL exactly when `X-Forwarded-Host` is
      missing or blank and `Forwarded` is missing, blank or has no element
      with a host; the emptiness test on the parsed URL never rejects one. */
  lemma TryGetForwardedUrlNone(request: CommandRequest)
    ensures TryGetForwardedUrl(request).None? <==>
      && UsableHeader(request, "X-Forwarded-Host").None?
      && (UsableHeader(request, "Forwarded").None? || ParseForwarded(request.headers["Forwarded"]).None?)
  {
    if UsableHeader(request, "X-Forwarded-Host").None? && UsableHeader(request, "Forwarded").Some? {
      FirstUrlNonEmpty(SplitEntries(request.headers["Forwarded"], ','));
    }
  }

  /** A usable `X-Forwarded-Host` decides the base URL, with the scheme from
      a usable `X-Forwarded-Proto` or else "https"; `Forwarded`, `Host` and the
      environment are not consulted. */
  lemma ForwardedHostWins(request: CommandRequest, websiteHostname: Option<string>)
    requires UsableHeader(request, "X-Forwarded-Host").Some?
    ensures ResolveHostUrl(request, websiteHostname) ==
      BuildUrl(UsableHeader(request, "X-Forwarded-Proto").GetOr("https"), request.headers["X-Forwarded-Host"])
  {
  }

  /** Two requests that agree on `X-Forwarded-Host` (usable) and
      `X-Forwarded-Proto` resolve alike, whatever their other headers and
      environments. */
  lemma ForwardedHostIgnoresRest(request: CommandRequest, request': CommandRequest, websiteHostname: Option<string>, websiteHostname': Option<string>)
    requires UsableHeader(request, "X-Forwarded-Host").Some?
    requires TryGetHeader(request, "X-Forwarded-Host") == TryGetHeader(request', "X-Forwarded-Host")
    requires TryGetHeader(request, "X-Forwarded-Proto") == TryGetHeader(request', "X-Forwarded-Proto")
    ensures ResolveHostUrl(request, websiteHostname) == ResolveHostUrl(request', websiteHostname')
  {
    ForwardedHostWins(request, websiteHostname);
    ForwardedHostWins(request', websiteHostname');
  }

  /** Without `X-Forwarded-Host`, a `Forwarded` element with a host decides. */
  lemma ForwardedElementWins(request: CommandRequest, websiteHostname: Option<string>)
    requires UsableHeader(request, "X-Forwarded-Host").None?
    requires UsableHeader(request, "Forwarded").Some?
    requires ParseForwarded(request.headers["Forwarded"]).Some?
    ensures ResolveHostUrl(request, websiteHostname) == ParseForwarded(request.headers["Forwarded"]).value
  {
    FirstUrlNonEmpty(SplitEntries(request.headers["Forwarded"], ','));
  }

  /** A `Forwarded` header that yields no host is as good as none: the
      result is what the request without it resolves to. */
  lemma ForwardedWithoutHostFallsThrough(request: CommandRequest, websiteHostname: Option<string>)
    requires UsableHeader(request, "X-Forwarded-Host").None?
    requires UsableHeader(request, "Forwarded").None? || ParseForwarded(request.headers["Forwarded"]).None?
    ensures ResolveHostUrl(request, websiteHostname) ==
      ResolveHostUrl(request.(headers := request.headers - {"Forwarded"}), websiteHostname)
  {
    var request' := request.(headers := request.headers - {"Forwarded"});
    TryGetForwardedUrlNone(request);
    TryGetForwardedUrlNone(request');
    assert TryGetHeader(request', "Host") == TryGetHeader(request, "Host");
    assert TryGetHeader(request', "X-Forwarded-Proto") == TryGetHeader(request, "X-Forwarded-Proto");
  }

  /** From `Host`, when the proxy headers give nothing: the scheme is a
      usable `X-Forwarded-Proto`, or else "http" exactly when the host starts
      with "localhost" ignoring case and "https" otherwise. */
  lemma HostHeaderScheme(request: CommandRequest, websiteHostname: Option<string>)
    requires TryGetForwardedUrl(request).None?
    requires UsableHeader(request, "Host").Some?
    ensures var host := request.headers["Host"];
      ResolveHostUrl(request, websiteHostname) ==
        BuildUrl(UsableHeader(request, "X-Forwarded-Proto").GetOr(
          if StartsWithIgnoreCase(host, "localhost") then "http" else "https"), host)
    ensures var host := request.headers["Host"];
      UsableHeader(request, "X-Forwarded-Proto").None? && !IsFullUrl(host) ==>
        ResolveHostUrl(request, websiteHostname) ==
          (if StartsWithIgnoreCase(host, "localhost") then "http" else "https") + "://" + SanitizeHost(host)
  {
    var host := request.headers["Host"];
    var scheme := if StartsWithIgnoreCase(host, "localhost") then "http" else "https";
    if UsableHeader(request, "X-Forwarded-Proto").None? && !IsFullUrl(host) {
      BuildUrlJoins(scheme, host);
      SchemeIsClean(scheme);
    }
  }

  /** With no proxy URL and no usable `Host`, a usable `WEBSITE_HOSTNAME` is
      used with "https". */
  lemma WebsiteHostnameFallback(request: CommandRequest, websiteHostname: Option<string>)
    requires TryGetForwardedUrl(request).None?
    requires UsableHeader(request, "Host").None?
    requires !IsNullOrWhiteSpace(websiteHostname)
    ensures ResolveHostUrl(request, websiteHostname) == BuildUrl("https", websiteHostname.value)
  {
  }

  /** With nothing to go on, the base URL is the local default. */
  lemma LocalFallback(request: CommandRequest, websiteHostname: Option<string>)
    requires TryGetForwardedUrl(request).None?
    requires UsableHeader(request, "Host").None?
    requires IsNullOrWhiteSpace(websiteHostname)
    ensures ResolveHostUrl(request, websiteHostname) == LocalHostUrl
  {
  }

  /** `HandleAsync(request, cancellationToken)`: dispatch on the normalised
      command. A known command gives 200, no command 400 and any other 404;
      only the discovery document is JSON; the result always has a payload
      and never extra headers. */
  function HandleAsync(request: CommandRequest, websiteHostname: Option<string>): (r: CommandResult)
    ensures r.headers == map[] && r.content.Some?
    ensures r.statusCode == StatusOk <==> IsKnownCommand(Normalize(request.command))
    ensures r.statusCode == StatusBadRequest <==> IsNullOrWhiteSpace(request.command)
    ensures r.statusCode == StatusNotFound <==>
      !IsNullOrWhiteSpace(request.command) && !IsKnownCommand(Normalize(request.command))
    ensures r.contentType == (if Normalize(request.command) == DiscoveryCommand then "application/json" else "text/plain")
  {
    var normalized := Normalize(request.command);
    var baseUrl := ResolveHostUrl(request, websiteHostname);
    if normalized == PingCommand then
      FromText(StatusOk, TextBody("pong"))
    else if normalized == UrlCommand then
      FromText(StatusOk, TextBody(baseUrl))
    else if normalized == DiscoveryCommand then
      FromText(StatusOk, JsonBody(OpenIdConfiguration(baseUrl)), "application/json")
    else if normalized == "" then
      FromText(StatusBadRequest, TextBody(MissingCommandMessage))
    else
      FromText(StatusNotFound, TextBody("Unknown command '" + normalized + "'."))
  }

  /** Dispatch sees only the normalised command: commands that normalise
      alike get the same result. */
  lemma HandleSeesNormalizedCommand(request: CommandRequest, command: Option<string>, websiteHostname: Option<string>)
    requires Normalize(command) == Normalize(request.command)
    ensures HandleAsync(request.(command := command), websiteHostname) == HandleAsync(request, websiteHostname)
  {
    ResolveSeesHeadersOnly(request.(command := command), request, websiteHostname);
  }

  /** The base URL depends on the headers alone. */
  lemma ResolveSeesHeadersOnly(request: CommandRequest, request': CommandRequest, websiteHostname: Option<string>)
    requires request.headers == request'.headers
    ensures ResolveHostUrl(request, websiteHostname) == ResolveHostUrl(request', websiteHostname)
  {
    assert forall name :: TryGetHeader(request, name) == TryGetHeader(request', name);
  }

  /** `ping` answers "pong" as plain text. */
  lemma HandlePing(request: CommandRequest, websiteHostname: Option<string>)
    requires Normalize(request.command) == PingCommand
    ensures var r := HandleAsync(request, websiteHostname);
      r.statusCode == StatusOk && r.content == Some(TextBody("pong")) && r.contentType == "text/plain"
  {
  }

  /** So does " PING ". */
  lemma HandlePaddedPing(request: CommandRequest, websiteHostname: Option<string>)
    requires request.command == Some(" PING ")
    ensures var r := HandleAsync(request, websiteHostname);
      r.statusCode == StatusOk && r.content == Some(TextBody("pong")) && r.contentType == "text/plain"
  {
    NormalizePaddedPing();
  }

  /** `url` answers the resolved base URL as plain text. */
  lemma HandleUrl(request: CommandRequest, websiteHostname: Option<string>)
    requires Normalize(request.command) == UrlCommand
    ensures var r := HandleAsync(request, websiteHostname);
      && r.statusCode == StatusOk && r.contentType == "text/plain"
      && r.content == Some(TextBody(ResolveHostUrl(request, websiteHostname)))
  {
  }

  /** The discovery command answers the stub document for the resolved base
      URL as JSON. */
  lemma HandleDiscovery(request: CommandRequest, websiteHostname: Option<string>)
    requires Normalize(request.command) == DiscoveryCommand
    ensures var r, b := HandleAsync(request, websiteHostname), ResolveHostUrl(request, websiteHostname);
      && r.statusCode == StatusOk && r.contentType == "application/json"
      && r.content == Some(JsonBody(OpenIdConfiguration(b)))
      && var d := r.content.value.document;
      && d.issuer == b
      && d.jwksUri == b + "/.well-known/jwks.json"
      && d.tokenEndpoint == b + "/oidc/token"
      && d.idTokenSigningAlgValuesSupported == ["RS256"]
      && d.responseTypesSupported == []
      && d.subjectTypesSupported == ["public"]
  {
    OpenIdConfigurationUrls(ResolveHostUrl(request, websiteHostname));
  }

  /** A missing or blank command answers 400 with the fixed instruction. */
  lemma HandleMissing(request: CommandRequest, websiteHostname: Option<string>)
    requires IsNullOrWhiteSpace(request.command)
    ensures var r := HandleAsync(request, websiteHostname);
      && r.statusCode == StatusBadRequest && r.contentType == "text/plain"
      && r.content == Some(TextBody(MissingCommandMessage))
  {
  }

  /** Any other command answers 404 with a message that names it in its
      normalised form. */
  lemma HandleUnknown(request: CommandRequest, websiteHostname: Option<string>)
    requires !IsNullOrWhiteSpace(request.command) && !IsKnownCommand(Normalize(request.command))
    ensures var r, c := HandleAsync(request, websiteHostname), Normalize(request.command);
      && r.statusCode == StatusNotFound && r.contentType == "text/plain"
      && r.content == Some(TextBody("Unknown command '" + c + "'."))
      && Contains(r.content.value.text, c)
  {
    var c := Normalize(request.command);
    ContainsInfix("Unknown command '", c, "'.");
  }

  /** A `ping` request with no headers answers 200 "pong". */
  lemma PingCommandReturnsPong(websiteHostname: Option<string>)
    ensures var r := HandleAsync(CommandRequest(Some("ping"), "", "get", map[]), websiteHostname);
      r.statusCode == StatusOk && r.content == Some(TextBody("pong"))
  {
    NormalizeFixes(PingCommand);
  }

  /** A request without a command answers 400. */
  lemma MissingCommandReturnsBadRequest(websiteHostname: Option<string>)
    ensures HandleAsync(CommandRequest(None, "", "get", map[]), websiteHostname).statusCode == StatusBadRequest
  {
  }

  /** The command "unknown" answers 404 with a message naming it. */
  lemma UnknownCommandReturnsNotFound(websiteHostname: Option<string>)
    ensures var r := HandleAsync(CommandRequest(Some("unknown"), "", "get", map[]), websiteHostname);
      r.statusCode == StatusNotFound && r.content.Some? && r.content.value.TextBody?
      && Contains(r.content.value.text, "unknown")
  {
    assert !IsWhiteSpace("unknown"[0]);
    NormalizeFixes("unknown");
    HandleUnknown(CommandRequest(Some("unknown"), "", "get", map[]), websiteHostname);
  }

  /** `url` with only `Host: localhost:7071` answers "http://localhost:7071". */
  lemma UrlCommandReturnsEndpoint(websiteHostname: Option<string>)
    ensures var r := HandleAsync(CommandRequest(Some("url"), "", "get", map["Host" := "localhost:7071"]), websiteHostname);
      r.statusCode == StatusOk && r.content == Some(TextBody("http://localhost:7071"))
  {
    var request := CommandRequest(Some("url"), "", "get", map["Host" := "localhost:7071"]);
    var host := request.headers["Host"];
    assert !IsWhiteSpace("url"[0]);
    NormalizeFixes(UrlCommand);
    LocalHeaders(request);
    LocalHostIsPlain(host);
    LocalHostIsLocal(host);
    HostResolves(request, websiteHostname, host);
    HandleUrl(request, websiteHostname);
  }

  /* The steps of the examples, kept apart so that each one sees few facts
     about literal strings. */

  lemma LocalHeaders(request: CommandRequest)
    requires request.headers == map["Host" := "localhost:7071"]
    ensures TryGetForwardedUrl(request).None?
    ensures UsableHeader(request, "Host") == Some("localhost:7071")
    ensures UsableHeader(request, "X-Forwarded-Proto").None?
  {
    assert !IsWhiteSpace(request.headers["Host"][0]);
    TryGetForwardedUrlNone(request);
  }

  lemma LocalHostIsPlain(host: string)
    requires host == "localhost:7071"
    ensures host != [] && Unpadded(host, WhiteSpace) && Unpadded(host, Char('"')) && '/' !in host
    ensures "http://" + host == "http://localhost:7071"
  {
  }

  lemma LocalHostIsLocal(host: string)
    requires host == "localhost:7071"
    ensures StartsWithIgnoreCase(host, "localhost")
  {
    ToLowerLowers(host);
    ToLowerLowers("localhost");
  }

  /** A plain local host, with no proxy headers, resolves to "http://" and the host. */
  lemma HostResolves(request: CommandRequest, websiteHostname: Option<string>, host: string)
    requires host != [] && Unpadded(host, WhiteSpace) && Unpadded(host, Char('"')) && '/' !in host
    requires StartsWithIgnoreCase(host, "localhost")
    requires TryGetForwardedUrl(request).None?
    requires UsableHeader(request, "Host") == Some(host)
    requires UsableHeader(request, "X-Forwarded-Proto").None?
    ensures ResolveHostUrl(request, websiteHostname) == "http://" + host
  {
    assert request.headers["Host"] == host;
    HostHeaderScheme(request, websiteHostname);
    assert ResolveHostUrl(request, websiteHostname) == BuildUrl("http", host);
    BuildUrlPlain("http", host);
  }

  /** The discovery command behind a proxy that forwards host
      "prod.example.com" and proto "https" answers the document for
      "https://prod.example.com". */
  lemma WellKnownOpenIdConfigurationReturnsExpectedDocument(websiteHostname: Option<string>)
    ensures var r := HandleAsync(CommandRequest(Some(DiscoveryCommand), "", "get",
        map["X-Forwarded-Host" := "prod.example.com", "X-Forwarded-Proto" := "https"]), websiteHostname);
      && r.statusCode == StatusOk && r.contentType == "application/json"
      && r.content.Some? && r.content.value.JsonBody?
      && var d := r.content.value.document;
      && d.issuer == "https://prod.example.com"
      && d.jwksUri == "https://prod.example.com/.well-known/jwks.json"
      && d.tokenEndpoint == "https://prod.example.com/oidc/token"
      && d.idTokenSigningAlgValuesSupported == ["RS256"]
      && d.responseTypesSupported == []
      && d.subjectTypesSupported == ["public"]
  {
    var request := CommandRequest(Some(DiscoveryCommand), "", "get",
      map["X-Forwarded-Host" := "prod.example.com", "X-Forwarded-Proto" := "https"]);
    assert !IsWhiteSpace(DiscoveryCommand[0]);
    NormalizeFixes(DiscoveryCommand);
    var host := request.headers["X-Forwarded-Host"];
    ProdHeaders(request);
    ProdHostIsPlain(host);
    ForwardedHostResolves(request, websiteHostname, host);
    HandleDiscovery(request, websiteHostname);
    ProdUrls(ResolveHostUrl(request, websiteHostname));
  }

  lemma ProdUrls(baseUrl: string)
    requires baseUrl == "https://prod.example.com"
    ensures baseUrl + "/.well-known/jwks.json" == "https://prod.example.com/.well-known/jwks.json"
    ensures baseUrl + "/oidc/token" == "https://prod.example.com/oidc/token"
  {
  }

  lemma ProdHeaders(request: CommandRequest)
    requires request.headers == map["X-Forwarded-Host" := "prod.example.com", "X-Forwarded-Proto" := "https"]
    ensures UsableHeader(request, "X-Forwarded-Host") == Some("prod.example.com")
    ensures UsableHeader(request, "X-Forwarded-Proto") == Some("https")
  {
    assert !IsWhiteSpace(request.headers["X-Forwarded-Host"][0]);
    assert !IsWhiteSpace(request.headers["X-Forwarded-Proto"][0]);
  }

  lemma ProdHostIsPlain(host: string)
    requires host == "prod.example.com"
    ensures host != [] && Unpadded(host, WhiteSpace) && Unpadded(host, Char('"')) && '/' !in host
    ensures "https://" + host == "https://prod.example.com"
  {
  }

  /** A plain forwarded host with proto "https" resolves to "https://" and the host. */
  lemma ForwardedHostResolves(request: CommandRequest, websiteHostname: Option<string>, host: string)
    requires host != [] && Unpadded(host, WhiteSpace) && Unpadded(host, Char('"')) && '/' !in host
    requires UsableHeader(request, "X-Forwarded-Host") == Some(host)
    requires UsableHeader(request, "X-Forwarded-Proto") == Some("https")
    ensures ResolveHostUrl(request, websiteHostname) == "https://" + host
  {
    assert request.headers["X-Forwarded-Host"] == host;
    ForwardedHostWins(request, websiteHostname);
    assert ResolveHostUrl(request, websiteHostname) == BuildUrl("https", host);
    BuildUrlPlain("https", host);
  }

  /** A request whose only proxy header is a two-element `Forwarded` header
      resolves to the URL of the first element. */
  lemma ForwardedHeaderResolves(request: CommandRequest, websiteHostname: Option<string>)
    requires request.headers == map["Forwarded" := "for=1.2.3.4;proto=http;host=a.example.com, proto=https;host=b.example.com"]
    ensures ResolveHostUrl(request, websiteHostname) == "http://a.example.com"
  {
    ForwardedHeaders(request);
    ForwardedTwoElements(request.headers["Forwarded"]);
    ForwardedElementWins(request, websiteHostname);
  }

  lemma ForwardedHeaders(request: CommandRequest)
    requires request.headers == map["Forwarded" := "for=1.2.3.4;proto=http;host=a.example.com, proto=https;host=b.example.com"]
    ensures UsableHeader(request, "X-Forwarded-Host").None?
    ensures "Forwarded" in request.headers
    ensures request.headers["Forwarded"] == "for=1.2.3.4;proto=http;host=a.example.com, proto=https;host=b.example.com"
  {
  }
}
