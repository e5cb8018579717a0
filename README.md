# OIDC provider command core, modelled in Dafny

The service answers one HTTP endpoint. Its command router takes a command
name (from the route or a query parameter) and the request headers. It
answers `ping` with "pong", `url` with the service's externally visible base
URL, and `.well-known/openid-configuration` with a stub OpenID Connect
discovery document built from that base URL. A missing command gets 400 and
any other command 404.

The base URL is resolved in this order:

1. the proxy headers: `X-Forwarded-Host` with `X-Forwarded-Proto`, then an
   RFC 7239 `Forwarded` header, read tolerantly;
2. the `Host` header;
3. the `WEBSITE_HOSTNAME` environment variable;
4. `http://localhost:7071`.

`BuildUrl` cleans every candidate the same way.

Modules:

- `Wrappers`: `Option` and `Result`.
- `Text`: the .NET string operations the core relies on, with lemmas about
  them. These are `Trim`, `TrimEnd(c)`, `Trim(c)`, `ToLowerInvariant`,
  `StartsWith`, `Contains`, `IndexOf`, `Split` with `RemoveEmptyEntries |
  TrimEntries`, and `Split(c, 2, TrimEntries)`.
- `Requests`: `CommandRequest`, its constructor and `TryGetHeader`.
- `Results`: `CommandResult` with `FromText`, `Empty` and `WithHeader`. The
  case-insensitive header dictionary is modelled as a map keyed by the
  case-folded name.
- `Discovery`: the discovery document.
- `HostUrl`: `BuildUrl` and the `Forwarded` header parser. There is a
  reference function `ParseForwarded`, and the source's nested loop
  `ParseForwardedHeader` as a method proved equal to it.
- `CommandProcessor`: `Normalize`, `TryGetForwardedUrl`, `ResolveHostUrl`
  and `HandleAsync`, with the priority lemmas and the source's tests as
  lemmas.

## Behaviour worth knowing

- `Trim('"')` on a `Forwarded` value strips every leading and trailing `"`,
  not just one (`Text.TrimChar`).
- `BuildUrl` likewise strips every trailing `/` and every surrounding `"`.
- `BuildUrl` strips the trailing `/`s before the quotes. So a quoted host
  with a slash inside the quotes keeps that slash: with the scheme `https`,
  the host `"a.com/"` gives `https://a.com/`.
- A host of `https://` is cleaned to `https:`, which contains no "://". So it
  is joined to the scheme like any other host: with the scheme `http`, for
  instance, it gives `http://https:`.

## Model

Paths are relative to the repository root.

| member | source | states |
|---|---|---|
| Requests.NewCommandRequest | oidc-provider/src/OidcProvider/CommandRequest.cs:11-17 | Succeeds exactly when method and headers are non-null. A null method fails with `ArgumentNull("method")` first, then a null header map with `ArgumentNull("headers")`. On success the command is stored verbatim, a null body becomes "", and method and headers are stored as given. |
| Requests.TryGetHeader | oidc-provider/src/OidcProvider/CommandRequest.cs:27-37 | Reports found exactly when the name is a key. When found, the value is the stored one; otherwise it is "". |
| Results.FromText | oidc-provider/src/OidcProvider/CommandResult.cs:25-28 | The result has the given status, content and content type ("text/plain" by default), and no headers. |
| Results.Empty | oidc-provider/src/OidcProvider/CommandResult.cs:30-33 | The result has the given status, no content, "text/plain" and no headers. |
| Results.WithHeader | oidc-provider/src/OidcProvider/CommandResult.cs:35-44 | The name now maps to the value, ignoring case. The keys are the old keys plus the name's key, and every entry under another key is kept unchanged, spelling included, so no header is duplicated. An existing entry keeps its spelling. Status, content type and content are unchanged, and well-keyedness is preserved. |
| Results.WithHeaderOverwrites | oidc-provider/src/OidcProvider/CommandResult.cs:37-41 | Setting names equal ignoring case twice is the same as setting the second value once. |
| Results.WithHeaderCommutes | oidc-provider/src/OidcProvider/CommandResult.cs:37-41 | Setting names that differ ignoring case commutes. |
| Discovery.OpenIdConfiguration | oidc-provider/src/OidcProvider/CommandProcessor.cs:49-59 | The issuer is the base URL. The jwks URI and the token endpoint are the issuer followed by "/.well-known/jwks.json" and "/oidc/token". The algorithm list is ["RS256"], the response types are empty and the subject types are ["public"]. |
| Discovery.OpenIdConfigurationUrls | oidc-provider/src/OidcProvider/CommandProcessor.cs:49-59 | The jwks URI and the token endpoint are the base URL followed by their fixed paths. |
| HostUrl.SanitizeScheme | oidc-provider/src/OidcProvider/CommandProcessor.cs:161-165 | The cleaned scheme is never empty or blank and never ends with ':'. |
| HostUrl.SanitizeHost | oidc-provider/src/OidcProvider/CommandProcessor.cs:167 | The cleaned host neither starts nor ends with '"'. |
| HostUrl.BuildUrl | oidc-provider/src/OidcProvider/CommandProcessor.cs:154-174 | The URL is never empty. |
| HostUrl.BuildUrlBlankHost | oidc-provider/src/OidcProvider/CommandProcessor.cs:156-159 | A blank host gives `http://localhost:7071`, whatever the scheme. |
| HostUrl.BuildUrlFullUrl | oidc-provider/src/OidcProvider/CommandProcessor.cs:167-171 | For a cleaned host containing "://", the URL is a prefix of the cleaned host followed there only by '/'s. It does not end in '/' and does not depend on the scheme. |
| HostUrl.BuildUrlJoins | oidc-provider/src/OidcProvider/CommandProcessor.cs:161-173 | Otherwise the URL is the lower-cased cleaned scheme, "://" and the cleaned host. |
| HostUrl.BuildUrlBlankScheme | oidc-provider/src/OidcProvider/CommandProcessor.cs:161-165 | A blank scheme means "https": the URL is "https://" and the cleaned host. |
| HostUrl.BuildUrlSchemeCase | oidc-provider/src/OidcProvider/CommandProcessor.cs:161-173 | Schemes equal ignoring ASCII case give the same URL. |
| HostUrl.PlainHost | oidc-provider/src/OidcProvider/CommandProcessor.cs:156-171 | A non-empty host without surrounding white space or '"' and without '/' is not blank, is its own cleaned form and is no full URL. |
| HostUrl.BuildUrlPlain | oidc-provider/src/OidcProvider/CommandProcessor.cs:161-173 | "http" or "https" with a host that needs no cleaning and has no '/' gives exactly "scheme://host". |
| HostUrl.ParsePair | oidc-provider/src/OidcProvider/CommandProcessor.cs:126-133 | A pair reads as none exactly when it has no '='. The value read has no surrounding '"'. |
| HostUrl.ParsePairAt | oidc-provider/src/OidcProvider/CommandProcessor.cs:126-133 | A pair cut at its first '=' reads as the trimmed, lower-cased text before it and the trimmed text after it with every surrounding '"' stripped. The key read is always lower-case, so keys are compared after lower-casing. |
| HostUrl.ParsePairUpperKey | oidc-provider/src/OidcProvider/CommandProcessor.cs:126-133 | `PROTO=http` reads as key "proto" and value "http". |
| HostUrl.ParsePairPlain | oidc-provider/src/OidcProvider/CommandProcessor.cs:126-133 | A pair `key=value` with a trimmed, lower-case key without '=' and a value needing no trimming reads as exactly that key and value. |
| HostUrl.LastValueOfStep | oidc-provider/src/OidcProvider/CommandProcessor.cs:124-143 | After one more pair, a key's value is that pair's value when the pair reads as having the key, and is unchanged otherwise. |
| HostUrl.LastValueOfAt | oidc-provider/src/OidcProvider/CommandProcessor.cs:124-143 | Within an element, the value of the last pair with a given key wins. |
| HostUrl.LastValueOfNone | oidc-provider/src/OidcProvider/CommandProcessor.cs:124-143 | A key has no value exactly when no pair reads as having that key. Pairs without '=' and pairs with other keys are ignored. |
| HostUrl.FirstUrlOfAt | oidc-provider/src/OidcProvider/CommandProcessor.cs:118-148 | The first element that yields a URL decides. |
| HostUrl.FirstUrlOfNone | oidc-provider/src/OidcProvider/CommandProcessor.cs:145-151 | There is no URL exactly when no element yields one. |
| HostUrl.FirstUrlOfIgnoresLater | oidc-provider/src/OidcProvider/CommandProcessor.cs:118-148 | Elements after the first one with a host never change the result. |
| HostUrl.ParseForwardedHeader | oidc-provider/src/OidcProvider/CommandProcessor.cs:115-152 | The nested loop returns exactly the reference reading `ParseForwarded`: the URL of the first element whose last `host` is non-blank, built from its last `proto` or else "https". |
| HostUrl.ElementUrl | oidc-provider/src/OidcProvider/CommandProcessor.cs:123-148 | An element `k=v;proto=p;host=h` whose first key is neither `proto` nor `host`, with plain tokens and p "http" or "https", yields "p://h". |
| HostUrl.ForwardedFirstElement | oidc-provider/src/OidcProvider/CommandProcessor.cs:117-148 | Such an element at the head of a header decides the header's URL, whatever follows it. |
| HostUrl.ForwardedTwoElements | oidc-provider/src/OidcProvider/CommandProcessor.cs:115-152 | `for=1.2.3.4;proto=http;host=a.example.com, proto=https;host=b.example.com` is not blank and yields "http://a.example.com". |
| Text.TrimBySpec | oidc-provider/src/OidcProvider/CommandProcessor.cs:167 | `Trim` and `Trim(c)` leave nothing exactly when every character is stripped. The result has no stripped character at either end and is no longer than the input. |
| Text.TrimEndBySpec | oidc-provider/src/OidcProvider/CommandProcessor.cs:161-167 | `TrimEnd(c)` returns a prefix of the input, everything after that prefix is stripped, and the prefix does not end in a stripped character. |
| Text.TrimByPadding | oidc-provider/src/OidcProvider/CommandProcessor.cs:183 | Strippable padding on either side does not change the trimmed result. |
| Text.ToLowerTrim | oidc-provider/src/OidcProvider/CommandProcessor.cs:183 | Trimming and lower-casing commute, and lower-casing keeps blankness. |
| Text.JoinSplitOn | oidc-provider/src/OidcProvider/CommandProcessor.cs:117 | Splitting on a separator gives separator-free pieces that join back to the input. |
| Text.SplitOnJoin | oidc-provider/src/OidcProvider/CommandProcessor.cs:117 | Splitting the join of a non-empty list of separator-free pieces gives those pieces back, so splitting and joining are inverse both ways. |
| Text.CleanEntriesSpec | oidc-provider/src/OidcProvider/CommandProcessor.cs:123 | With `RemoveEmptyEntries \| TrimEntries`, every entry is non-empty and trimmed. |
| Text.SplitEntriesCons | oidc-provider/src/OidcProvider/CommandProcessor.cs:117 | A leading entry free of the separator and needing no trimming comes out first, followed by the entries of the rest. |
| Text.SplitFirst | oidc-provider/src/OidcProvider/CommandProcessor.cs:126 | `Split('=', 2, TrimEntries)` gives one piece exactly when there is no '=', and otherwise two. One piece is the trimmed input. |
| Text.SplitFirstAt | oidc-provider/src/OidcProvider/CommandProcessor.cs:126 | With a first '=' at position i, the two pieces are the trimmed text before and after it. |
| CommandProcessor.Normalize | oidc-provider/src/OidcProvider/CommandProcessor.cs:176-184 | The result is "" exactly for a null or blank command. It is always trimmed and free of upper-case ASCII letters. |
| CommandProcessor.NormalizeFixes | oidc-provider/src/OidcProvider/CommandProcessor.cs:183 | A trimmed, lower-case command normalises to itself. |
| CommandProcessor.NormalizeIdempotent | oidc-provider/src/OidcProvider/CommandProcessor.cs:176-184 | Normalising twice equals normalising once. |
| CommandProcessor.NormalizeIgnoresCase | oidc-provider/src/OidcProvider/CommandProcessor.cs:183 | Commands equal ignoring ASCII case normalise alike. |
| CommandProcessor.NormalizeIgnoresPadding | oidc-provider/src/OidcProvider/CommandProcessor.cs:178-183 | White space around a command does not change its normalisation. |
| CommandProcessor.NormalizePaddedPing | oidc-provider/src/OidcProvider/CommandProcessor.cs:176-184 | " PING " normalises to "ping". |
| CommandProcessor.UsableHeader | oidc-provider/src/OidcProvider/CommandProcessor.cs:71 | A header is usable exactly when present and not blank, and then gives its value. |
| CommandProcessor.TryGetForwardedUrl | oidc-provider/src/OidcProvider/CommandProcessor.cs:89-113 | A URL given by the proxy headers is never empty. A usable `X-Forwarded-Host` always gives one. |
| CommandProcessor.TryGetForwardedUrlNone | oidc-provider/src/OidcProvider/CommandProcessor.cs:89-113 | No URL comes from the proxy headers exactly when `X-Forwarded-Host` is unusable and `Forwarded` is unusable or has no element with a host. The emptiness test never rejects a parsed URL. |
| CommandProcessor.ResolveHostUrl | oidc-provider/src/OidcProvider/CommandProcessor.cs:64-87 | The base URL is never empty. |
| CommandProcessor.ForwardedHostWins | oidc-provider/src/OidcProvider/CommandProcessor.cs:91-98 | A usable `X-Forwarded-Host` gives `BuildUrl` of it, with a usable `X-Forwarded-Proto` or else "https". |
| CommandProcessor.ForwardedHostIgnoresRest | oidc-provider/src/OidcProvider/CommandProcessor.cs:64-98 | Then `Forwarded`, `Host` and the environment do not matter. |
| CommandProcessor.ForwardedElementWins | oidc-provider/src/OidcProvider/CommandProcessor.cs:101-108 | Without `X-Forwarded-Host`, a `Forwarded` element with a host decides the base URL. |
| CommandProcessor.ForwardedWithoutHostFallsThrough | oidc-provider/src/OidcProvider/CommandProcessor.cs:101-113 | A `Forwarded` header yielding no host resolves exactly as if it were absent. |
| CommandProcessor.HostHeaderScheme | oidc-provider/src/OidcProvider/CommandProcessor.cs:71-77 | From `Host`, the scheme is a usable `X-Forwarded-Proto`, or else "http" exactly when the host starts with "localhost" ignoring case and "https" otherwise. |
| CommandProcessor.WebsiteHostnameFallback | oidc-provider/src/OidcProvider/CommandProcessor.cs:80-84 | With no proxy URL and no usable `Host`, a non-blank `WEBSITE_HOSTNAME` gives `BuildUrl("https", it)`. |
| CommandProcessor.ForwardedHeaderResolves | oidc-provider/src/OidcProvider/CommandProcessor.cs:64-113 | A request whose only header is `Forwarded: for=1.2.3.4;proto=http;host=a.example.com, proto=https;host=b.example.com` resolves to "http://a.example.com". |
| CommandProcessor.LocalFallback | oidc-provider/src/OidcProvider/CommandProcessor.cs:86 | With nothing else, the base URL is `http://localhost:7071`. |
| CommandProcessor.HandleAsync | oidc-provider/src/OidcProvider/CommandProcessor.cs:21-47 | The status is 200 exactly for a known command, 400 exactly for a null or blank command, and otherwise 404. The content type is JSON exactly for discovery. There is always content and there are never headers. |
| CommandProcessor.HandleSeesNormalizedCommand | oidc-provider/src/OidcProvider/CommandProcessor.cs:25-29 | Commands that normalise alike get the same result. |
| CommandProcessor.ResolveSeesHeadersOnly | oidc-provider/src/OidcProvider/CommandProcessor.cs:64-113 | Requests with the same headers resolve to the same base URL, whatever their command, body and method. |
| CommandProcessor.HandlePing | oidc-provider/src/OidcProvider/CommandProcessor.cs:31-32 | `ping` gives 200 "pong" as text/plain. |
| CommandProcessor.HandlePaddedPing | oidc-provider/src/OidcProvider/CommandProcessor.cs:25-32 | " PING " gives 200 "pong" as text/plain. |
| CommandProcessor.HandleUrl | oidc-provider/src/OidcProvider/CommandProcessor.cs:34-35 | `url` gives 200 and the resolved base URL as text/plain. |
| CommandProcessor.HandleDiscovery | oidc-provider/src/OidcProvider/CommandProcessor.cs:37-38 | The discovery command gives 200 and application/json. The document's issuer is b, its jwks URI b + "/.well-known/jwks.json" and its token endpoint b + "/oidc/token", where b is the base URL. Its lists are ["RS256"], [] and ["public"]. |
| CommandProcessor.HandleMissing | oidc-provider/src/OidcProvider/CommandProcessor.cs:40-41 | A null or blank command gives 400 with the fixed instruction text. |
| CommandProcessor.HandleUnknown | oidc-provider/src/OidcProvider/CommandProcessor.cs:43-45 | Any other command c gives 404 with exactly "Unknown command '" + c + "'.", which contains c. |
| CommandProcessor.PingCommandReturnsPong | oidc-provider/tests/OidcProvider.Tests/CommandProcessorTests.cs:18-27 | "ping" with no headers gives 200 "pong". |
| CommandProcessor.MissingCommandReturnsBadRequest | oidc-provider/tests/OidcProvider.Tests/CommandProcessorTests.cs:29-37 | A null command gives 400. |
| CommandProcessor.UnknownCommandReturnsNotFound | oidc-provider/tests/OidcProvider.Tests/CommandProcessorTests.cs:39-48 | "unknown" gives 404 with content containing "unknown". |
| CommandProcessor.UrlCommandReturnsEndpoint | oidc-provider/tests/OidcProvider.Tests/CommandProcessorTests.cs:50-64 | `url` with `Host: localhost:7071` gives 200 "http://localhost:7071". |
| CommandProcessor.WellKnownOpenIdConfigurationReturnsExpectedDocument | oidc-provider/tests/OidcProvider.Tests/CommandProcessorTests.cs:66-99 | Behind `X-Forwarded-Host: prod.example.com` and `X-Forwarded-Proto: https`, the discovery command gives 200 application/json. The issuer is "https://prod.example.com", with the jwks URI and token endpoint under it, and the lists ["RS256"], [] and ["public"]. |

## Left out

- Logging: the `ILogger` field, the constructor that takes it, and the
  warning for an unknown command (`CommandProcessor.cs:44`). None of it
  affects results.
- `Task` and `CancellationToken`: `HandleAsync` completes synchronously and
  ignores its token, so it is modelled as a function.
- The environment read of `WEBSITE_HOSTNAME` is the parameter
  `websiteHostname`; `None` is an unset variable.
- JSON serialisation: the discovery payload is the value `JsonBody(document)`
  that `JsonSerializer.Serialize` would write; the JSON text is not modelled.
- `HttpStatusCode` values are the integers 200, 400 and 404.
- Text semantics:
  - `ToLowerInvariant` and the `OrdinalIgnoreCase` comparisons fold ASCII
    letters only.
  - White space is the fixed set of characters `char.IsWhiteSpace` accepts.
  - A `char` is a Unicode scalar value, not a UTF-16 code unit: a lone
    surrogate cannot be represented, and a supplementary character is one
    `char` where C# has two. No operation of the core depends on the
    difference, since every white-space character and every ASCII letter
    lies in the Basic Multilingual Plane.
- Requests.TryGetHeader: lookups are exact-key. The case-insensitive
  comparer of the dictionary a caller passes in (as the tests and the HTTP
  adapter do) is not modelled; the lemmas about test requests use the
  spellings the tests use. Null header values are not modelled.
- HostUrl.BuildUrl: the parameter `scheme` is a plain string. The source
  allows null (`scheme ?? ""`), but no caller passes null.
- Results.WithHeader: the fresh dictionary copy is a new map value. The
  receiver is trivially unchanged, since values are immutable.
- The Azure Functions adapter (`Functions/CommandsFunction.cs`, including
  its 405 path) and the host start-up (`Program.cs`) are not part of this
  model.
