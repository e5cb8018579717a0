/** The stub OpenID Connect Discovery 1.0 provider-metadata document
    (section 3 of that specification) the router serves. Only the values of
    its six members are modelled; their JSON text is not. */
module Discovery {
  import opened Text

  /** The path of the key set under the base URL. */
  const JwksPath := "/.well-known/jwks.json"

  /** The path of the token endpoint under the base URL. */
  const TokenPath := "/oidc/token"

  /** The members `issuer`, `jwks_uri`, `token_endpoint`,
      `id_token_signing_alg_values_supported`, `response_types_supported`
      and `subject_types_supported`, in that order. */
  datatype DiscoveryDocument = DiscoveryDocument(
    issuer: string,
    jwksUri: string,
    tokenEndpoint: string,
    idTokenSigningAlgValuesSupported: seq<string>,
    responseTypesSupported: seq<string>,
    subjectTypesSupported: seq<string>)

  /** The document for the base URL `baseUrl`: the issuer is the base URL
      itself and both endpoints lie under it; the algorithm and subject-type
      lists are fixed and no response type is advertised. */
  function OpenIdConfiguration(baseUrl: string): (d: DiscoveryDocument)
    ensures d.issuer == baseUrl
    ensures StartsWith(d.jwksUri, d.issuer) && d.jwksUri[|d.issuer|..] == JwksPath
    ensures StartsWith(d.tokenEndpoint, d.issuer) && d.tokenEndpoint[|d.issuer|..] == TokenPath
    ensures d.idTokenSigningAlgValuesSupported == ["RS256"]
    ensures d.responseTypesSupported == []
    ensures d.subjectTypesSupported == ["public"]
  {
    var d := DiscoveryDocument(baseUrl, baseUrl + JwksPath, baseUrl + TokenPath, ["RS256"], [], ["public"]);
    assert d.jwksUri[..|baseUrl|] == baseUrl && d.tokenEndpoint[..|baseUrl|] == baseUrl;
    d
  }

  /** Equivalently, the endpoints are the base URL followed by their paths. */
  lemma OpenIdConfigurationUrls(baseUrl: string)
    ensures OpenIdConfiguration(baseUrl).jwksUri == baseUrl + JwksPath
    ensures OpenIdConfiguration(baseUrl).tokenEndpoint == baseUrl + TokenPath
  {
    var d := OpenIdConfiguration(baseUrl);
    assert d.jwksUri == d.jwksUri[..|baseUrl|] + d.jwksUri[|baseUrl|..];
    assert d.tokenEndpoint == d.tokenEndpoint[..|baseUrl|] + d.tokenEndpoint[|baseUrl|..];
  }
}
