/**
 The client of `src/client.rs`: the caller's configuration, the token builder that turns
 it into an OAuth2 configuration, the code-for-token exchange with its error wrapping,
 and the client that holds the resulting token.
 */
module PinterestClient {
  import opened Wrappers
  import OAuth2
  import opened Scopes

  /** The one error kind: a failed token exchange, carrying the crate's error. */
  datatype PinterestError = Token(err: OAuth2.TokenError)

  /** `From<TokenError> for PinterestError`: wraps the error without altering it. */
  function FromTokenError(e: OAuth2.TokenError): (r: PinterestError)
    ensures r.Token? && r.err == e
  {
    Token(e)
  }

  /** The caller's configuration: credentials, endpoints, redirect URL and scope flags. */
  datatype Config = Config(
    clientId: string,
    clientSecret: string,
    authorizeUrl: string,
    tokenUrl: string,
    redirectUrl: string,
    scope: Scope)

  /** Holds the fully resolved OAuth2 configuration for one authorization flow. */
  datatype TokenBuilder = TokenBuilder(config: OAuth2.Config)

  /**
   `TokenBuilder::new`: copy the four strings, append one scope per set flag in request
   order, then set the redirect URL.
   */
  method NewTokenBuilder(config: Config) returns (builder: TokenBuilder)
    ensures builder.config.clientId == config.clientId
    ensures builder.config.clientSecret == config.clientSecret
    ensures builder.config.authorizeUrl == config.authorizeUrl
    ensures builder.config.tokenUrl == config.tokenUrl
    ensures builder.config.scopes == ResolvedScopes(config.scope)
    ensures builder.config.redirectUrl == Some(config.redirectUrl)
  {
    var oauthConfig := OAuth2.NewConfig(config.clientId, config.clientSecret, config.authorizeUrl, config.tokenUrl);
    if config.scope.readPublic {
      oauthConfig := oauthConfig.AddScope("read_public");
    }
    if config.scope.readRelationships {
      oauthConfig := oauthConfig.AddScope("read_relationships");
    }
    if config.scope.writePublic {
      oauthConfig := oauthConfig.AddScope("write_public");
    }
    if config.scope.writeRelationships {
      oauthConfig := oauthConfig.AddScope("write_relationships");
    }
    oauthConfig := oauthConfig.SetRedirectUrl(config.redirectUrl);
    builder := TokenBuilder(oauthConfig);
    ResolvedScopesUnfolded(config.scope);
  }

  /**
   `TokenBuilder::exchange_code`. The network exchange is the parameter `exchanger`,
   which sees the builder's configuration and the code; its error, if any, is wrapped by
   `FromTokenError` as the `?` operator does.
   */
  function ExchangeCode(
    builder: TokenBuilder,
    code: string,
    exchanger: (OAuth2.Config, string) -> Result<OAuth2.Token, OAuth2.TokenError>
  ): (r: Result<OAuth2.Token, PinterestError>)
    ensures r.Ok? <==> exchanger(builder.config, code).Ok?
    ensures r.Ok? ==> r.value == exchanger(builder.config, code).value
    ensures r.Err? ==> r.error == Token(exchanger(builder.config, code).error)
  {
    match exchanger(builder.config, code)
    case Ok(token) => Ok(token)
    case Err(e) => Err(FromTokenError(e))
  }

  /** The session state; the HTTP transport and event loop are not part of this model. */
  datatype Client = Client(token: Option<OAuth2.Token>)

  /** `Client::default`: a session without a token. */
  function DefaultClient(): (c: Client)
    ensures c.token.None?
  {
    Client(None)
  }

  /** `Client::new`: the default session with the token set. */
  function NewClient(token: OAuth2.Token): (c: Client)
    ensures c.token == Some(token)
  {
    DefaultClient().(token := Some(token))
  }

  /** The test `create_authentication_url`, up to the URL encoding done by the crate. */
  method CreateAuthenticationUrl() returns (builder: TokenBuilder)
    ensures builder.config == OAuth2.Config(
      "myclientid", "myclientsecret", "https://example.com/authorize", "https://example.com/token",
      ["read_public", "read_relationships"], Some("https://mysite.com:8000"))
  {
    var config := Config(
      "myclientid", "myclientsecret", "https://example.com/authorize", "https://example.com/token",
      "https://mysite.com:8000", DefaultScope().(readPublic := true, readRelationships := true));
    builder := NewTokenBuilder(config);
    ResolvedScopesUnfolded(config.scope);
  }
}
