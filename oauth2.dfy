/**
 An abstract stand-in for the parts of the `oauth2` crate that `src/client.rs` uses.
 Only the observable data are modelled: a configuration record whose builder-style
 updates return a new value, and the opaque token and token-error values.
 */
module OAuth2 {
  import opened Wrappers

  /** The access token handed back by a successful exchange; its contents are opaque here. */
  type Token(==)

  /** The failure reported by the crate when an exchange does not succeed. */
  type TokenError(==)

  /** The crate's configuration: credentials, endpoints, requested scopes, redirect URL. */
  datatype Config = Config(
    clientId: string,
    clientSecret: string,
    authorizeUrl: string,
    tokenUrl: string,
    scopes: seq<string>,
    redirectUrl: Option<string>)
  {
    /** `add_scope`: the new scope goes at the end; nothing else changes. */
    function AddScope(scope: string): (c: Config)
      ensures |c.scopes| == |scopes| + 1 && c.scopes[|scopes|] == scope
      ensures c.scopes[..|scopes|] == scopes
      ensures c.(scopes := scopes) == this
    {
      this.(scopes := scopes + [scope])
    }

    /** `set_redirect_url`: replaces the redirect URL; nothing else changes. */
    function SetRedirectUrl(url: string): (c: Config)
      ensures c.redirectUrl == Some(url)
      ensures c.(redirectUrl := redirectUrl) == this
    {
      this.(redirectUrl := Some(url))
    }
  }

  /** `Config::new`: the four strings as given, no scopes and no redirect URL yet. */
  function NewConfig(clientId: string, clientSecret: string, authorizeUrl: string, tokenUrl: string): (c: Config)
    ensures c.clientId == clientId && c.clientSecret == clientSecret
    ensures c.authorizeUrl == authorizeUrl && c.tokenUrl == tokenUrl
    ensures c.scopes == [] && c.redirectUrl.None?
  {
    Config(clientId, clientSecret, authorizeUrl, tokenUrl, [], None)
  }
}
