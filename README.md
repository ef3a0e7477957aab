# pinterest-rs client: a verified model

This project models `src/client.rs` of pinterest-rs, a thin binding of the Pinterest REST API.
It covers three things:

- the four permission flags of `Scope` and how `TokenBuilder::new` turns them into the ordered
  list of OAuth2 scope strings it requests;
- the copying of the caller's `Config` into the `oauth2` crate's configuration;
- the code-for-token exchange with its error wrapping, and the `Client` session holder.

Modules:

- `Wrappers` (`wrappers.dfy`): `Option` and `Result`.
- `OAuth2` (`oauth2.dfy`): an abstract stand-in for the `oauth2` crate, whose code is not part of
  this model. It has a configuration record with client id, client secret, authorize URL, token
  URL, a list of scopes and an optional redirect URL. `add_scope` appends to the end of the list.
  `set_redirect_url` sets the field. `Token` and `TokenError` are opaque types.
- `Scopes` (`scopes.dfy`): the `Scope` flags and the reference definition `ResolvedScopes`. It
  filters the request order read_public, read_relationships, write_public, write_relationships
  by the flags that are set. This is not the struct's declaration order (read_public,
  write_public, read_relationships, write_relationships), and the model keeps the two orders
  apart. The lemmas state membership, count, absence of repeats, order, and that the list is
  uniquely determined.
- `PinterestClient` (`client.dfy`): `Config`, `TokenBuilder`, `PinterestError`, `Client`.
  `TokenBuilder::new` is a method that rebinds a local configuration through four guarded
  appends and a final redirect-URL update, as the source does. Its postcondition ties the
  result to `ResolvedScopes`.

The token exchange over the network becomes a function parameter `exchanger`. It takes the
builder's configuration and the code, and returns a token or a `TokenError`.

Only the order of the `if` statements at src/client.rs:102-113 fixes the request order. The
test at src/client.rs:134-144 sets only read_public and read_relationships. Those two flags come
in the same relative order in both orders, so the test fixes only that read_public comes before
read_relationships. `RequestOrderIsNotDeclarationOrder` shows a scope where the two orders differ.

The datatypes that stand for the source's types are described in the module list above and have
no rows below: `Scopes.Scope` (src/client.rs:12-21), `PinterestClient.Config` (47-54),
`PinterestClient.PinterestError` (36-38), `PinterestClient.Client` (57-61, without the transport
fields) and `PinterestClient.TokenBuilder` (81-83). The reference function
`Scopes.ResolvedScopes` has no contract of its own. The lemmas about it carry its properties,
and `NewTokenBuilder`'s postcondition ties the method to it.

## Model

| member | source | states |
|---|---|---|
| `Scopes.DefaultScope` | src/client.rs:23-32 | the default scope has no flag set, so it grants no permission |
| `Scopes.SelectInRequestOrder` | src/client.rs:102-113 | the permissions selected are the set flags taken in request order, one guarded step per flag |
| `Scopes.ResolvedScopesUnfolded` | src/client.rs:102-113 | the requested scope strings are, in this order, "read_public" if read_public is set, "read_relationships" if read_relationships is set, "write_public" if write_public is set, "write_relationships" if write_relationships is set |
| `Scopes.ResolvedScopesMembers` | src/client.rs:102-113 | a scope string is requested if and only if it is the name of a permission whose flag is set; each of the four names is present exactly when its flag is true |
| `Scopes.ResolvedScopesCount` | src/client.rs:102-113 | the number of requested scopes equals the number of flags set, and no scope appears twice |
| `Scopes.ResolvedScopesInRequestOrder` | src/client.rs:102-113 | the requested list is a subsequence of read_public, read_relationships, write_public, write_relationships |
| `Scopes.ResolvedScopesCharacterised` | src/client.rs:102-113 | any duplicate-free list in request order whose members are exactly the granted permissions has the resolved list as its names, so the resolved list is unique |
| `Scopes.NoScopesIffNoFlags` | src/client.rs:102-113 | no scope is requested exactly when no flag is set, in particular for the default scope |
| `Scopes.RequestOrderIsNotDeclarationOrder` | src/client.rs:12-21 | with every flag set, the request order differs from the struct's declaration order (write_public comes third, not second) |
| `OAuth2.NewConfig` | src/client.rs:94-99 | the crate configuration starts with the four strings as given, no scopes and no redirect URL |
| `OAuth2.Config.AddScope` | src/client.rs:103 | adding a scope puts it at the end of the list and changes nothing else |
| `OAuth2.Config.SetRedirectUrl` | src/client.rs:116 | setting the redirect URL makes it present with the given value and changes nothing else |
| `PinterestClient.NewTokenBuilder` | src/client.rs:92-120 | client id, client secret, authorize URL and token URL pass through unchanged; the scope list is the resolved list for the flags; the redirect URL is exactly the configured one |
| `PinterestClient.CreateAuthenticationUrl` | src/client.rs:134-144 | for the test's configuration, with read_public and read_relationships set, the builder holds the test's strings and the scope list ["read_public", "read_relationships"] |
| `PinterestClient.FromTokenError` | src/client.rs:40-44 | converting a token error gives the `Token` error variant, carrying the error unaltered |
| `PinterestClient.ExchangeCode` | src/client.rs:123-126 | the result is a token exactly when the exchange yields one, and it is the same token; on failure it is `Token(e)` with the exchange's error `e` unaltered |
| `PinterestClient.DefaultClient` | src/client.rs:63-72 | the default session holds no token |
| `PinterestClient.NewClient` | src/client.rs:74-78 | a session built from a token holds exactly that token |

## Left out

- The authorization URL string: its query-parameter layout, the `+`-joining of the scopes and
  the percent-encoding of `redirect_uri`. The `oauth2` crate builds it (`authorize_url()`,
  src/client.rs:143), and that code is not part of this model. `CreateAuthenticationUrl` pins
  the scope list and the fields that the test's URL is built from, not the encoding.
- The network token exchange (src/client.rs:124): it is a foreign, blocking HTTP call, so it
  becomes the `exchanger` parameter.
- The `hyper::Client` and `tokio_core::reactor::Core` fields of `Client` and their creation
  (src/client.rs:59-60, 65-69): these are I/O transport and event-loop plumbing, and
  `Core::new().unwrap()` is an external call that can fail.
- `API_BASE` (src/client.rs:9): a constant that nothing uses.
- src/lib.rs: it only declares crates and modules.
- The borrowed lifetimes of `Config`'s string fields: the model holds strings by value.
