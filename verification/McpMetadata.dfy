/** Protected-resource metadata: the absolute-URI slicer, the well-known path derivation of section 3.1 of
    RFC 9728, the document, and the guard built from the derived URL. */
module McpMetadata {
  import opened Wrappers
  import opened Texts
  import opened Uris
  import opened BearerChallenges

  const PREFIX := "/.well-known/oauth-protected-resource"

  datatype Document = Document(
    resource: string, authorizationServers: seq<string>, scopesSupported: Option<seq<string>>,
    documentation: Option<string>)

  datatype Metadata = Metadata(document: Document, path: string, url: string)

  function DeriveMetadataPath(resourcePath: string): string {
    if resourcePath == "" || resourcePath == "/" then PREFIX else PREFIX + resourcePath
  }

  // ---- Building the document -----------------------------------------------------------------------------

  predicate IsIdentifier(raw: string) { RequireAbsoluteUri(raw, Identifier).Ok? }

  ghost predicate AllIdentifiers(xs: seq<string>) { forall i | 0 <= i < |xs| :: IsIdentifier(xs[i]) }

  ghost predicate AllScopeTokens(xs: seq<string>) { forall i | 0 <= i < |xs| :: IsToken(xs[i]) }

  ghost predicate NoDuplicates(xs: seq<string>) { forall i, j | 0 <= i < j < |xs| :: xs[i] != xs[j] }

  /** Everything the caller must get right. */
  ghost predicate Acceptable(
      resource: string, servers: seq<string>, scopes: seq<string>, methods: seq<string>, docs: Option<string>)
  {
    IsIdentifier(resource) &&
    servers != [] && AllIdentifiers(servers) && NoDuplicates(servers) &&
    AllScopeTokens(scopes) && NoDuplicates(scopes) &&
    methods == ["header"] &&
    (docs.Some? ==> RequireAbsoluteUri(docs.value, Locator).Ok?)
  }

  /** Any absolute URI that is all path: every accepted resource is one. */
  predicate IsBare(raw: string) {
    var parsed := ParseAbsoluteUri(raw);
    parsed.Some? && !parsed.value.hasQuery && !parsed.value.hasFragment
  }

  /** The path and the URL a resource's document is served at. */
  function PathFor(resource: string): string
    requires IsBare(resource)
  {
    DeriveMetadataPath(ParseAbsoluteUri(resource).value.path)
  }

  function UrlFor(resource: string): string
    requires IsBare(resource)
  {
    var parsed := ParseAbsoluteUri(resource).value;
    parsed.scheme + "://" + parsed.authority + PathFor(resource)
  }

  function MetadataOf(resource: string, servers: seq<string>, scopes: seq<string>, docs: Option<string>): Metadata
    requires IsIdentifier(resource)
  {
    Metadata(Document(resource, servers, if scopes == [] then None else Some(scopes), docs), PathFor(resource),
             UrlFor(resource))
  }

  lemma NextDistinct(xs: seq<string>, i: nat)
    requires i < |xs| && NoDuplicates(xs[..i]) && xs[i] !in xs[..i]
    ensures xs[..i + 1] == xs[..i] + [xs[i]] && NoDuplicates(xs[..i + 1])
  {}

  method ResolveServers(servers: seq<string>) returns (r: Result<seq<string>, Refusal>)
    ensures r.Ok? <==> servers != [] && AllIdentifiers(servers) && NoDuplicates(servers)
    ensures r.Ok? ==> r.value == servers
  {
    if |servers| == 0 { return Err(BadMember("authorization_servers")); }
    var seen: set<string>, resolved := {}, [];
    for i := 0 to |servers|
      invariant resolved == servers[..i] && forall s :: s in seen <==> s in servers[..i]
      invariant AllIdentifiers(servers[..i]) && NoDuplicates(servers[..i])
    {
      var issuer := RequireAbsoluteUri(servers[i], Identifier);
      if issuer.Err? { return Err(issuer.error); }
      if servers[i] in seen {
        ghost var j :| 0 <= j < i && servers[j] == servers[i];
        return Err(BadMember("authorization_servers"));
      }
      NextDistinct(servers, i);
      seen := seen + {servers[i]};
      resolved := resolved + [servers[i]];
    }
    assert servers[..|servers|] == servers;
    return Ok(resolved);
  }

  method ResolveScopes(scopes: seq<string>) returns (r: Result<seq<string>, Refusal>)
    ensures r.Ok? <==> AllScopeTokens(scopes) && NoDuplicates(scopes)
    ensures r.Ok? ==> r.value == scopes
  {
    var seen: set<string>, resolved := {}, [];
    for i := 0 to |scopes|
      invariant resolved == scopes[..i] && forall s :: s in seen <==> s in scopes[..i]
      invariant AllScopeTokens(scopes[..i]) && NoDuplicates(scopes[..i])
    {
      if !IsToken(scopes[i]) { return Err(BadMember("scopes_supported")); }
      if scopes[i] in seen {
        ghost var j :| 0 <= j < i && scopes[j] == scopes[i];
        return Err(BadMember("scopes_supported"));
      }
      NextDistinct(scopes, i);
      seen := seen + {scopes[i]};
      resolved := resolved + [scopes[i]];
    }
    assert scopes[..|scopes|] == scopes;
    return Ok(resolved);
  }

  method ProtectedResourceMetadata(resource: string, servers: seq<string>, scopes: seq<string>,
                                   methods: seq<string>, docs: Option<string>) returns (r: Result<Metadata, Refusal>)
    ensures r.Ok? <==> Acceptable(resource, servers, scopes, methods, docs)
    ensures r.Ok? ==> r.value == MetadataOf(resource, servers, scopes, docs)
  {
    var parsed := RequireAbsoluteUri(resource, Identifier);
    if parsed.Err? { return Err(parsed.error); }
    var resolvedServers := ResolveServers(servers);
    if resolvedServers.Err? { return Err(resolvedServers.error); }
    var resolvedScopes := ResolveScopes(scopes);
    if resolvedScopes.Err? { return Err(resolvedScopes.error); }
    if |methods| != 1 || methods[0] != "header" { return Err(BadMember("bearer_methods_supported")); }
    if docs.Some? {
      var page := RequireAbsoluteUri(docs.value, Locator);
      if page.Err? { return Err(page.error); }
    }
    var path := DeriveMetadataPath(parsed.value.path);
    var supported := if resolvedScopes.value == [] then None else Some(resolvedScopes.value);
    r := Ok(Metadata(Document(resource, resolvedServers.value, supported, docs),
                     path, parsed.value.scheme + "://" + parsed.value.authority + path));
  }

  // ---- The URL is one of its own ----------------------------------------------------------------------------

  lemma DerivedPathIsPath(resourcePath: string)
    requires IsPath(resourcePath)
    ensures IsPath(DeriveMetadataPath(resourcePath)) && DeriveMetadataPath(resourcePath) != ""
  {
    assert PREFIX[0] == '/' && '?' !in PREFIX && '#' !in PREFIX;
    assert DeriveMetadataPath(resourcePath)[0] == PREFIX[0];
  }

  /** The derived URL slices back into the resource's scheme and authority and the derived path, with neither query
      nor fragment. */
  lemma MetadataUrlReparses(resource: string)
    requires IsBare(resource)
    ensures var p := ParseAbsoluteUri(resource).value;
            ParseAbsoluteUri(UrlFor(resource)) ==
                Some(ParsedUri(p.scheme, p.authority, PathFor(resource), false, false))
  {
    var p := ParseAbsoluteUri(resource).value;
    ParsedPieces(resource);
    DerivedPathIsPath(p.path);
    PiecesParse(p.scheme, p.authority, PathFor(resource), "");
    NothingMore(UrlFor(resource));
  }

  /** So it is accepted, under either policy, exactly when the resource is. */
  lemma MetadataUrlIsAccepted(resource: string, policy: Policy)
    requires IsBare(resource)
    ensures RequireAbsoluteUri(UrlFor(resource), policy).Ok? <==> IsIdentifier(resource)
  {
    MetadataUrlReparses(resource);
  }

  function Base(p: ParsedUri): string { p.scheme + "://" + p.authority }

  lemma BaseDetermines(p1: ParsedUri, p2: ParsedUri)
    requires IsScheme(p1.scheme) && IsAuthority(p1.authority) && IsScheme(p2.scheme) && IsAuthority(p2.authority)
    ensures Base(p1) == Base(p2) <==> p1.scheme == p2.scheme && p1.authority == p2.authority
  {
    PiecesParse(p1.scheme, p1.authority, "", "");
    PiecesParse(p2.scheme, p2.authority, "", "");
    assert Base(p1) + "" + "" == Base(p1) && Base(p2) + "" + "" == Base(p2);
  }

  lemma DerivedPathsAgree(a: string, b: string)
    ensures DeriveMetadataPath(a) == DeriveMetadataPath(b) <==> a == b || (a in {"", "/"} && b in {"", "/"})
  {
    assert (PREFIX + a)[|PREFIX|..] == a && (PREFIX + b)[|PREFIX|..] == b;
  }

  /** Same identifier, up to an empty path against a bare slash. */
  ghost predicate OneDocument(r1: string, r2: string) {
    r1 == r2 || (EmptyPath(r1) && r2 == r1 + "/") || (EmptyPath(r2) && r1 == r2 + "/")
  }

  /** Nothing but a scheme and an authority. */
  ghost predicate EmptyPath(r: string) {
    exists scheme, authority :: IsScheme(scheme) && IsAuthority(authority) && r == scheme + "://" + authority
  }

  lemma EmptyPathMeaning(r: string)
    requires IsBare(r)
    ensures EmptyPath(r) <==> ParseAbsoluteUri(r).value.path == ""
  {
    var p := ParseAbsoluteUri(r).value;
    ParsedPieces(r);
    if p.path == "" {
      assert r == p.scheme + "://" + p.authority;
    }
    if EmptyPath(r) {
      var scheme, authority :| IsScheme(scheme) && IsAuthority(authority) && r == scheme + "://" + authority;
      PiecesParse(scheme, authority, "", "");
      assert r == scheme + "://" + authority + "" + "";
    }
  }

  ghost predicate SlashOnly(p1: ParsedUri, p2: ParsedUri) {
    p1.path == p2.path || (p1.path in {"", "/"} && p2.path in {"", "/"})
  }

  lemma AddSlash(r: string)
    requires IsBare(r) && EmptyPath(r)
    ensures ParseAbsoluteUri(r + "/") == Some(ParseAbsoluteUri(r).value.(path := "/"))
  {
    var p := ParseAbsoluteUri(r).value;
    ParsedPieces(r);
    EmptyPathMeaning(r);
    PiecesParse(p.scheme, p.authority, "/", "");
    SlashAfter(r, p.scheme + "://" + p.authority, p.path);
  }

  lemma SlashAfter(r: string, base: string, path: string)
    requires r == base + path && path == ""
    ensures r + "/" == base + "/" + ""
  {}

  ghost predicate SamePlace(p1: ParsedUri, p2: ParsedUri) {
    p1.scheme == p2.scheme && p1.authority == p2.authority && SlashOnly(p1, p2)
  }

  lemma OneDocumentIsOnePlace(r1: string, r2: string)
    requires IsBare(r1) && IsBare(r2) && OneDocument(r1, r2)
    ensures SamePlace(ParseAbsoluteUri(r1).value, ParseAbsoluteUri(r2).value)
  {
    if r1 != r2 {
      if EmptyPath(r1) && r2 == r1 + "/" {
        AddSlash(r1);
        EmptyPathMeaning(r1);
      } else {
        AddSlash(r2);
        EmptyPathMeaning(r2);
      }
    }
  }

  lemma OnePlaceIsOneDocument(r1: string, r2: string)
    requires IsBare(r1) && IsBare(r2)
    requires SamePlace(ParseAbsoluteUri(r1).value, ParseAbsoluteUri(r2).value)
    ensures OneDocument(r1, r2)
  {
    EmptyPathMeaning(r1);
    EmptyPathMeaning(r2);
    Reassemble(r1, ParseAbsoluteUri(r1).value);
    Reassemble(r2, ParseAbsoluteUri(r2).value);
  }

  lemma Reassemble(r: string, p: ParsedUri)
    requires IsBare(r) && p == ParseAbsoluteUri(r).value
    ensures r == Base(p) + p.path && (p.path == "" ==> r == Base(p))
  {
    ParsedPieces(r);
  }

  /** Two resources are described at one URL exactly when they are equal or differ only by an empty path against
      a bare slash; a longer path keeps its trailing slash. */
  lemma SharedExactlyWhenOneDocument(r1: string, r2: string)
    requires IsBare(r1) && IsBare(r2)
    ensures UrlFor(r1) == UrlFor(r2) <==> OneDocument(r1, r2)
  {
    var p1, p2 := ParseAbsoluteUri(r1).value, ParseAbsoluteUri(r2).value;
    MetadataUrlReparses(r1);
    MetadataUrlReparses(r2);
    ParsedPieces(r1);
    ParsedPieces(r2);
    BaseDetermines(p1, p2);
    DerivedPathsAgree(p1.path, p2.path);
    if OneDocument(r1, r2) { OneDocumentIsOnePlace(r1, r2); }
    if SamePlace(p1, p2) { OnePlaceIsOneDocument(r1, r2); }
  }

  // ---- The guard ------------------------------------------------------------------------------------------------

  datatype Guard = Guard(
    noCredential: string, invalidToken: string, insufficientScope: Option<string>, metadataPath: string)

  /** `mcp_guard_challenges`: absent without a URL, refused without an audience. */
  function McpGuard(audience: Option<string>, url: Option<string>, scope: Option<string>)
      : Result<Option<Guard>, Refusal>
  {
    if url.None? then Ok(None)
    else if audience.None? || audience.value == "" then Err(BadMember("resource_metadata_url"))
    else
      match RequireAbsoluteUri(url.value, Locator)
      case Err(e) => Err(e)
      case Ok(parsed) =>
        var scoped :=
          if scope.None? then Ok("")
          else Challenge(Call(url.value, Some("insufficient_scope"), None, scope));
        var plain := Challenge(Call(url.value, None, None, None));
        var invalid := Challenge(Call(url.value, Some("invalid_token"), None, None));
        if scoped.Err? then Err(scoped.error)
        else if plain.Err? then Err(plain.error)
        else if invalid.Err? then Err(invalid.error)
        else Ok(Some(Guard(plain.value, invalid.value, if scope.None? then None else Some(scoped.value),
                           if parsed.path == "" then "/" else parsed.path)))
  }

  predicate IsReadVerb(verb: string) { verb == "GET" || verb == "HEAD" }

  /** `is_metadata_document_request`. */
  predicate IsMetadataDocumentRequest(guard: Option<Guard>, verb: Option<string>, path: Option<string>) {
    guard.Some? && path.Some? &&
    IsReadVerb(UpperAscii(if verb.None? then "" else verb.value)) &&
    path.value == guard.value.metadataPath
  }

  /** With an audience, a guard is built exactly for an acceptable NQCHAR URL and a well-spaced scope, and it keeps
      the URL's path. */
  lemma GuardFor(url: string, audience: string, scope: Option<string>)
    requires audience != ""
    ensures var guard := McpGuard(Some(audience), Some(url), scope);
            (guard.Ok? <==>
               RequireAbsoluteUri(url, Locator).Ok? && AllNqchar(url) && (scope.Some? ==> WellSpaced(scope.value))) &&
            (guard.Ok? ==>
               var path := ParseAbsoluteUri(url).value.path;
               guard.value.Some? && guard.value.value.metadataPath == if path == "" then "/" else path)
  {
    ChallengeAccepted(Call(url, None, None, None));
    ChallengeAccepted(Call(url, Some("invalid_token"), None, None));
    ChallengeAccepted(Call(url, Some("insufficient_scope"), None, scope));
  }

  /** The guard fed from a resource's derived URL and an audience exists exactly when the resource is acceptable, that
      URL is all NQCHAR and the route's scope, if it has one, is well spaced; it then exempts GET and HEAD of the
      derived path and no other request. */
  lemma GuardExemptsItsDocument(resource: string, audience: string, scope: Option<string>, verb: Option<string>,
      path: Option<string>)
    requires IsBare(resource) && audience != ""
    ensures var guard := McpGuard(Some(audience), Some(UrlFor(resource)), scope);
            (guard.Ok? <==>
               IsIdentifier(resource) && AllNqchar(UrlFor(resource)) && (scope.Some? ==> WellSpaced(scope.value))) &&
            (guard.Ok? ==>
              (IsMetadataDocumentRequest(guard.value, verb, path) <==>
               path == Some(PathFor(resource)) && verb.Some? && IsReadVerb(UpperAscii(verb.value))))
  {
    MetadataUrlReparses(resource);
    MetadataUrlIsAccepted(resource, Locator);
    ParsedPieces(resource);
    DerivedPathIsPath(ParseAbsoluteUri(resource).value.path);
    GuardFor(UrlFor(resource), audience, scope);
  }
}
