/** How one answer of the token endpoint is classified: status first, then body.
    Covers the `/oauth2` error mapping, the CIBA poll mapping on top of it, and the
    step the polling loop takes for each failure. */
module CibaErrors {
  import opened Wrappers

  type NonNegReal = r: real | 0.0 <= r

  /** The `error` values the client tells apart; every other string stays itself. */
  datatype Code =
    | AuthorizationPending | SlowDownAsked | RateLimitExceeded | AccessDenied | ExpiredToken | Other(text: string)

  function CodeOf(text: string): Code {
    if text == "authorization_pending" then AuthorizationPending
    else if text == "slow_down" then SlowDownAsked
    else if text == "rate_limit_exceeded" then RateLimitExceeded
    else if text == "access_denied" then AccessDenied
    else if text == "expired_token" then ExpiredToken
    else Other(text)
  }

  /** The type an OAuthProtocolError is raised as. */
  datatype OAuthKind = Plain | CibaAccessDenied | CibaExpiredToken

  /** The exception types the polling loop can see, with the attributes it reads. */
  datatype Failure =
    | OAuthProtocol(code: Code, description: string, kind: OAuthKind, oauthRetryAfterMs: Option<NonNegReal>)
    | Auth
    | Authz
    | Network(retryAfterMs: Option<NonNegReal>, terminal: bool)
    | Unclassified

  /** A parsed response body; `error` and `description` are the string-typed members only. */
  datatype Body = NotJson | NotObject | Object(error: Option<string>, description: Option<string>)

  /** A response. `retryAfterMs` is the parsed Retry-After header, and `tokensAccepted` says
      whether a 2xx body passed the token-set and ID-token checks. */
  datatype Response = Response(status: int, body: Body, retryAfterMs: Option<NonNegReal>, tokensAccepted: bool)

  /** What the wire does with one token request; `Broken` is any exception that is no transport error, such as that of
      a transport closed under it. */
  datatype Answer = TransportFailure | Broken | Reply(response: Response)

  datatype Step = Pending | SlowDown | Transient | Terminal

  // ---- The generic and the OAuth mapping --------------------------------------------

  function ErrorFromHttpStatus(r: Response): Failure {
    if r.status == 401 then Auth
    else if r.status == 403 || r.status == 409 then Authz
    else Network(if r.status == 408 || r.status == 429 || r.status >= 500 then r.retryAfterMs else None, false)
  }

  /** The (code, description) of an OAuth error body, with the description optional. */
  function OAuth2ErrorBody(body: Body): Option<(string, string)> {
    match body
    case Object(Some(error), Some(description)) => Some((error, description))
    case Object(Some(error), None) => if error != "" then Some((error, "")) else None
    case _ => None
  }

  function ErrorFromOAuth2Response(r: Response): Failure {
    if 300 <= r.status <= 399 then ErrorFromHttpStatus(r)
    else
      match OAuth2ErrorBody(r.body)
      case Some((code, description)) =>
        OAuthProtocol(CodeOf(code), description, Plain, if r.status == 429 then r.retryAfterMs else None)
      case None => ErrorFromHttpStatus(r)
  }

  // ---- The CIBA mapping --------------------------------------------------------------

  /** The typed errors are rebuilt from the two wire fields, so they lose any Retry-After. */
  function TypedPollError(f: Failure): Failure
    requires f.OAuthProtocol?
  {
    if f.code == AccessDenied then OAuthProtocol(f.code, f.description, CibaAccessDenied, None)
    else if f.code == ExpiredToken then OAuthProtocol(f.code, f.description, CibaExpiredToken, None)
    else f
  }

  function CibaError(r: Response): Failure {
    var error := ErrorFromOAuth2Response(r);
    if error.OAuthProtocol? then TypedPollError(error) else error
  }

  function CibaPollError(r: Response): Failure {
    if 500 <= r.status <= 599 then ErrorFromHttpStatus(r) else CibaError(r)
  }

  /** Only a NetworkError's mark is ever read. */
  function MarkTerminal(f: Failure): Failure {
    if f.Network? then f.(terminal := true) else f
  }

  function PollStep(f: Failure): Step {
    match f
    case OAuthProtocol(code, _, _, _) =>
      if code == AuthorizationPending then Pending
      else if code == SlowDownAsked then SlowDown
      else if code == RateLimitExceeded then Transient
      else Terminal
    case Network(_, terminal) => if terminal then Terminal else Transient
    case _ => Terminal
  }

  /** `retry_after_ms` where the exception has that attribute. */
  function RetryAfterOf(f: Failure): Option<NonNegReal> {
    match f
    case OAuthProtocol(_, _, _, retryAfter) => retryAfter
    case Network(retryAfter, _) => retryAfter
    case _ => None
  }

  predicate StatusIsRetryable(status: int) {
    status == 408 || status == 429 || 500 <= status <= 599
  }

  /** One attempt inside a poll: tokens, a failure the retry loop must not repeat, or one it may. */
  datatype Attempt = Tokens | Decisive(failure: Failure) | Retryable(failure: Failure)

  function AttemptOf(a: Answer): Attempt {
    match a
    case TransportFailure => Retryable(Network(None, false))
    case Broken => Decisive(Unclassified)
    case Reply(r) =>
      if !(200 <= r.status <= 299) then
        var error := CibaPollError(r);
        if error.Network? && StatusIsRetryable(r.status) then Retryable(error)
        else Decisive(MarkTerminal(error))
      else if r.body.NotJson? then Decisive(MarkTerminal(Network(None, false)))
      else if r.tokensAccepted then Tokens
      else Decisive(Unclassified)
  }

  // ---- The verdict table: a flat reading of status and body ----------------------------

  /** The answer carries an `error` member the client recognises: an object whose `error` is a
      string and which either is non-empty or comes with a string `error_description`. */
  ghost predicate NamesError(body: Body, code: string) {
    body.Object? && body.error == Some(code) && (code != "" || body.description.Some?)
  }

  ghost predicate NamesNoError(body: Body) {
    forall code :: !NamesError(body, code)
  }

  ghost predicate Benign(a: Answer) {
    match a
    case TransportFailure => true
    case Broken => false
    case Reply(r) =>
      500 <= r.status <= 599 ||
      (!(200 <= r.status <= 399) && (
         NamesError(r.body, "authorization_pending") || NamesError(r.body, "slow_down") ||
         NamesError(r.body, "rate_limit_exceeded"))) ||
      ((r.status == 408 || r.status == 429) && NamesNoError(r.body))
  }

  ghost predicate Succeeds(a: Answer) {
    a.Reply? && 200 <= a.response.status <= 299 && !a.response.body.NotJson? && a.response.tokensAccepted
  }

  ghost predicate CountsAsSlowDown(a: Answer) {
    a.Reply? && !(200 <= a.response.status <= 399) && !(500 <= a.response.status <= 599) &&
    NamesError(a.response.body, "slow_down")
  }

  lemma ErrorBodyMeaning(body: Body)
    ensures forall code :: NamesError(body, code) <==>
            OAuth2ErrorBody(body).Some? && OAuth2ErrorBody(body).value.0 == code
  {}

  /** The layered classifier agrees with the flat table on every answer. */
  lemma VerdictTable(a: Answer)
    ensures AttemptOf(a).Tokens? <==> Succeeds(a)
    ensures AttemptOf(a).Retryable? <==>
            a.TransportFailure? ||
            (a.Reply? &&
             (500 <= a.response.status <= 599 ||
              ((a.response.status == 408 || a.response.status == 429) && NamesNoError(a.response.body))))
    ensures !AttemptOf(a).Tokens? ==> (PollStep(AttemptOf(a).failure) != Terminal <==> Benign(a))
    ensures !AttemptOf(a).Tokens? ==> (PollStep(AttemptOf(a).failure) == SlowDown <==> CountsAsSlowDown(a))
    ensures AttemptOf(a).Retryable? ==> PollStep(AttemptOf(a).failure) == Transient
  {
    if a.Reply? {
      ErrorBodyMeaning(a.response.body);
      if OAuth2ErrorBody(a.response.body).Some? {
        assert NamesError(a.response.body, OAuth2ErrorBody(a.response.body).value.0);
      }
    }
  }

  /** Status first, then body: whatever its body, a redirect is classified as ending the run and never repeated inside
      a poll; so is a 2xx that is not JSON; and a 5xx is always repeated and never ends it. */
  lemma DecisiveStatuses(r: Response)
    ensures 300 <= r.status <= 399 || (200 <= r.status <= 299 && r.body.NotJson?) ==>
              AttemptOf(Reply(r)).Decisive? && PollStep(AttemptOf(Reply(r)).failure) == Terminal
    ensures 500 <= r.status <= 599 ==>
              AttemptOf(Reply(r)).Retryable? && PollStep(AttemptOf(Reply(r)).failure) == Transient
  {
    VerdictTable(Reply(r));
  }
}
