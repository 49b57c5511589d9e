/** The credentials of one session, changed in place by logins, WebAuthn sign-ins, federation completions, device
    logins and logouts made through any of its handles. */
module Sessions {
  import opened Wrappers
  import opened Texts
  import opened MemoKey
  import opened DecisionMemos
  import opened AccessChecks

  /** An access token: whether its claims decode, and whether they carry a session id. */
  datatype Token = Token(raw: string, decodes: bool, hasSessionId: bool)

  /** What a login reported about the principal's reach; no list means unrestricted. */
  datatype Scope = Scope(organizationLevel: bool, reachable: Option<seq<Text>>)

  /** The shared session: the adopted device bearer, the access cookie in the jar, the refresh guard's
      baseline (set while an absorbed cookie session is live) and the principal's scope. */
  datatype Credentials = Credentials(
    bearer: Option<Token>, jar: Option<Token>, guard: Option<Token>, scope: Option<Scope>)

  datatype Cookie = Keep | Put(token: Token) | Drop

  /** A login body: unreadable, or its members; an empty `reachable` is an absent one. */
  datatype LoginBody =
    | Unreadable
    | LoginBody(organizationLevel: bool, reachable: seq<Text>, setupRequired: bool, setupToken: string)

  datatype LoginReply = LoginReply(status: int, cookie: Cookie, body: LoginBody)

  /** A device-login body, or one with a member missing after a usable access token. */
  datatype DeviceBody = NoBody | DeviceBody(accessToken: Token, complete: bool)

  datatype DeviceReply = DeviceReply(status: int, cookie: Cookie, body: DeviceBody)

  datatype Outcome = Completed | MfaRequired | MfaSetupRequired | Refused

  // ---- What each response does --------------------------------------------------------------------------

  /** The transport captures cookies before any handler runs. */
  function Capture(c: Credentials, cookie: Cookie): Credentials {
    match cookie
    case Keep => c
    case Put(t) => c.(jar := Some(t))
    case Drop => c.(jar := None)
  }

  /** `_absorb_session_cookies`: fails without a usable access cookie, changing nothing. */
  function Absorb(c: Credentials): Option<Credentials> {
    if c.jar.None? || c.jar.value.raw == "" || !c.jar.value.decodes then None
    else Some(c.(guard := c.jar, bearer := None, scope := None))
  }

  function ScopeOf(body: LoginBody): Scope
    requires body.LoginBody?
  {
    Scope(body.organizationLevel, if body.reachable == [] then None else Some(body.reachable))
  }

  /** `_handle_login_response`: login, verify_mfa, the OPAQUE finish, mfa_setup_confirm, and the 200 of the
      WebAuthn set-up. */
  function HandleLogin(c: Credentials, r: LoginReply): (Outcome, Credentials) {
    var seen := Capture(c, r.cookie);
    if r.status == 200 then
      if r.body.Unreadable? || Absorb(seen).None? then (Refused, seen)
      else (Completed, Absorb(seen).value.(scope := Some(ScopeOf(r.body))))
    else if r.status == 202 then (if r.body.Unreadable? then Refused else MfaRequired, seen)
    else if r.status == 403 && r.body.LoginBody? && r.body.setupRequired && r.body.setupToken != "" then
      (MfaSetupRequired, seen)
    else (Refused, seen)
  }

  /** A WebAuthn authentication completes a session without a user object. */
  function HandleWebauthn(c: Credentials, r: LoginReply): (Outcome, Credentials) {
    var seen := Capture(c, r.cookie);
    if r.status != 200 || r.body.Unreadable? || Absorb(seen).None? then (Refused, seen)
    else (Completed, Absorb(seen).value)
  }

  /** A federation completion absorbs the cookies before it reads the body, so one that raises over an unreadable
      body has still switched the session. */
  function HandleFederation(c: Credentials, r: LoginReply): (Outcome, Credentials) {
    var seen := Capture(c, r.cookie);
    if r.status != 200 || Absorb(seen).None? then (Refused, seen)
    else (if r.body.Unreadable? then Refused else Completed, Absorb(seen).value)
  }

  predicate DeviceAccepted(r: DeviceReply) {
    r.status == 200 && r.body.DeviceBody? && r.body.accessToken.raw != "" && r.body.complete
  }

  function HandleDevice(c: Credentials, r: DeviceReply): (Outcome, Credentials) {
    var seen := Capture(c, r.cookie);
    if !DeviceAccepted(r) then (Refused, seen)
    else (Completed, Credentials(Some(r.body.accessToken), None, None, None))
  }

  /** Logging out needs a session id: the cookie's, or else the bearer's. */
  predicate CanLogOut(c: Credentials) {
    var access := if c.jar.Some? && c.jar.value.raw != "" then c.jar else c.bearer;
    access.Some? && access.value.raw != "" && access.value.decodes && access.value.hasSessionId
  }

  function HandleLogout(c: Credentials, r: LoginReply): (Outcome, Credentials) {
    if !CanLogOut(c) then (Refused, c)
    else
      var seen := Capture(c, r.cookie);
      if r.status >= 300 then (Refused, seen) else (Completed, seen.(guard := None, bearer := None, scope := None))
  }

  // ---- The acting-tenant gate -------------------------------------------------------------------------------

  predicate IsHex(c: CodePoint) { 0x30 <= c <= 0x39 || 0x61 <= c <= 0x66 || 0x41 <= c <= 0x46 }

  const HYPHEN: CodePoint := 0x2D
  const LINE_FEED: CodePoint := 0x0A

  predicate UuidShape(s: Text) {
    |s| == 36 && forall i | 0 <= i < 36 :: if i in {8, 13, 18, 23} then s[i] == HYPHEN else IsHex(s[i])
  }

  /** The pattern's `$` also matches before one final line feed. */
  predicate IsUuid(s: Text) {
    UuidShape(s) || (|s| == 37 && s[36] == LINE_FEED && UuidShape(s[..36]))
  }

  datatype GateRefusal = NotUuid | NotOrganizationLevel | OutOfReach

  function Gate(scope: Option<Scope>, tenant: Text): Result<Text, GateRefusal> {
    if !IsUuid(tenant) then Err(NotUuid)
    else if scope.None? then Ok(tenant)
    else if !scope.value.organizationLevel then Err(NotOrganizationLevel)
    else if scope.value.reachable.Some? &&
            LowerText(tenant) !in (set t | t in scope.value.reachable.value :: LowerText(t)) then Err(OutOfReach)
    else Ok(tenant)
  }

  // ---- The handles ------------------------------------------------------------------------------------------------

  class Session {
    var bearer: Option<Token>
    var jar: Option<Token>
    var guard: Option<Token>
    var scope: Option<Scope>

    constructor ()
      ensures Snapshot() == Credentials(None, None, None, None)
    {
      bearer, jar, guard, scope := None, None, None, None;
    }

    function Snapshot(): Credentials
      reads this
    {
      Credentials(bearer, jar, guard, scope)
    }

    method Receive(cookie: Cookie)
      modifies this
      ensures Snapshot() == Capture(old(Snapshot()), cookie)
    {
      match cookie
      case Keep =>
      case Put(t) => jar := Some(t);
      case Drop => jar := None;
    }

    method AdoptBearer(token: Token)
      modifies this
      ensures bearer == Some(token) && jar == None && guard == None && scope == old(scope)
    {
      jar := None;
      guard := None;
      bearer := Some(token);
    }

    method ClearBearer()
      modifies this`bearer
      ensures bearer == None
    {
      bearer := None;
    }

    method AbsorbCookies() returns (ok: bool)
      modifies this
      ensures ok <==> Absorb(old(Snapshot())).Some?
      ensures Snapshot() == if ok then Absorb(old(Snapshot())).value else old(Snapshot())
    {
      if jar.None? || jar.value.raw == "" || !jar.value.decodes { return false; }
      guard := jar;
      ClearBearer();
      scope := None;
      return true;
    }
  }

  /** A handle: a session and a memo shared with its siblings, and the tenant it acts on. */
  class Client {
    const session: Session
    const memo: DecisionMemo<Decision>
    const actingTenant: Option<Text>

    constructor (s: Session, m: DecisionMemo<Decision>, tenant: Option<Text>)
      ensures session == s && memo == m && actingTenant == tenant
    {
      session, memo, actingTenant := s, m, tenant;
    }

    method Login(reply: LoginReply) returns (outcome: Outcome)
      modifies session, memo
      ensures (outcome, session.Snapshot()) == HandleLogin(old(session.Snapshot()), reply)
      ensures memo.entries == []
    {
      memo.Clear();
      session.Receive(reply.cookie);
      if reply.status == 200 {
        if reply.body.Unreadable? { return Refused; }
        var ok := session.AbsorbCookies();
        if !ok { return Refused; }
        session.scope := Some(ScopeOf(reply.body));
        return Completed;
      }
      if reply.status == 202 { return if reply.body.Unreadable? then Refused else MfaRequired; }
      if reply.status == 403 && reply.body.LoginBody? && reply.body.setupRequired && reply.body.setupToken != "" {
        return MfaSetupRequired;
      }
      return Refused;
    }

    method WebauthnFinish(reply: LoginReply) returns (outcome: Outcome)
      modifies session, memo
      ensures (outcome, session.Snapshot()) == HandleWebauthn(old(session.Snapshot()), reply)
      ensures memo.entries == []
    {
      memo.Clear();
      session.Receive(reply.cookie);
      if reply.status != 200 || reply.body.Unreadable? { return Refused; }
      var ok := session.AbsorbCookies();
      return if ok then Completed else Refused;
    }

    /** `sso_complete`, `sso_complete_oauth2` and `sso_complete_handoff`: they leave the memo alone. */
    method SsoComplete(reply: LoginReply) returns (outcome: Outcome)
      modifies session
      ensures (outcome, session.Snapshot()) == HandleFederation(old(session.Snapshot()), reply)
    {
      session.Receive(reply.cookie);
      if reply.status != 200 { return Refused; }
      var ok := session.AbsorbCookies();
      if !ok || reply.body.Unreadable? { return Refused; }
      return Completed;
    }

    /** Unlike the others, a refused device login leaves the memo alone. */
    method AuthenticateDevice(reply: DeviceReply) returns (outcome: Outcome)
      modifies session, memo
      ensures (outcome, session.Snapshot()) == HandleDevice(old(session.Snapshot()), reply)
      ensures memo.entries == if outcome == Completed then [] else old(memo.entries)
    {
      session.Receive(reply.cookie);
      if !DeviceAccepted(reply) { return Refused; }
      memo.Clear();
      session.AdoptBearer(reply.body.accessToken);
      session.scope := None;
      return Completed;
    }

    method Logout(reply: LoginReply) returns (outcome: Outcome)
      modifies session, memo
      ensures (outcome, session.Snapshot()) == HandleLogout(old(session.Snapshot()), reply)
      ensures memo.entries == []
    {
      memo.Clear();
      if !CanLogOut(session.Snapshot()) { return Refused; }
      session.Receive(reply.cookie);
      if reply.status >= 300 { return Refused; }
      session.guard := None;
      session.ClearBearer();
      session.scope := None;
      return Completed;
    }

    method ActingTenant(tenant: Text) returns (r: Result<Client, GateRefusal>)
      ensures Gate(session.scope, tenant).Err? ==> r == Err(Gate(session.scope, tenant).error)
      ensures Gate(session.scope, tenant).Ok? ==>
                r.Ok? && fresh(r.value) && r.value.session == session && r.value.memo == memo &&
                r.value.actingTenant == Some(tenant)
    {
      var gate := Gate(session.scope, tenant);
      if gate.Err? { return Err(gate.error); }
      var handle := new Client(session, memo, Some(gate.value));
      return Ok(handle);
    }

    /** One uninterrupted `check_access`. `unauthorized` says whether some attempt was first answered 401, and `reply`
        is the server's decision in the end, or None when the request fails. A 401 makes a client without a bearer
        refresh, which clears the memo after it was read, and a client with one fail. */
    method CheckAccess(action: Text, resource: Text, scope: Option<Text>, subject: Option<Text>,
                       unauthorized: bool, reply: Option<Decision>, readAt: real, storeAt: real)
        returns (r: Option<Decision>, asked: bool)
      modifies memo
      ensures var key := Key(Question(action, resource, scope, subject, actingTenant));
              var found := GetResult(memo.ttlMs, old(memo.entries), key, readAt);
              var kept := AfterGet(memo.ttlMs, old(memo.entries), key, readAt);
              var answer := if unauthorized && session.bearer.Some? then None else reply;
              var left := if unauthorized && session.bearer.None? then [] else kept;
              asked == found.None? &&
              r == (if asked then answer else found) &&
              memo.entries ==
                if !asked then kept
                else if answer.Some? then AfterSet(memo.ttlMs, left, key, answer.value, storeAt)
                else left
    {
      var key := Key(Question(action, resource, scope, subject, actingTenant));
      var memoized := memo.Get(key, readAt);
      if memoized.Some? { return memoized, false; }
      if unauthorized {
        if session.bearer.Some? { return None, true; }
        memo.Clear();
      }
      if reply.Some? { memo.Set(key, reply.value, storeAt); }
      return reply, true;
    }
  }

  // ---- Runs ---------------------------------------------------------------------------------------------------------

  datatype Event =
    | LoggedIn(login: LoginReply)
    | Authenticated(webauthn: LoginReply)
    | Federated(federation: LoginReply)
    | DeviceSignedIn(device: DeviceReply)
    | LoggedOut(logout: LoginReply)

  function Apply(c: Credentials, e: Event): (Outcome, Credentials) {
    match e
    case LoggedIn(r) => HandleLogin(c, r)
    case Authenticated(r) => HandleWebauthn(c, r)
    case Federated(r) => HandleFederation(c, r)
    case DeviceSignedIn(r) => HandleDevice(c, r)
    case LoggedOut(r) => HandleLogout(c, r)
  }

  function After(h: seq<Event>): Credentials {
    if h == [] then Credentials(None, None, None, None) else Apply(After(h[..|h| - 1]), h[|h| - 1]).1
  }

  /** A federation completion that got its cookies: it switches the session whether or not the caller sees it
      complete. */
  ghost predicate Switches(c: Credentials, e: Event) {
    e.Federated? && e.federation.status == 200 && Absorb(Capture(c, e.federation.cookie)).Some?
  }

  ghost function Captured(c: Credentials, e: Event): Credentials {
    match e
    case LoggedIn(r) => Capture(c, r.cookie)
    case Authenticated(r) => Capture(c, r.cookie)
    case Federated(r) => Capture(c, r.cookie)
    case DeviceSignedIn(r) => Capture(c, r.cookie)
    case LoggedOut(r) => if CanLogOut(c) then Capture(c, r.cookie) else c
  }

  /** What a call may change that does not complete: the jar, as far as its reply set a cookie, and nothing else,
      unless it is a federation completion that got its cookies, which then has replaced the session. */
  lemma UnfinishedCallsChangeTheJarOnly(c: Credentials, e: Event)
    requires Apply(c, e).0 != Completed
    ensures Apply(c, e).1 == if Switches(c, e) then Absorb(Captured(c, e)).value else Captured(c, e)
    ensures !Switches(c, e) ==> Apply(c, e).1.(jar := c.jar) == c
    ensures Switches(c, e) ==>
              e.federation.body.Unreadable? && Apply(c, e).1.bearer == None && Apply(c, e).1.scope == None &&
              Apply(c, e).1.guard.Some?
  {}

  /** The last call of the run that settled the session: one the caller saw complete, or a federation completion that
      got its cookies. */
  ghost function LastSettled(h: seq<Event>): Option<Event> {
    if h == [] then None
    else
      var c, e := After(h[..|h| - 1]), h[|h| - 1];
      if Apply(c, e).0 == Completed || Switches(c, e) then Some(e) else LastSettled(h[..|h| - 1])
  }

  ghost predicate IsAbsorbed(e: Option<Event>) {
    e.Some? && (e.value.LoggedIn? || e.value.Authenticated? || e.value.Federated?)
  }

  /** What a session holds, read off the call that settled it. */
  ghost predicate SettledBy(c: Credentials, last: Option<Event>) {
    (c.bearer.Some? <==> last.Some? && last.value.DeviceSignedIn?) &&
    (c.bearer.Some? ==> last.value.device.body.DeviceBody? && c.bearer == Some(last.value.device.body.accessToken)) &&
    (c.guard.Some? <==> IsAbsorbed(last)) &&
    !(c.bearer.Some? && c.guard.Some?) &&
    (c.scope.Some? <==> last.Some? && last.value.LoggedIn?) &&
    (c.scope.Some? ==> last.value.login.body.LoginBody? && c.scope == Some(ScopeOf(last.value.login.body)))
  }

  lemma SettlingCallsSettle(c: Credentials, e: Event)
    requires Apply(c, e).0 == Completed || Switches(c, e)
    ensures SettledBy(Apply(c, e).1, Some(e))
  {}

  /** Over every run: a bearer is held exactly after a completed device login, and it is that login's token,
      whatever cookies refused calls have left in the jar since; a cookie session is live exactly after a
      login, a WebAuthn sign-in or a federation completion that got its cookies, so never together with a bearer; and
      a scope is held exactly after a completed login, the one it reported. */
  lemma {:induction false} CredentialsFollowTheLastSettlingCall(h: seq<Event>)
    ensures SettledBy(After(h), LastSettled(h))
  {
    if h == [] {
    } else {
      var init, e := h[..|h| - 1], h[|h| - 1];
      CredentialsFollowTheLastSettlingCall(init);
      if Apply(After(init), e).0 == Completed || Switches(After(init), e) {
        SettlingCallsSettle(After(init), e);
      } else {
        UnfinishedCallsChangeTheJarOnly(After(init), e);
      }
    }
  }

  ghost predicate SameIgnoringCase(a: Text, b: Text) {
    |a| == |b| && forall i | 0 <= i < |a| :: a[i] == b[i] || LowerCode(a[i]) == LowerCode(b[i])
  }

  ghost predicate InReach(body: LoginBody, tenant: Text)
    requires body.LoginBody?
  {
    body.organizationLevel && (body.reachable == [] || exists t :: t in body.reachable && SameIgnoringCase(t, tenant))
  }

  lemma LowerAgreesWithIgnoringCase(a: Text, b: Text)
    ensures LowerText(a) == LowerText(b) <==> SameIgnoringCase(a, b)
  {
    if LowerText(a) == LowerText(b) {
      assert forall i | 0 <= i < |a| :: LowerText(a)[i] == LowerCode(a[i]) && LowerText(b)[i] == LowerCode(b[i]);
    }
  }

  lemma GateFollowsScope(scope: Option<Scope>, body: LoginBody, tenant: Text)
    requires body.LoginBody? && scope == Some(ScopeOf(body)) && IsUuid(tenant)
    ensures Gate(scope, tenant).Ok? <==> InReach(body, tenant)
  {
    forall t | t in body.reachable ensures LowerText(tenant) == LowerText(t) <==> SameIgnoringCase(t, tenant) {
      LowerAgreesWithIgnoringCase(t, tenant);
    }
  }

  /** A handle can be made for a tenant exactly when it is a UUID and, if the call that settled the session was a
      login, that login reported an organization-level principal reaching it, letter case aside. */
  lemma GateFollowsTheLastLogin(h: seq<Event>, tenant: Text)
    ensures var last := LastSettled(h);
            Gate(After(h).scope, tenant).Ok? <==>
              IsUuid(tenant) &&
              (last.Some? && last.value.LoggedIn? ==>
                  last.value.login.body.LoginBody? && InReach(last.value.login.body, tenant))
  {
    CredentialsFollowTheLastSettlingCall(h);
    var scope := After(h).scope;
    if scope.Some? && IsUuid(tenant) { GateFollowsScope(scope, LastSettled(h).value.login.body, tenant); }
  }
}
