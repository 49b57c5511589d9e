/** Verifying a DPoP proof (section 4.3 of RFC 9449): the order of the checks, freshness, and the single-use claim
    that ends them. Signature checking, hashing and URI slicing are parameters. */
module DpopProofs {
  import opened Wrappers
  import opened Floats
  import opened JtiStores
  import opened Texts
  import opened Thumbprints

  /** Functions of libraries the client calls: the htu comparison form, and the base64url SHA-256 of a text. */
  datatype Library = Library(canonicalHtu: Text -> Text, digest: Text -> Text)

  datatype Header = Header(typ: Json, jwk: Option<Jwk>)

  datatype Claims = Claims(htm: Json, htu: Json, iat: Json, ath: Json, jti: Json)

  /** A presented proof: its text, its header when that decodes to a JSON object, whether its key can be used,
      and its claims when the signature verifies and none is absent. */
  datatype Proof = Proof(text: string, header: Option<Header>, keyUsable: bool, claims: Option<Claims>)

  /** The request a proof comes with, and the clock reading freshness is judged by. */
  datatype Request = Request(
    htm: Text, uri: Text, accessToken: Text, expectedJkt: Option<Text>, leeway: real, freshAt: real)

  datatype Failure =
    | Missing | NotOneProof | BadHeader | WrongTyp | NoJwk | PrivateKey | WrongAlg | BadSignature | WrongHtm
    | WrongHtu | NotFresh | WrongAth | TokenNotAscii | NoThumbprint | WrongKey | NoJti | Replayed

  const PRIVATE_MEMBERS: set<Text> :=
    {Codes("d"), Codes("p"), Codes("q"), Codes("dp"), Codes("dq"), Codes("qi"), Codes("oth"), Codes("k")}

  // ---- The checks before the claim --------------------------------------------------------------------

  /** A space that is not at either end of the text. */
  predicate HasInnerSpace(s: string) {
    exists i, j, k | 0 <= i < j < k < |s| :: !IsSpace(s[i]) && s[j] == ' ' && !IsSpace(s[k])
  }

  function Word(s: string): Json { Str(Codes(s)) }

  predicate PermittedKey(jwk: Jwk) {
    var kty, crv := Get(jwk, "kty"), Get(jwk, "crv");
    kty == Word("RSA") || (kty == Word("EC") && crv == Word("P-256")) || (kty == Word("OKP") && crv == Word("Ed25519"))
  }

  /** `not abs(now - iat) > leeway`, which a NaN always satisfies and an infinity never. */
  predicate Fresh(iat: Float, r: Request) { !Above(Distance(iat, r.freshAt), r.leeway) }

  /** What a proof that passes every check but the last carries into the claim. */
  datatype Passed = Passed(jkt: Text, jti: Text, iat: Float)

  function CheckHeader(p: Proof): Result<Jwk, Failure> {
    if p.text == "" then Err(Missing)
    else if ',' in p.text || HasInnerSpace(p.text) then Err(NotOneProof)
    else if p.header.None? then Err(BadHeader)
    else if !p.header.value.typ.Str? || LowerText(p.header.value.typ.text) != Codes("dpop+jwt") then Err(WrongTyp)
    else if p.header.value.jwk.None? then Err(NoJwk)
    else if p.header.value.jwk.value.Keys * PRIVATE_MEMBERS != {} then Err(PrivateKey)
    else if !PermittedKey(p.header.value.jwk.value) then Err(WrongAlg)
    else if !p.keyUsable || p.claims.None? then Err(BadSignature)
    else Ok(p.header.value.jwk.value)
  }

  function CheckClaims(lib: Library, c: Claims, jwk: Jwk, r: Request): Result<Passed, Failure> {
    if c.htm != Str(r.htm) then Err(WrongHtm)
    else if !c.htu.Str? || lib.canonicalHtu(c.htu.text) != lib.canonicalHtu(r.uri) then Err(WrongHtu)
    else if !c.iat.Number? || !Fresh(c.iat.value, r) then Err(NotFresh)
    else if !c.ath.Str? || c.ath.text == [] then Err(WrongAth)
    else if !IsAscii(r.accessToken) then Err(TokenNotAscii)
    else if c.ath.text != lib.digest(r.accessToken) then Err(WrongAth)
    else if !HasThumbprint(jwk) then Err(NoThumbprint)
    else
      var jkt := lib.digest(Codes(CanonicalText(jwk)));
      if r.expectedJkt.Some? && r.expectedJkt.value != jkt then Err(WrongKey)
      else if !c.jti.Str? || c.jti.text == [] then Err(NoJti)
      else Ok(Passed(jkt, c.jti.text, c.iat.value))
  }

  function Inspect(lib: Library, p: Proof, r: Request): Result<Passed, Failure> {
    match CheckHeader(p)
    case Err(e) => Err(e)
    case Ok(jwk) => if p.claims.None? then Err(BadSignature) else CheckClaims(lib, p.claims.value, jwk, r)
  }

  /** One call of the verifier: how the other checks ended, the leeway, and the store's clock reading. */
  datatype Attempt = Attempt(inspected: Result<Passed, Failure>, leeway: real, claimAt: real)

  function AttemptOf(lib: Library, p: Proof, r: Request, claimAt: real): Attempt {
    Attempt(Inspect(lib, p, r), r.leeway, claimAt)
  }

  /** The result of a call and the store after it: a proof failing another check never reaches the store. */
  function Verify(seen: Seen, a: Attempt): (Result<Text, Failure>, Seen) {
    match a.inspected
    case Err(e) => (Err(e), seen)
    case Ok(passed) =>
      (if Holds(Prune(seen, a.claimAt), passed.jti, a.claimAt) then Err(Replayed) else Ok(passed.jkt),
       AfterClaim(seen, passed.jti, Plus(passed.iat, a.leeway), a.claimAt))
  }

  method VerifyDpopProof(lib: Library, p: Proof, r: Request, store: InMemoryJtiStore, claimAt: real)
      returns (result: Result<Text, Failure>)
    modifies store
    ensures (result, store.seen) == Verify(old(store.seen), AttemptOf(lib, p, r, claimAt))
    ensures result.Err? && result.error != Replayed ==> store.seen == old(store.seen)
  {
    var inspected := Inspect(lib, p, r);
    if inspected.Err? { return Err(inspected.error); }
    var first := store.Claim(inspected.value.jti, Plus(inspected.value.iat, r.leeway), claimAt);
    return if first then Ok(inspected.value.jkt) else Err(Replayed);
  }

  // ---- Runs --------------------------------------------------------------------------------------------------------

  function AfterAttempts(h: seq<Attempt>): Seen {
    if h == [] then map[] else Verify(AfterAttempts(h[..|h| - 1]), h[|h| - 1]).1
  }

  predicate Accepted(h: seq<Attempt>, a: Attempt) { Verify(AfterAttempts(h), a).0.Ok? }

  /** The store's clock never goes back and never reads below zero. */
  ghost predicate InOrder(h: seq<Attempt>, now: real) {
    now >= 0.0 && (h != [] ==> h[|h| - 1].claimAt <= now && InOrder(h[..|h| - 1], h[|h| - 1].claimAt))
  }

  /** The end of the freshness window of the proof, which is when its claim expires. */
  function WindowEnd(a: Attempt): Float
    requires a.inspected.Ok?
  {
    Plus(a.inspected.value.iat, a.leeway)
  }

  ghost predicate Carries(a: Attempt, jti: Text) { a.inspected.Ok? && a.inspected.value.jti == jti }

  /** The window end of the last accepted attempt with this `jti`. */
  ghost function LastAccepted(h: seq<Attempt>, jti: Text): Option<Float> {
    if h == [] then None
    else
      var init, a := h[..|h| - 1], h[|h| - 1];
      if Accepted(init, a) && Carries(a, jti) then Some(WindowEnd(a)) else LastAccepted(init, jti)
  }

  ghost function ClaimOf(a: Attempt): Claim
    requires a.inspected.Ok?
  {
    Claim(a.inspected.value.jti, WindowEnd(a), a.claimAt)
  }

  /** The claims a run makes: one for each attempt that passes the other checks. */
  ghost function ClaimsOf(h: seq<Attempt>): seq<Claim> {
    if h == [] then []
    else ClaimsOf(h[..|h| - 1]) + if h[|h| - 1].inspected.Ok? then [ClaimOf(h[|h| - 1])] else []
  }

  lemma MonotoneLater(h: seq<Claim>, s: real, t: real)
    requires Monotone(h, s) && s <= t
    ensures Monotone(h, t)
  {}

  lemma FailedAttemptMakesNoClaim(h: seq<Attempt>, a: Attempt, jti: Text)
    requires a.inspected.Err?
    ensures AfterAttempts(h + [a]) == AfterAttempts(h) && ClaimsOf(h + [a]) == ClaimsOf(h)
    ensures LastAccepted(h + [a], jti) == LastAccepted(h, jti)
  {
    assert (h + [a])[..|h|] == h;
    assert ClaimsOf(h) + [] == ClaimsOf(h);
  }

  lemma PassedAttemptMakesItsClaim(h: seq<Attempt>, a: Attempt)
    requires a.inspected.Ok?
    ensures ClaimsOf(h + [a]) == ClaimsOf(h) + [ClaimOf(a)]
    ensures AfterAttempts(h + [a]) == AfterClaim(AfterAttempts(h), a.inspected.value.jti, WindowEnd(a), a.claimAt)
  {
    assert (h + [a])[..|h|] == h && (h + [a])[|h|] == a;
  }

  lemma AfterOneMore(claims: seq<Claim>, c: Claim)
    ensures After(claims + [c]) == AfterClaim(After(claims), c.jti, c.expiresAt, c.at)
    ensures Monotone(claims, c.at) ==> Monotone(claims + [c], c.at)
  {
    assert (claims + [c])[..|claims|] == claims && (claims + [c])[|claims|] == c;
    if Monotone(claims, c.at) { MonotoneUntil(claims, c.at); }
  }

  lemma AcceptedIsGranted(h: seq<Attempt>, a: Attempt, jti: Text)
    requires a.inspected.Ok? && AfterAttempts(h) == After(ClaimsOf(h)) &&
             Monotone(ClaimsOf(h) + [ClaimOf(a)], a.claimAt)
    requires LastAccepted(h, jti) == LastGranted(ClaimsOf(h), jti)
    ensures LastAccepted(h + [a], jti) == LastGranted(ClaimsOf(h) + [ClaimOf(a)], jti)
  {
    var claims, c := ClaimsOf(h), ClaimOf(a);
    assert (h + [a])[..|h|] == h && (h + [a])[|h|] == a;
    assert (claims + [c])[..|claims|] == claims && (claims + [c])[|claims|] == c;
    PruningIsUnobservable(claims, c);
  }

  lemma {:induction false} RunIsItsClaims(h: seq<Attempt>, now: real, jti: Text)
    requires InOrder(h, now)
    ensures AfterAttempts(h) == After(ClaimsOf(h)) && Monotone(ClaimsOf(h), now)
    ensures LastAccepted(h, jti) == LastGranted(ClaimsOf(h), jti)
  {
    if h == [] {
    } else {
      var init, a := h[..|h| - 1], h[|h| - 1];
      assert h == init + [a];
      RunIsItsClaims(init, a.claimAt, jti);
      if a.inspected.Ok? {
        PassedAttemptMakesItsClaim(init, a);
        AfterOneMore(ClaimsOf(init), ClaimOf(a));
        AcceptedIsGranted(init, a, jti);
      } else {
        FailedAttemptMakesNoClaim(init, a, jti);
      }
      MonotoneLater(ClaimsOf(h), a.claimAt, now);
    }
  }

  /** An attempt is accepted exactly when it passes every other check and the window end of the last accepted attempt
      with its `jti`, if there was one, does not compare above the store's clock: it is a NaN, or it has come. */
  lemma {:induction false} AcceptedExactlyWhen(h: seq<Attempt>, a: Attempt)
    requires InOrder(h, a.claimAt)
    ensures Accepted(h, a) <==>
            a.inspected.Ok? && !Unexpired(LastAccepted(h, a.inspected.value.jti), a.claimAt)
  {
    if a.inspected.Ok? {
      var c := ClaimOf(a);
      RunIsItsClaims(h, a.claimAt, c.jti);
      var claims := ClaimsOf(h);
      assert (claims + [c])[..|claims|] == claims;
      PruningIsUnobservable(claims, c);
    }
  }

  /** Whatever is presented in between, an accepted proof's `jti` stays refused until the end of its window. */
  lemma {:induction false} ReplayNeedsWindowEnd(h: seq<Attempt>, a: Attempt, g: seq<Attempt>, now: real)
    requires InOrder(h + [a] + g, now) && Accepted(h, a) && Above(WindowEnd(a), now)
    ensures LastAccepted(h + [a] + g, a.inspected.value.jti) == Some(WindowEnd(a))
    decreases |g|
  {
    var all, jti := h + [a] + g, a.inspected.value.jti;
    if g == [] {
      assert all[..|h|] == h && all[|h|] == a;
    } else {
      var init, b := h + [a] + g[..|g| - 1], g[|g| - 1];
      assert all[..|all| - 1] == init && all[|all| - 1] == b;
      ReplayNeedsWindowEnd(h, a, g[..|g| - 1], b.claimAt);
      AcceptedExactlyWhen(init, b);
    }
  }

  /** So one proof passes twice only when its first window end does not compare above the second store reading. Unless
      its `iat` is a NaN, that reading is at or after the first window's end and the second freshness reading is at or
      before the second window's end. */
  lemma SameProofTwice(
      lib: Library, p: Proof, r1: Request, t1: real, r2: Request, t2: real, h: seq<Attempt>, g: seq<Attempt>)
    requires var a := AttemptOf(lib, p, r1, t1);
             InOrder(h + [a] + g, t2) && Accepted(h, a) && Accepted(h + [a] + g, AttemptOf(lib, p, r2, t2))
    ensures var a, b := AttemptOf(lib, p, r1, t1), AttemptOf(lib, p, r2, t2);
            a.inspected.Ok? && b.inspected.Ok? && a.inspected.value.iat == b.inspected.value.iat &&
            !Above(WindowEnd(a), t2) &&
            (a.inspected.value.iat.NaN? ||
             (WindowEnd(a).Finite? && WindowEnd(b).Finite? && WindowEnd(a).value <= t2 &&
              r2.freshAt <= WindowEnd(b).value))
  {
    var a, b := AttemptOf(lib, p, r1, t1), AttemptOf(lib, p, r2, t2);
    InspectMeansAllChecks(lib, p, r1);
    InspectMeansAllChecks(lib, p, r2);
    AcceptedExactlyWhen(h + [a] + g, b);
    if Above(WindowEnd(a), t2) { ReplayNeedsWindowEnd(h, a, g, t2); }
  }

  /** Presented again at once, a proof still passing the other checks is accepted exactly when the end of its window
      does not compare above the store's clock: from that end on, an instant that freshness includes, or always. */
  lemma RepeatExactlyAtWindowEnd(h: seq<Attempt>, a: Attempt, b: Attempt)
    requires InOrder(h + [a], b.claimAt) && Accepted(h, a)
    requires b.inspected.Ok? && b.inspected.value.jti == a.inspected.value.jti
    ensures Accepted(h + [a], b) <==> !Above(WindowEnd(a), b.claimAt)
  {
    assert (h + [a])[..|h|] == h;
    AcceptedExactlyWhen(h + [a], b);
  }

  /** The repeat of an accepted attempt at a later reading of the store's clock. */
  function At(a: Attempt, now: real): Attempt { a.(claimAt := now) }

  /** The repeat of an accepted proof can be refused at all exactly when its `iat` is a number and its window had not
      ended when it was claimed. */
  lemma RefusableExactlyWhenNumber(lib: Library, p: Proof, r: Request, claimAt: real, h: seq<Attempt>)
    requires InOrder(h + [AttemptOf(lib, p, r, claimAt)], claimAt) && Accepted(h, AttemptOf(lib, p, r, claimAt))
    ensures var a := AttemptOf(lib, p, r, claimAt); var iat := a.inspected.value.iat;
            (exists t :: t >= claimAt && !Accepted(h + [a], At(a, t))) <==>
                iat.Finite? && claimAt < iat.value + r.leeway
  {
    var a := AttemptOf(lib, p, r, claimAt);
    InspectMeansAllChecks(lib, p, r);
    assert (h + [a])[..|h|] == h && (h + [a])[|h|] == a;
    forall t | t >= claimAt ensures Accepted(h + [a], At(a, t)) <==> !Above(WindowEnd(a), t) {
      RepeatExactlyAtWindowEnd(h, a, At(a, t));
    }
    if Above(WindowEnd(a), claimAt) { assert !Accepted(h + [a], At(a, claimAt)); }
  }

  lemma {:induction false} OnlyNaNAccepted(h: seq<Attempt>, jti: Text)
    requires forall i | 0 <= i < |h| && Carries(h[i], jti) :: h[i].inspected.value.iat.NaN?
    ensures LastAccepted(h, jti).Some? ==> LastAccepted(h, jti).value.NaN?
  {
    if h == [] {
    } else {
      OnlyNaNAccepted(h[..|h| - 1], jti);
    }
  }

  /** A `jti` that has only come with a NaN `iat` is accepted however often it is presented. */
  lemma {:induction false} NaNIsNeverAReplay(h: seq<Attempt>, a: Attempt)
    requires InOrder(h, a.claimAt) && a.inspected.Ok?
    requires forall i | 0 <= i < |h| && Carries(h[i], a.inspected.value.jti) :: h[i].inspected.value.iat.NaN?
    ensures Accepted(h, a)
  {
    OnlyNaNAccepted(h, a.inspected.value.jti);
    AcceptedExactlyWhen(h, a);
  }

  /** A proof of an Ed25519 key for one request, made at `iat`. */
  function ExampleProof(lib: Library, iat: Float): Proof {
    Proof("proof", Some(Header(Word("dpop+jwt"), Some(OkpKey(Codes("key"))))), true,
          Some(Claims(Word("GET"), Word("https://api"), Number(iat), Str(lib.digest(Codes("token"))), Word("id"))))
  }

  function ExampleRequest(leeway: real, freshAt: real): Request {
    Request(Codes("GET"), Codes("https://api"), Codes("token"), None, leeway, freshAt)
  }

  lemma ExampleHeaderPasses(lib: Library, iat: Float)
    ensures HeaderPasses(ExampleProof(lib, iat))
  {
    var jwk := OkpKey(Codes("key"));
    PlainText();
    OkpMembers(Codes("key"));
    forall m | m in PRIVATE_MEMBERS ensures m !in jwk { PrivateIsNotPublic(m); }
  }

  lemma PlainText()
    ensures ',' !in "proof" && ' ' !in "proof" && LowerText(Codes("dpop+jwt")) == Codes("dpop+jwt")
    ensures IsAscii(Codes("token"))
  {}

  lemma PrivateIsNotPublic(m: Text)
    requires m in PRIVATE_MEMBERS
    ensures m != Codes("kty") && m != Codes("crv") && m != Codes("x")
  {
    var private := ["d", "p", "q", "dp", "dq", "qi", "oth", "k"];
    assert exists i :: 0 <= i < |private| && m == Codes(private[i]) by {
      assert private[0] == "d" && private[1] == "p" && private[2] == "q" && private[3] == "dp";
      assert private[4] == "dq" && private[5] == "qi" && private[6] == "oth" && private[7] == "k";
    }
    var i :| 0 <= i < |private| && m == Codes(private[i]);
    CodesInjective(private[i], "kty");
    CodesInjective(private[i], "crv");
    CodesInjective(private[i], "x");
  }

  lemma ExamplePasses(lib: Library, iat: Float, leeway: real, freshAt: real)
    requires lib.digest(Codes("token")) != [] && Fresh(iat, ExampleRequest(leeway, freshAt))
    ensures var inspected := Inspect(lib, ExampleProof(lib, iat), ExampleRequest(leeway, freshAt));
            inspected.Ok? && inspected.value.jti == Codes("id") && inspected.value.iat == iat
  {
    ExampleHeaderPasses(lib, iat);
    PlainText();
    OkpMembers(Codes("key"));
    InspectMeansAllChecks(lib, ExampleProof(lib, iat), ExampleRequest(leeway, freshAt));
  }

  lemma PassesTwice(a: Attempt, b: Attempt)
    requires a.inspected.Ok? && b.inspected.Ok? && a.inspected.value.jti == b.inspected.value.jti
    requires 0.0 <= a.claimAt <= b.claimAt && !Above(WindowEnd(a), b.claimAt)
    ensures Accepted([], a) && Accepted([a], b)
  {
    AcceptedExactlyWhen([], a);
    assert [] + [a] == [a] && [a][..0] == [];
    RepeatExactlyAtWindowEnd([], a, b);
  }

  /** One concrete proof, judged fresh at the end of its window and claimed when the store's clock reads that instant,
      is accepted a second time. */
  lemma AcceptedTwice(lib: Library, iat: real, leeway: real)
    requires lib.digest(Codes("token")) != [] && iat >= 0.0 && leeway >= 0.0
    ensures var proof := ExampleProof(lib, Finite(iat));
            var first := AttemptOf(lib, proof, ExampleRequest(leeway, iat), iat);
            var second := AttemptOf(lib, proof, ExampleRequest(leeway, iat + leeway), iat + leeway);
            Accepted([], first) && Accepted([first], second)
  {
    var proof := ExampleProof(lib, Finite(iat));
    ExamplePasses(lib, Finite(iat), leeway, iat);
    ExamplePasses(lib, Finite(iat), leeway, iat + leeway);
    PassesTwice(AttemptOf(lib, proof, ExampleRequest(leeway, iat), iat),
                AttemptOf(lib, proof, ExampleRequest(leeway, iat + leeway), iat + leeway));
  }

  /** The same proof with a NaN `iat` is fresh at every reading, and accepted twice at any readings of both clocks. */
  lemma NaNAcceptedTwice(lib: Library, leeway: real, fresh1: real, claim1: real, fresh2: real, claim2: real)
    requires lib.digest(Codes("token")) != [] && 0.0 <= claim1 <= claim2
    ensures var first := AttemptOf(lib, ExampleProof(lib, NaN), ExampleRequest(leeway, fresh1), claim1);
            var second := AttemptOf(lib, ExampleProof(lib, NaN), ExampleRequest(leeway, fresh2), claim2);
            Accepted([], first) && Accepted([first], second)
  {
    ExamplePasses(lib, NaN, leeway, fresh1);
    ExamplePasses(lib, NaN, leeway, fresh2);
    PassesTwice(AttemptOf(lib, ExampleProof(lib, NaN), ExampleRequest(leeway, fresh1), claim1),
                AttemptOf(lib, ExampleProof(lib, NaN), ExampleRequest(leeway, fresh2), claim2));
  }

  // ---- What the checks amount to ----------------------------------------------------------------------

  ghost predicate HeaderPasses(p: Proof) {
    p.text != "" && ',' !in p.text && !HasInnerSpace(p.text) && p.header.Some? &&
    p.header.value.typ.Str? && LowerText(p.header.value.typ.text) == Codes("dpop+jwt") &&
    p.header.value.jwk.Some? &&
    (forall m | m in PRIVATE_MEMBERS :: m !in p.header.value.jwk.value) &&
    PermittedKey(p.header.value.jwk.value) && p.keyUsable && p.claims.Some?
  }

  /** Within the leeway of the clock in both directions, or a NaN. */
  ghost predicate WithinWindow(iat: Float, r: Request) {
    iat.NaN? || (iat.Finite? && r.freshAt - r.leeway <= iat.value <= r.freshAt + r.leeway)
  }

  ghost predicate ClaimsPass(lib: Library, c: Claims, jwk: Jwk, r: Request) {
    c.htm == Str(r.htm) &&
    c.htu.Str? && lib.canonicalHtu(c.htu.text) == lib.canonicalHtu(r.uri) &&
    c.iat.Number? && WithinWindow(c.iat.value, r) &&
    IsAscii(r.accessToken) && c.ath == Str(lib.digest(r.accessToken)) && c.ath != Str([]) && HasThumbprint(jwk) &&
    (r.expectedJkt.Some? ==> r.expectedJkt.value == lib.digest(Codes(CanonicalText(jwk)))) &&
    c.jti.Str? && c.jti.text != []
  }

  /** The claim is reached exactly when all of the other checks pass, and it is made under the proof's own `jti`. */
  lemma InspectMeansAllChecks(lib: Library, p: Proof, r: Request)
    ensures Inspect(lib, p, r).Ok? <==>
            HeaderPasses(p) && ClaimsPass(lib, p.claims.value, p.header.value.jwk.value, r)
    ensures Inspect(lib, p, r).Ok? ==>
              Str(Inspect(lib, p, r).value.jti) == p.claims.value.jti &&
              Number(Inspect(lib, p, r).value.iat) == p.claims.value.iat
  {
    if p.header.Some? && p.header.value.jwk.Some? {
      var jwk := p.header.value.jwk.value;
      var shared := jwk.Keys * PRIVATE_MEMBERS;
      assert forall m :: m in shared <==> m in jwk && m in PRIVATE_MEMBERS;
    }
  }
}
