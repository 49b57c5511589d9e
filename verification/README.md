# Verified model of the AXIAM Python SDK's stateful and textual cores

The SDK is mostly HTTP plumbing. Six cores inside it carry state, timing or text that must survive a round trip, and
this project models those in Dafny and proves what they promise. The network, the clocks, signature checking, hashing
and randomness are parameters, so every theorem ranges over every answer, every duration and every interleaving.

1. **CIBA polling** (`CibaErrors`, `CibaAwait`, `CibaProperties`). The classifier from status and body to a poll step,
   the bounded retry inside a poll, and the waiting loop, as methods over a clock and a wire that record every request.
   Every run terminates, sends nothing at or after the deadline, follows the cumulative schedule with a one-shot
   Retry-After floor, fits the arithmetic budget of `expires_in`, and ends exactly as its first decisive answer says.
2. **The decision memo** (`MemoKey`, `DecisionMemos`, `AccessChecks`). The key's injectivity with its exact condition,
   the cache characterised by its call history alone (an exact if-and-only-if, eviction included), and `check_access` as
   a step system in which any number of checks, acting-tenant handles and credential changes interleave at every await.
3. **Session credentials** (`Sessions`). One shared session changed in place by logins, WebAuthn sign-ins, federation
   completions, device logins and logouts through any handle, and the acting-tenant gate.
4. **MCP metadata and challenges** (`Uris`, `BearerChallenges`, `McpMetadata`). An absolute-URI slicer and its inverse,
   the RFC 9728 derivation, the RFC 6750 challenge printer with a parser that inverts it, and the guard's exemption.
5. **Single-use stores and DPoP** (`JtiStores`, `DpopProofs`, `Thumbprints`, `Base64Url`, `OidcStateStores`).
6. **The generator** (`SchemaClosures`, `Wraps`, `Signatures`).

A class method is proved against a function of the old state. The theorems are then about that function, over whole
histories of calls.

## Properties that are false of the code, with their exact condition

- A memo key belongs to one question alone only if no component contains U+001F and every optional is present and not
  U+0000 (`MemoKey.UniqueExactlyWhenPresentAndSeparatorFree`, witnesses in `MemoKey.Collision` and
  `MemoKey.RespellAbsent`). Absent optionals do no harm as long as no present one is U+0000
  (`MemoKey.UniqueExactlyWhenSeparatorFree`).
- "Any credential change clears the memo" (CONTRACT.md:3900-3903) fails for the federation completions, so "a memo hit
  was answered to the current principal" fails with no overlap at all: a decision is stored, `sso_complete` signs another
  principal in, and the same question is answered from the memo (`AccessChecks.FederationServesStale`, for every
  question, decision, pair of principals and positive TTL). Without overlap and with every switch made by a call that
  clears the memo first, it holds (`AccessChecks.SeparateRunsAreCurrent`).
- It fails for a login too when a check overlaps it, even though the memo is empty at the switch and no check holds an
  answer: a request that left earlier is answered after (`AccessChecks.InFlightReplyServesStale`). Whatever call switches
  the principal, a stale answer can follow exactly when the memo has a live entry or some check is past its send at that
  moment (`AccessChecks.SwitchIsSafeExactlyWhenQuiet`), and runs whose every switch finds neither are current throughout
  (`AccessChecks.QuietRunsStayCurrent`).
- "A call that fails changes no credentials" fails for a federation completion whose body cannot be read: it has absorbed
  the new cookies already (`Sessions.UnfinishedCallsChangeTheJarOnly`).
- "A DPoP proof is fresh for its window and passes once" fails for a proof whose `iat` is `NaN`, which JSON decoding
  yields and every comparison lets through: it is fresh at every instant, and a `jti` that has only come with it is
  accepted however often it is presented (`DpopProofs.NaNIsNeverAReplay`, one concrete proof in
  `DpopProofs.NaNAcceptedTwice`). A repeat can be refused at all exactly when `iat` is a number whose window has not
  ended when it is claimed (`DpopProofs.RefusableExactlyWhenNumber`). An infinite `iat` is never fresh.
- For a number it still fails at the very end of the window, which freshness includes and the store's expiry excludes:
  one concrete proof is accepted twice (`DpopProofs.AcceptedTwice`). Presented again, a proof passes exactly when the
  end of its window does not compare above the store's clock (`DpopProofs.RepeatExactlyAtWindowEnd`).
- "Two keys of different required members have different canonical texts" fails for a code point beyond U+FFFF against
  the surrogate pair it is escaped as (`Thumbprints.AstralAndItsPairCollide`); Python strings hold either. Texts agree
  exactly when the UTF-16 units do (`Thumbprints.SameTextExactlyWhenSameUnits`), and a key has a text of its own exactly
  when no required member holds such a code point or pair (`Thumbprints.OwnTextExactlyWhenAlone`).
- "http is accepted only on 127.0.0.1, [::1] or localhost" (src/axiam_sdk/_mcp.py:214-218) fails because the host ends
  at the bracket of `[::1]`: `http://[::1].other.example/` is accepted (`Uris.BracketTailAccepted`). An accepted http URI
  is on loopback exactly when nothing but a port stands behind that bracket (`Uris.HttpOnLoopbackExactly`).
- "An operation on a closed client fails at once" fails for `ciba_await`: a client closed before the first poll keeps
  waiting, sends nothing, and ends in local expiry, because each poll's refusal reads as a lost connection
  (`CibaProperties.ClosedClientWaitsForExpiry`).
- "A login state lives at most ten minutes" fails for a store built with a `NaN` TTL, which the clamp lets through: its
  saves never expire (`OidcStateStores.LiveExactlyWhenYoung`).
- The generated call fits the generated signature exactly when an operation with a hand-written test body declares a
  body (`Signatures.CallFitsSignature`).

## Where the code and its documentation disagree

- CONTRACT.md:273 and the comment at src/axiam_sdk/_errors.py:294-297 ask for a non-empty `error` member. An empty
  `error` beside a string `error_description` is still a protocol error (src/axiam_sdk/_errors.py:312-313), and it ends
  a polling run. The model follows the code.
- The acting-tenant check is described as "is a UUID", but `$` in its pattern also accepts one trailing line feed. The
  model follows the code.

## Model

| member | source | states |
|---|---|---|
| CibaErrors.VerdictTable | src/axiam_sdk/_ciba.py:144-158 | for every answer, the layered classifier (OAuth body mapping, CIBA mapping, terminal mark, poll step) agrees with a flat reading of status and body: which answers give tokens, which may be retried inside a poll, which never end the run, and which count as `slow_down` |
| CibaErrors.DecisiveStatuses | src/axiam_sdk/_client.py:2400-2413 | whatever its body, any 3xx and any 2xx that is not JSON is classified as ending the run and never repeated inside a poll; a 5xx is always repeated and never ends it |
| CibaErrors.ErrorBodyMeaning | src/axiam_sdk/_errors.py:283-315 | the error body reader returns a code exactly for objects whose `error` is a string that is non-empty or comes with a string description |
| CibaAwait.CibaPoll | src/axiam_sdk/_client.py:2379-2425 | one poll, refused without a request on a closed client, with its bounded retry loop: result, clock, number of requests and the time of each are those of the specification `PollAt` |
| CibaAwait.OneAttempt | src/axiam_sdk/_retry.py:128-152 | what one attempt leads to for each kind of answer: tokens, a decisive failure, the attempt limit, a retry declined because its wait would reach the deadline, or a retry after exactly that wait |
| CibaAwait.DelayBounds | src/axiam_sdk/_retry.py:49-72 | without a Retry-After the wait is at most the backoff, itself at most 5 s, and all of it for a draw of 1; with one it is never below the capped Retry-After and never above the larger of the two |
| CibaAwait.CibaAwait | src/axiam_sdk/_client.py:2464-2494 | the waiting loop terminates against every wire and clock, and its outcome, clock and request times are those of the specification `Await` |
| CibaAwait.OneTurn | src/axiam_sdk/_async_client.py:1168-1191 | one turn of the loop, shared by the coroutine twin: tokens end it, a terminal failure ends it with that failure, any other goes on with the next interval and floor |
| CibaAwait.AwaitTurn | src/axiam_sdk/_client.py:2466-2494 | one turn of the loop as the code runs it: it expires, or waits, polls, and leaves the next interval and floor, or the outcome |
| CibaProperties.SendsBeforeDeadline | src/axiam_sdk/_client.py:2464-2481 | over every run, every token request, in-poll retries included, is sent strictly after the call and strictly before `received_at + expires_in` |
| CibaProperties.PollSendsBeforeDeadline | src/axiam_sdk/_retry.py:137-140 | inside one poll started before the deadline, every retry is sent before it |
| CibaProperties.Schedule | src/axiam_sdk/_client.py:2466-2494 | round i waits max(base + 5 * slow_downs seen so far, the Retry-After of the failure just before it, used once), counted from the end of the round before, and then polls, sending its first request at once if the client is open and none if it is closed |
| CibaProperties.IntervalsFit | src/axiam_sdk/_client.py:2466-2472 | the intervals waited before the polls of a run sum to less than the time left until the deadline |
| CibaProperties.TotalOfSlowDowns | src/axiam_sdk/_client.py:2484-2485 | n rounds with every earlier answer `slow_down` wait n*base + 5*n*(n-1)/2 seconds of intervals in all |
| CibaProperties.Budget | src/axiam_sdk/_client.py:2464-2485 | the polls of a run satisfy sum of intervals < expires_in, and n*base + 5*n*(n-1)/2 < expires_in when every earlier answer was `slow_down` |
| CibaProperties.LastAnswerDecidesPoll | src/axiam_sdk/_client.py:2396-2425 | a poll's last answer alone decides its outcome, and every earlier one was benign |
| CibaProperties.RunEndsAsAnswered | src/axiam_sdk/_client.py:2474-2494 | a run ends in tokens exactly when the last answer used succeeds, in an error exactly when it is fatal, and locally otherwise; every earlier answer was benign |
| CibaProperties.BenignAnswersNeverRaise | src/axiam_sdk/_ciba.py:455-468 | if every answer is pending, slow_down, rate-limited, a transport failure, a 5xx of any body, or a 408 or 429 naming no error, no run ends in a server error, whatever the timing |
| CibaProperties.FirstDecisiveAnswerEnds | src/axiam_sdk/_client.py:2405-2413 | the first answer that is not benign is the last one asked for, and it decides the end |
| CibaProperties.ExpiresOnlyOutOfTime | src/axiam_sdk/_client.py:2467-2471 | local expiry happens only when the next wait, floor included, would reach the deadline |
| CibaProperties.ClosedClientWaitsForExpiry | src/axiam_sdk/_client.py:2389-2389 | a client closed before the first poll, and closed for good, makes the call wait until local expiry without a request |
| MemoKey.UniqueExactlyWhenPresentAndSeparatorFree | src/axiam_sdk/_decision_memo.py:60-88 | among all questions, one shares its key with no other exactly when no component contains the separator and all three optionals are present and not U+0000 |
| MemoKey.UniqueExactlyWhenSeparatorFree | src/axiam_sdk/_decision_memo.py:52-57 | among the questions whose present optionals are not U+0000, absent ones included, one shares its key with no other exactly when no component contains the separator |
| MemoKey.KeysAgreeExactly | src/axiam_sdk/_decision_memo.py:80-88 | a separator-free question shares its key with exactly the questions spelled alike component by component, where an absent optional and U+0000 are one spelling; the other question is arbitrary |
| MemoKey.Collision | src/axiam_sdk/_decision_memo.py:49-57 | every question with a separator in it has a different question with the same key, which introduces no U+0000 optional of its own |
| MemoKey.RespellAbsent | src/axiam_sdk/_decision_memo.py:55-57 | every question with an optional absent or U+0000 has a different question with the same key |
| MemoKey.PresentNulReadsAsAbsent | src/axiam_sdk/_decision_memo.py:55-57 | a present optional equal to U+0000 gives the key of an absent one |
| DecisionMemos.DecisionMemo.constructor | src/axiam_sdk/_decision_memo.py:104-114 | an empty memo with the TTL clamped to 0 .. 5000 ms, infinities included; a NaN, like 0, leaves it disabled |
| DecisionMemos.DecisionMemo.Get | src/axiam_sdk/_decision_memo.py:126-141 | the live decision under a key, or nothing and the expired entry dropped |
| DecisionMemos.DecisionMemo.Set | src/axiam_sdk/_decision_memo.py:143-157 | the key moves to the back with its new decision, and the oldest entries go until 1024 remain |
| DecisionMemos.DecisionMemo.Clear | src/axiam_sdk/_decision_memo.py:159-167 | nothing remains |
| DecisionMemos.GetAnswersWhatHistoryRemembers | src/axiam_sdk/_decision_memo.py:126-157 | after any history with a monotone clock, `get` returns a decision exactly when it is the last one set under that key since the last clear, is younger than the clamped TTL, and fewer than 1024 distinct other keys were set after it |
| DecisionMemos.EntriesStayTidy | src/axiam_sdk/_decision_memo.py:152-157 | the entries are always at most 1024, one per key, in store order, and none when the memo is disabled |
| DecisionMemos.AlwaysFaithful | src/axiam_sdk/_decision_memo.py:126-157 | the invariant behind both: what is held, in which order, and what was evicted, read off the history |
| DecisionMemos.SetIsTidy | src/axiam_sdk/_decision_memo.py:153-157 | a set keeps the order and the bound, and the new entry is the one found |
| AccessChecks.HitsAreFaithful | src/axiam_sdk/_async_client.py:424-441 | in every interleaving of checks, handles, retries and credential changes, a hit is an answer the server gave to a question with the same key, which is the very question asked, acting tenant included, as far as keys can tell (`MemoKey.KeysAgreeExactly`), stored less than the clamped TTL earlier; and it was given to the current principal unless the check that stored it overlapped a credential change or a federation completion has switched the principal since the memo was last cleared |
| AccessChecks.StepKeepsInv | src/axiam_sdk/_async_client.py:478-509 | every step of every check, its request leaving and its reply arriving apart, and of every credential-changing call, clearing or not, keeps the invariant |
| AccessChecks.SeparateRunsAreCurrent | src/axiam_sdk/_client.py:886-893 | in runs where no check is in flight together with a credential-changing call and every switch is made by a call that has cleared the memo, every hit was answered to the principal it is served to |
| AccessChecks.SwitchIsSafeExactlyWhenQuiet | src/axiam_sdk/_async_client.py:482-484 | after a switch of principal, by whatever call, some continuation without another switch serves a previous principal's answer exactly when at the switch the memo has a live entry or some check is past its send |
| AccessChecks.QuietRunsStayCurrent | src/axiam_sdk/_async_client.py:424-441 | over every run, overlap and federation included, whose every switch to another principal finds no live entry and no check past its send, every hit is served to the principal it was given to |
| AccessChecks.FederationServesStale | src/axiam_sdk/_client.py:2916-2926 | from a new client, with no check in flight during the call, a stored decision is served to the principal a federation completion signed in |
| AccessChecks.InFlightReplyServesStale | src/axiam_sdk/_async_client.py:482-484 | from a new client, a request that left before a login cleared its empty memo and switched is answered after, stored, and served to the new principal |
| AccessChecks.CurrentRunsServeNothingStale | src/axiam_sdk/_decision_memo.py:159-167 | from a state in which no live entry, held answer or request on its way is another principal's, no run without a switch serves a stale decision |
| Sessions.Session.AbsorbCookies | src/axiam_sdk/_client.py:697-741 | without a usable access cookie nothing changes; otherwise the guard is seeded from it and bearer and scope are dropped |
| Sessions.Session.AdoptBearer | src/axiam_sdk/_session.py:227-249 | the jar is emptied, the guard reset and the bearer set |
| Sessions.Session.ClearBearer | src/axiam_sdk/_session.py:251-253 | the bearer alone is dropped |
| Sessions.Client.Login | src/axiam_sdk/_client.py:571-636 | the outcome and the whole session after any login reply, and an empty memo whatever the outcome |
| Sessions.Client.WebauthnFinish | src/axiam_sdk/_client.py:3168-3186 | likewise for a WebAuthn authentication, which leaves no scope |
| Sessions.Client.SsoComplete | src/axiam_sdk/_oidc.py:1521-1539 | likewise for a federation completion, which absorbs before it reads the body and leaves the memo alone |
| Sessions.Client.AuthenticateDevice | src/axiam_sdk/_client.py:1103-1155 | likewise for a device login, where a refusal leaves memo and credentials alone |
| Sessions.Client.Logout | src/axiam_sdk/_client.py:1552-1568 | likewise for a logout, which fails without a session id and keeps everything on an error status |
| Sessions.Client.ActingTenant | src/axiam_sdk/_client.py:1205-1244 | a new handle over the same session and memo, made exactly when the gate passes |
| Sessions.Client.CheckAccess | src/axiam_sdk/_client.py:1574-1676 | one uninterrupted check: a hit asks nothing, a miss asks once, only a returned decision is stored, and a 401 on the way clears the memo between the read and the store, or fails the check when a bearer is held |
| Sessions.CredentialsFollowTheLastSettlingCall | src/axiam_sdk/_client.py:722-741 | over every run through any handles, a bearer is held exactly after a completed device login and is that login's token, an absorbed cookie session exactly after a login, a WebAuthn sign-in or a federation completion that got its cookies, never both, and a scope exactly after a completed login, the one it reported |
| Sessions.UnfinishedCallsChangeTheJarOnly | src/axiam_sdk/_oidc.py:1534-1539 | a call that does not complete changes at most the cookie jar, except a federation completion that got its cookies and then cannot read its body, which has replaced the session |
| Sessions.GateFollowsTheLastLogin | src/axiam_sdk/_client.py:1036-1060 | a handle can be made for a tenant exactly when it is a UUID and, if the call that settled the session was a login, that login reported an organization-level principal that reaches it, letter case aside |
| Uris.ParsedPieces | src/axiam_sdk/_mcp.py:116-152 | the slices are a scheme, an authority and a path of the grammar, and without query and fragment they make up the text again |
| Uris.PiecesParse | src/axiam_sdk/_mcp.py:137-152 | any scheme, authority, path and tail put together slice back into themselves, with the right query and fragment flags |
| Uris.HostSplits | src/axiam_sdk/_mcp.py:155-170 | the host is what lies between the last `@` and the port, brackets of an IPv6 literal kept |
| Uris.HttpOnLoopbackExactly | src/axiam_sdk/_mcp.py:188-219 | an accepted URI is https or http; an http one that the policy lets through otherwise is accepted exactly when it is on loopback or has something other than a port behind `[::1]`, and these two exclude each other |
| Uris.TakenForLoopbackExactly | src/axiam_sdk/_mcp.py:155-171 | an authority is taken for loopback exactly when it is `[userinfo@]host[:port]` with a loopback host, or `[::1]` with anything but a port behind its bracket |
| Uris.BracketTailAccepted | src/axiam_sdk/_mcp.py:166-168 | every http URI with such a tail is accepted, and is not on loopback |
| BearerChallenges.BearerChallenge | src/axiam_sdk/_mcp.py:487-537 | the loop over the parts builds exactly the specified header, or refuses with the first offending member |
| BearerChallenges.ChallengeAccepted | src/axiam_sdk/_mcp.py:490-533 | a challenge is built exactly for a known error, a non-empty NQSCHAR description, a well-spaced scope and an NQCHAR absolute URL |
| BearerChallenges.TokensAreWellSpaced | src/axiam_sdk/_mcp.py:518-527 | splitting on spaces yields only non-empty tokens exactly when the text has no leading, trailing or doubled space and only legal characters |
| BearerChallenges.ParseInvertsPrint | src/axiam_sdk/_mcp.py:537 | a quote-aware parser, which does not know the keys, reads any printed parameter list back |
| BearerChallenges.ReadInvertsChallenge | src/axiam_sdk/_mcp.py:487-537 | reading any printed header returns exactly the optional error, description, scope and the URL it was printed from |
| BearerChallenges.ChallengeIsOneLine | src/axiam_sdk/_mcp.py:504-535 | a printed header is one line of printable ASCII |
| McpMetadata.ResolveServers | src/axiam_sdk/_mcp.py:367-382 | accepted exactly when there is an issuer, each is an identifier and none repeats; order and spelling are kept |
| McpMetadata.ResolveScopes | src/axiam_sdk/_mcp.py:384-398 | accepted exactly when each is a scope token and none repeats; order is kept |
| McpMetadata.ProtectedResourceMetadata | src/axiam_sdk/_mcp.py:299-427 | accepted exactly for acceptable arguments, with the document, path and URL determined by them |
| McpMetadata.MetadataUrlReparses | src/axiam_sdk/_mcp.py:288-296 | for any absolute URI without query and fragment, accepted or not, the derived URL slices back into its scheme and authority and the derived path |
| McpMetadata.MetadataUrlIsAccepted | src/axiam_sdk/_mcp.py:422-427 | the derived URL is accepted, under either policy, exactly when the resource is |
| McpMetadata.SharedExactlyWhenOneDocument | src/axiam_sdk/_mcp.py:422-427 | any two such URIs share a metadata URL exactly when they are equal or differ only by an empty path against a bare slash |
| McpMetadata.GuardFor | src/axiam_sdk/_mcp.py:571-636 | with an audience, a guard is built exactly for an acceptable NQCHAR URL and a well-spaced scope, and exempts that URL's path, or `/` for none |
| McpMetadata.GuardExemptsItsDocument | src/axiam_sdk/_mcp.py:670-691 | the guard fed from a derived URL and an audience exists exactly when the resource is acceptable, that URL NQCHAR and the scope well spaced, and exempts GET and HEAD of the derived path and no other request |
| JtiStores.InMemoryJtiStore.Claim | src/axiam_sdk/_dpop.py:132-148 | the answer and the new contents, pruning included, for every expiry, NaN and infinities among them |
| JtiStores.PruningIsUnobservable | src/axiam_sdk/_dpop.py:138-148 | after any history with a monotone non-negative clock, a claim is answered as a store that is never pruned would, and refused exactly when the expiry of the last granted claim of its `jti` compares above the clock, which a NaN never does |
| JtiStores.GrantedClaimsStayRefused | src/axiam_sdk/_dpop.py:145-148 | a granted claim stays the last granted one of its `jti` as long as its expiry compares above the clock, whatever is claimed in between |
| JtiStores.NaNExpiriesHoldNothing | src/axiam_sdk/_dpop.py:145-147 | a `jti` claimed only with NaN expiries leaves nothing that could refuse a later claim |
| DpopProofs.VerifyDpopProof | src/axiam_sdk/_dpop.py:244-389 | the result and the store after one verification; a proof failing another check leaves the store unchanged |
| DpopProofs.InspectMeansAllChecks | src/axiam_sdk/_dpop.py:284-383 | the claim is reached exactly when every other check passes, where `iat` is within the leeway in both directions or a NaN, and is made under the proof's own `jti` and `iat` |
| DpopProofs.AcceptedExactlyWhen | src/axiam_sdk/_dpop.py:380-387 | over every run, a proof is accepted exactly when it passes the other checks and the window end of the last accepted proof with its `jti` is absent, a NaN, or not above the store's clock |
| DpopProofs.ReplayNeedsWindowEnd | src/axiam_sdk/_dpop.py:376-387 | whatever is presented in between, an accepted `jti` stays refused while its window end compares above the store's clock |
| DpopProofs.SameProofTwice | src/axiam_sdk/_dpop.py:354-387 | one proof passes twice, under any two leeways, only when its first window end is not above the store's second reading; unless its `iat` is a NaN, that reading is at or after the end and the second freshness reading at or before the second window's end |
| DpopProofs.RepeatExactlyAtWindowEnd | src/axiam_sdk/_dpop.py:145-147 | presented again at once, a proof that passes the other checks is accepted exactly when its window end is not above the store's clock |
| DpopProofs.RefusableExactlyWhenNumber | src/axiam_sdk/_dpop.py:356-387 | for every proof and request, the repeat of an accepted proof can be refused at some later reading exactly when its `iat` is a number and its window had not ended |
| DpopProofs.NaNIsNeverAReplay | src/axiam_sdk/_dpop.py:356-387 | over every run, a `jti` that has only come with a NaN `iat` is accepted each time |
| DpopProofs.AcceptedTwice | src/axiam_sdk/_dpop.py:354-387 | one concrete proof is accepted at its own time and again at the end of its window |
| DpopProofs.NaNAcceptedTwice | src/axiam_sdk/_dpop.py:356-387 | the same proof with a NaN `iat` is accepted twice at any readings of both clocks |
| Thumbprints.Serialize | src/axiam_sdk/_dpop.py:162-176 | the canonical text of a key whose strings are any code points, lone surrogates included, or a refusal for an unknown type or a missing or empty required member |
| Thumbprints.EscapeCancel | src/axiam_sdk/_dpop.py:176-176 | the JSON escapes of single UTF-16 units form a prefix code |
| Thumbprints.EscapedAgree | src/axiam_sdk/_dpop.py:176-176 | two escaped strings agree exactly when their UTF-16 units do |
| Thumbprints.MembersExactly | src/axiam_sdk/_dpop.py:176-176 | two JSON objects of string members are written alike exactly when their members have the same units, one by one and in order |
| Thumbprints.SameTextExactlyWhenSameUnits | src/axiam_sdk/_dpop.py:151-177 | two keys have one canonical text exactly when they agree on the key type and on the UTF-16 units of every required member |
| Thumbprints.UnitsTellUnpairedApart | src/axiam_sdk/_dpop.py:176-176 | texts without a high surrogate before a low one are told apart by their units |
| Thumbprints.SameTextExactlyWhenSameRequired | src/axiam_sdk/_dpop.py:151-177 | so two keys without such a pair in a required member have one canonical text exactly when they agree on the key type and on every required member |
| Thumbprints.OwnTextExactlyWhenAlone | src/axiam_sdk/_dpop.py:151-177 | a key shares its text with no key of other required members exactly when no required member holds a code point beyond U+FFFF or a surrogate pair |
| Thumbprints.AstralAndItsPairCollide | src/axiam_sdk/_dpop.py:172-176 | U+1F600 and its two surrogates, as the `x` of an Ed25519 key, give one text |
| Thumbprints.OtherMembersDoNotMatter | src/axiam_sdk/_dpop.py:83-87 | whether a key has a thumbprint depends on those members only |
| Base64Url.RoundTrip | src/axiam_sdk/_dpop.py:90-97 | for every byte sequence, decoding the encoding with its padding restored gives the bytes back, and its length is ceil(4n/3), 43 for 32 bytes |
| Base64Url.ScanUndoesEncode | src/axiam_sdk/_dpop.py:90-92 | the lenient decoder inverts the padded encoder |
| Base64Url.PaddedIsUnpadded | src/axiam_sdk/_dpop.py:95-97 | the padded encoding is the unpadded one followed by exactly the missing characters |
| OidcStateStores.MemoryOidcStateStore.Save | src/axiam_sdk/_oidc_state.py:125-130 | expired entries swept, the entry stored with its expiry |
| OidcStateStores.MemoryOidcStateStore.Consume | src/axiam_sdk/_oidc_state.py:132-146 | the unexpired entry, or nothing; deleted in either case |
| OidcStateStores.MemoryOidcStateStore.SweepLocked | src/axiam_sdk/_oidc_state.py:148-156 | exactly the expired entries go |
| OidcStateStores.MemoryOidcStateStore.Size | src/axiam_sdk/_oidc_state.py:118-123 | the number of entries left by a sweep |
| OidcStateStores.ConsumeReturnsTheLiveSave | src/axiam_sdk/_oidc_state.py:114-156 | for every requested TTL, the swept store answers as an unswept timed map: the latest save under that state exactly when unconsumed and unexpired |
| OidcStateStores.LiveExactlyWhenYoung | src/axiam_sdk/_oidc_state.py:114-146 | an unconsumed save is live exactly when it is younger than min(ttl, 600 s), or the TTL is a NaN |
| OidcStateStores.SizeCountsLiveSaves | src/axiam_sdk/_oidc_state.py:118-123 | the size counts exactly the states whose save is still live |
| OidcStateStores.EachSaveReturnedOnce | src/axiam_sdk/_oidc_state.py:137-146 | a returned save was made after every earlier consume of that state, so none is returned twice |
| SchemaClosures.SchemaClosure | scripts/gen_management.py:651-682 | terminates on every graph, cycles included, and returns, strictly ascending, exactly the defined schemas reachable from the seeds through defined schemas |
| SchemaClosures.RefsIn | scripts/gen_management.py:661-670 | the recursive collector adds exactly the targets of the references anywhere under a node |
| SchemaClosures.ClosedHoldsWalk | scripts/gen_management.py:672-681 | a set with every defined seed, closed under references, holds the end of every walk |
| SchemaClosures.ExpandKeepsOk | scripts/gen_management.py:678-681 | expanding one schema keeps the worklist invariant |
| Wraps.FillParagraph | scripts/gen_management.py:391-399 | the in-place fill produces the lines of the greedy grouping |
| Wraps.Wrap | scripts/gen_management.py:384-403 | the whole loop produces the filled paragraphs with exactly one blank line between non-empty ones and none at the end |
| Wraps.GreedyIsBest | scripts/gen_management.py:391-397 | greedy keeps the words in order, makes only lines within the width or of a single word, and uses no more lines than any other such filling |
| Wraps.StaysAhead | scripts/gen_management.py:393-397 | the exchange argument: at every word greedy is a line ahead of any other filling, or holds a suffix of its line |
| Wraps.WrapKeepsContent | scripts/gen_management.py:384-403 | read back as text, the output has the same words in the same paragraphs and the same order as the input |
| Wraps.WrapIsAProjection | scripts/gen_management.py:384-403 | wrapping wrapped text changes nothing |
| Signatures.ImplicitParams | scripts/gen_management.py:1149-1157 | the two guarded additions give the path names the client supplies |
| Signatures.OperationSignature | scripts/gen_management.py:1260-1290 | the loops produce the specified parameter list |
| Signatures.CallArguments | scripts/gen_management.py:1897-1929 | the loops produce the specified argument list |
| Signatures.CallFitsSignature | scripts/gen_management.py:1897-1929 | for every registry and operation, the call passes as many arguments as the signature declares, each acceptable in its place, exactly when an operation with a hand-written body declares one |
| Signatures.DefaultsComeLast | scripts/gen_management.py:1260-1290 | no defaulted parameter precedes one without a default |

## Left out

- CibaAwait: discovery, the client credential and the token-set checks are outside the loop; a 2xx body's acceptance is one boolean, and the Retry-After header arrives parsed.
- AccessChecks: locks are taken as atomic steps, the memo's own clock reading is the run's clock, and the principal changes only inside a credential-changing call, not through a cookie set on some other reply; `refresh` is a clearing call, whose reply may at most switch back to the principal it left under.
- Sessions: refresh and `close()` as events, the cookies a refresh brings, and the message text of refusals are not modelled; the refresh guard is only its baseline.
- Uris: case mapping is ASCII, which is all the compared words can match.
- Uris, BearerChallenges, McpMetadata, Wraps, SchemaClosures: texts are sequences of Unicode scalar values; no test in that code tells a surrogate from any other non-ASCII character.
- Thumbprints: SHA-256 is a parameter.
- Base64Url: decoding of text with non-ASCII characters, which the code refuses before decoding.
- DpopProofs: key parsing, signature checking, hashing and URI slicing are parameters; the leeway and the clocks are real numbers, and rounding is not modelled.
- SchemaClosures: a `$ref` whose value is not a string, on which the generator fails.
- Signatures: parameter spellings, the text of model literals and the mounted route.
- Messages of errors, telemetry, logging, `report_clamp`, `batch_check`, `challenge_for_401`, `challenge_for_403`, `initiate_response` and `handle_ping`: settled by reading one body each.
- `discriminated`, `externally_tagged`, request bodies and the rest of the generator's templates: recognisers and text without an invariant.
- HTTP, gRPC, AMQP, TLS, JWT and OPAQUE code: input and output, or libraries not in the repository.
