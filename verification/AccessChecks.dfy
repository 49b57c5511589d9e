/** `check_access` as it really interleaves: any number of checks, from any number of acting-tenant handles,
    and any number of credential-changing calls share one memo, and each await is a point where any other may
    run. A step system; a run is a sequence of enabled steps. */
module AccessChecks {
  import opened Wrappers
  import opened Floats
  import opened Texts
  import opened MemoKey
  import opened DecisionMemos

  /** The decision the server returns, reason code included. */
  datatype Decision = Decision(allowed: bool, reasonCode: Option<Text>)

  type Principal = nat

  /** One answer the server gave: to which question, to which principal, and when it arrived. */
  datatype Answer = Answer(question: Question, decision: Decision, to: Principal, at: real)

  /** What the memo holds. Only `answer.decision` is the client's; the rest is history. `overlapped` says
      whether a credential-changing call was in flight at some time while the storing check was. */
  datatype Memoized = Memoized(answer: Answer, overlapped: bool)

  /** Where a check stands: about to read the memo, past a miss, waiting for the reply to a request that left
      with the credentials of `sender`, or holding the server's answer. */
  datatype Phase = Reading | Asking | Sent(sender: Principal) | Holding(answer: Answer)

  datatype Check = Check(question: Question, phase: Phase, overlapped: bool)

  /** `login` and its kin clear the memo, then switch the principal: before their request, or for the device
      login after its response. A federation completion switches the principal and never clears. */
  datatype Kind = Clearing | Federation

  datatype CallPhase = Begun(kind: Kind) | Cleared

  /** A check answered from the memo. `bypassed` says whether a call that had not cleared the memo had switched
      the principal since the memo was last cleared. */
  datatype Hit = Hit(
    question: Question, found: Memoized, storedAt: real, at: real, principal: Principal, bypassed: bool)

  datatype State = State(
    ttlMs: real,
    now: real,
    principal: Principal,
    memo: seq<Entry<Memoized>>,
    checks: map<nat, Check>,
    calls: map<nat, CallPhase>,
    answers: set<Answer>,
    hits: seq<Hit>,
    bypassed: bool)

  datatype Step =
    | Tick(elapsed: real)
    | Begin(check: nat, question: Question)
    | ReadMemo(check: nat)
    | Send(check: nat)
    | Reply(check: nat, decision: Decision)
    | Retry(check: nat)
    | Fail(check: nat)
    | Store(check: nat)
    | CallBegin(call: nat, kind: Kind)
    | CallClear(call: nat)
    | CallSwitch(call: nat, to: Principal)
    | CallEnd(call: nat)

  predicate Enabled(s: State, step: Step) {
    match step
    case Tick(elapsed) => elapsed >= 0.0
    case Begin(c, _) => c !in s.checks
    case ReadMemo(c) => c in s.checks && s.checks[c].phase.Reading?
    case Send(c) => c in s.checks && s.checks[c].phase.Asking?
    case Reply(c, _) => c in s.checks && s.checks[c].phase.Sent?
    case Retry(c) => c in s.checks && s.checks[c].phase.Sent?
    case Fail(c) => c in s.checks && (s.checks[c].phase.Asking? || s.checks[c].phase.Sent?)
    case Store(c) => c in s.checks && s.checks[c].phase.Holding?
    case CallBegin(m, _) => m !in s.calls
    case CallClear(m) => m in s.calls && s.calls[m] == Begun(Clearing)
    case CallSwitch(m, _) => m in s.calls && s.calls[m] != Begun(Clearing)
    case CallEnd(m) => m in s.calls
  }

  function AtPhase(s: State, c: nat, phase: Phase): State
    requires c in s.checks
  {
    s.(checks := s.checks[c := s.checks[c].(phase := phase)])
  }

  function Next(s: State, step: Step): State
    requires Enabled(s, step)
  {
    match step
    case Tick(elapsed) => s.(now := s.now + elapsed)
    case Begin(c, q) => s.(checks := s.checks[c := Check(q, Reading, s.calls != map[])])
    case ReadMemo(c) =>
      var q, key := s.checks[c].question, Key(s.checks[c].question);
      var read := s.(memo := AfterGet(s.ttlMs, s.memo, key, s.now));
      (match GetResult(s.ttlMs, s.memo, key, s.now)
       case Some(found) =>
         read.(checks := s.checks - {c},
               hits := s.hits + [Hit(q, found, Lookup(s.memo, key).value.storedAt, s.now, s.principal, s.bypassed)])
       case None => AtPhase(read, c, Asking))
    case Send(c) => AtPhase(s, c, Sent(s.principal))
    case Reply(c, decision) =>
      var answer := Answer(s.checks[c].question, decision, s.checks[c].phase.sender, s.now);
      AtPhase(s, c, Holding(answer)).(answers := s.answers + {answer})
    case Retry(c) => AtPhase(s, c, Asking)
    case Fail(c) => s.(checks := s.checks - {c})
    case Store(c) =>
      var check := s.checks[c];
      s.(memo := AfterSet(s.ttlMs, s.memo, Key(check.question), Memoized(check.phase.answer, check.overlapped), s.now),
         checks := s.checks - {c})
    case CallBegin(m, kind) =>
      s.(calls := s.calls[m := Begun(kind)], checks := map c | c in s.checks :: s.checks[c].(overlapped := true))
    case CallClear(m) => s.(memo := [], calls := s.calls[m := Cleared], bypassed := false)
    case CallSwitch(m, to) => s.(principal := to, bypassed := s.bypassed || !s.calls[m].Cleared?)
    case CallEnd(m) => s.(calls := s.calls - {m})
  }

  predicate IsRun(s: State, steps: seq<Step>)
    decreases |steps|
  {
    steps == [] || (Enabled(s, steps[0]) && IsRun(Next(s, steps[0]), steps[1..]))
  }

  function Run(s: State, steps: seq<Step>): State
    requires IsRun(s, steps)
    decreases |steps|
  {
    if steps == [] then s else Run(Next(s, steps[0]), steps[1..])
  }

  function Initial(requestedTtlMs: Float, now: real, principal: Principal): State {
    State(ClampTtl(requestedTtlMs), now, principal, [], map[], map[], {}, [], false)
  }

  // ---- The invariant ------------------------------------------------------------------------------------

  ghost predicate NoneCleared(s: State) { forall m | m in s.calls :: !s.calls[m].Cleared? }

  ghost predicate EntryOk(s: State, e: Entry<Memoized>) {
    var a := e.decision.answer;
    e.key == Key(a.question) && a in s.answers && a.at <= e.storedAt <= s.now &&
    (!e.decision.overlapped && !s.bypassed ==> a.to == s.principal && NoneCleared(s))
  }

  ghost predicate CheckOk(s: State, c: Check) {
    (!c.overlapped ==> s.calls == map[]) &&
    (c.phase.Sent? && !c.overlapped ==> c.phase.sender == s.principal) &&
    (c.phase.Holding? ==>
       var a := c.phase.answer;
       a.question == c.question && a in s.answers && a.at <= s.now && (!c.overlapped ==> a.to == s.principal))
  }

  /** The same key, and so the same question, as far as a key can tell questions apart. */
  ghost predicate SameQuestion(asked: Question, answered: Question) {
    Key(asked) == Key(answered) && (SeparatorFree(asked) ==> SameSpelling(answered, asked))
  }

  /** A hit answers the question asked, with an answer the server gave, stored less than the clamped TTL ago; and
      the server gave that answer to the principal signed in at the time of the hit, unless the check that stored it
      overlapped a credential-changing call or a federation completion has switched the principal since the memo was
      last cleared. */
  ghost predicate HitOk(s: State, h: Hit) {
    h.found.answer in s.answers &&
    SameQuestion(h.question, h.found.answer.question) &&
    h.found.answer.at <= h.storedAt <= h.at && (h.at - h.storedAt) * 1000.0 < s.ttlMs <= MAX_TTL_MS &&
    (!h.found.overlapped && !h.bypassed ==> h.found.answer.to == h.principal)
  }

  ghost predicate Inv(s: State) {
    s.ttlMs <= MAX_TTL_MS && Tidy(s.memo, s.now) &&
    (forall e | e in s.memo :: EntryOk(s, e)) &&
    (forall c | c in s.checks :: CheckOk(s, s.checks[c])) &&
    (forall h | h in s.hits :: HitOk(s, h))
  }

  lemma WithoutIsSubset<V>(es: seq<Entry<V>>, key: Text)
    ensures forall e | e in Without(es, key) :: e in es
  {}

  lemma MemoHitIsOk(s: State, c: nat)
    requires Inv(s) && Enabled(s, ReadMemo(c)) && GetResult(s.ttlMs, s.memo, Key(s.checks[c].question), s.now).Some?
    ensures HitOk(s, Hit(s.checks[c].question, GetResult(s.ttlMs, s.memo, Key(s.checks[c].question), s.now).value,
                         Lookup(s.memo, Key(s.checks[c].question)).value.storedAt, s.now, s.principal, s.bypassed))
  {
    var q := s.checks[c].question;
    LookupFinds(s.memo, Key(q));
    var e := Lookup(s.memo, Key(q)).value;
    assert EntryOk(s, e);
    if SeparatorFree(q) { KeysAgreeExactly(e.decision.answer.question, q); }
  }

  lemma ReadKeepsEntries(s: State, c: nat)
    requires Inv(s) && Enabled(s, ReadMemo(c))
    ensures var s' := Next(s, ReadMemo(c)); Tidy(s'.memo, s'.now) && forall e | e in s'.memo :: EntryOk(s', e)
  {
    var s', q := Next(s, ReadMemo(c)), s.checks[c].question;
    WithoutIsTidy(s.memo, Key(q), s.now);
    forall e | e in s'.memo ensures EntryOk(s', e) { assert EntryOk(s, e); }
  }

  lemma ReadKeepsHits(s: State, c: nat)
    requires Inv(s) && Enabled(s, ReadMemo(c))
    ensures forall h | h in Next(s, ReadMemo(c)).hits :: HitOk(Next(s, ReadMemo(c)), h)
  {
    var s' := Next(s, ReadMemo(c));
    forall h | h in s'.hits ensures HitOk(s', h) {
      if h in s.hits { assert HitOk(s, h); } else { MemoHitIsOk(s, c); }
    }
  }

  lemma MemoReadKeepsInv(s: State, c: nat)
    requires Inv(s) && Enabled(s, ReadMemo(c))
    ensures Inv(Next(s, ReadMemo(c)))
  {
    var s' := Next(s, ReadMemo(c));
    ReadKeepsEntries(s, c);
    ReadKeepsHits(s, c);
    forall x | x in s'.checks ensures CheckOk(s', s'.checks[x]) { assert CheckOk(s, s.checks[x]); }
  }

  lemma StoreKeepsEntries(s: State, c: nat)
    requires Inv(s) && Enabled(s, Store(c))
    ensures var s' := Next(s, Store(c)); Tidy(s'.memo, s'.now) && forall e | e in s'.memo :: EntryOk(s', e)
  {
    var s', check := Next(s, Store(c)), s.checks[c];
    assert CheckOk(s, check);
    WithoutIsSubset(s.memo, Key(check.question));
    SetIsTidy(s.ttlMs, s.memo, Key(check.question), Memoized(check.phase.answer, check.overlapped), s.now);
    forall e | e in s'.memo ensures EntryOk(s', e) {
      assert e in s.memo || e == Entry(Key(check.question), Memoized(check.phase.answer, check.overlapped), s.now);
    }
  }

  lemma StoreKeepsInv(s: State, c: nat)
    requires Inv(s) && Enabled(s, Store(c))
    ensures Inv(Next(s, Store(c)))
  {
    var s' := Next(s, Store(c));
    StoreKeepsEntries(s, c);
    forall x | x in s'.checks ensures CheckOk(s', s'.checks[x]) { assert CheckOk(s, s.checks[x]); }
    forall h | h in s'.hits ensures HitOk(s', h) { assert HitOk(s, h); }
  }

  /** Every other step of a check: the memo stays as it is. */
  lemma CheckStepKeepsInv(s: State, step: Step)
    requires Inv(s) && Enabled(s, step)
    requires step.Tick? || step.Begin? || step.Send? || step.Reply? || step.Retry? || step.Fail?
    ensures Inv(Next(s, step))
  {
    var s' := Next(s, step);
    forall e | e in s'.memo ensures EntryOk(s', e) { assert EntryOk(s, e); }
    forall c | c in s'.checks ensures CheckOk(s', s'.checks[c]) {
      if c in s.checks { assert CheckOk(s, s.checks[c]); }
    }
    forall h | h in s'.hits ensures HitOk(s', h) { assert HitOk(s, h); }
  }

  lemma CallStepKeepsInv(s: State, step: Step)
    requires Inv(s) && Enabled(s, step)
    requires step.CallBegin? || step.CallClear? || step.CallSwitch? || step.CallEnd?
    ensures Inv(Next(s, step))
  {
    var s' := Next(s, step);
    forall e | e in s'.memo ensures EntryOk(s', e) { assert EntryOk(s, e); }
    forall c | c in s'.checks ensures CheckOk(s', s'.checks[c]) { assert CheckOk(s, s.checks[c]); }
    forall h | h in s'.hits ensures HitOk(s', h) { assert HitOk(s, h); }
  }

  lemma StepKeepsInv(s: State, step: Step)
    requires Inv(s) && Enabled(s, step)
    ensures Inv(Next(s, step))
  {
    match step
    case ReadMemo(c) => MemoReadKeepsInv(s, c);
    case Store(c) => StoreKeepsInv(s, c);
    case CallBegin(_, _) => CallStepKeepsInv(s, step);
    case CallClear(_) => CallStepKeepsInv(s, step);
    case CallSwitch(_, _) => CallStepKeepsInv(s, step);
    case CallEnd(_) => CallStepKeepsInv(s, step);
    case _ => CheckStepKeepsInv(s, step);
  }

  lemma {:induction false} RunKeepsInv(s: State, steps: seq<Step>)
    requires Inv(s) && IsRun(s, steps)
    ensures Inv(Run(s, steps))
    decreases |steps|
  {
    if steps == [] {
    } else {
      StepKeepsInv(s, steps[0]);
      RunKeepsInv(Next(s, steps[0]), steps[1..]);
    }
  }

  /** In every interleaving, every hit is faithful, at most 5 s stale, and current but for overlap and federation. */
  lemma HitsAreFaithful(requestedTtlMs: Float, now: real, principal: Principal, steps: seq<Step>, h: Hit)
    requires IsRun(Initial(requestedTtlMs, now, principal), steps)
    requires h in Run(Initial(requestedTtlMs, now, principal), steps).hits
    ensures HitOk(Run(Initial(requestedTtlMs, now, principal), steps), h)
  {
    RunKeepsInv(Initial(requestedTtlMs, now, principal), steps);
  }

  // ---- Runs without overlap -------------------------------------------------------------------------------

  /** No check is ever in flight together with a credential-changing call. */
  ghost predicate Separate(s: State, steps: seq<Step>)
    requires IsRun(s, steps)
    decreases |steps|
  {
    (s.checks == map[] || s.calls == map[]) && (steps != [] ==> Separate(Next(s, steps[0]), steps[1..]))
  }

  /** Every switch of principal is made by a call that has cleared the memo. */
  ghost predicate ClearsFirst(s: State, steps: seq<Step>)
    requires IsRun(s, steps)
    decreases |steps|
  {
    steps == [] ||
    ((steps[0].CallSwitch? ==> s.calls[steps[0].call].Cleared?) && ClearsFirst(Next(s, steps[0]), steps[1..]))
  }

  ghost predicate NothingAmiss(s: State) {
    !s.bypassed &&
    (forall e | e in s.memo :: !e.decision.overlapped) &&
    (forall c | c in s.checks :: !s.checks[c].overlapped) &&
    (forall h | h in s.hits :: !h.found.overlapped && !h.bypassed)
  }

  lemma StepKeepsNothingAmiss(s: State, step: Step)
    requires Enabled(s, step) && NothingAmiss(s)
    requires s.checks == map[] || s.calls == map[]
    requires Next(s, step).checks == map[] || Next(s, step).calls == map[]
    requires step.CallSwitch? ==> s.calls[step.call].Cleared?
    ensures NothingAmiss(Next(s, step))
  {
    var s' := Next(s, step);
    match step
    case Begin(c, _) => assert c in s'.checks;
    case CallBegin(m, _) => assert m in s'.calls;
    case ReadMemo(c) =>
      WithoutIsSubset(s.memo, Key(s.checks[c].question));
      LookupFinds(s.memo, Key(s.checks[c].question));
    case Store(c) => WithoutIsSubset(s.memo, Key(s.checks[c].question));
    case _ =>
  }

  lemma {:induction false} SeparateRunsStayFlawless(s: State, steps: seq<Step>)
    requires IsRun(s, steps) && Separate(s, steps) && ClearsFirst(s, steps) && NothingAmiss(s)
    ensures NothingAmiss(Run(s, steps))
    decreases |steps|
  {
    if steps == [] {
    } else {
      StepKeepsNothingAmiss(s, steps[0]);
      SeparateRunsStayFlawless(Next(s, steps[0]), steps[1..]);
    }
  }

  /** So in those runs every hit was answered to the principal it is served to. */
  lemma SeparateRunsAreCurrent(requestedTtlMs: Float, now: real, principal: Principal, steps: seq<Step>, h: Hit)
    requires IsRun(Initial(requestedTtlMs, now, principal), steps)
    requires Separate(Initial(requestedTtlMs, now, principal), steps) &&
             ClearsFirst(Initial(requestedTtlMs, now, principal), steps)
    requires h in Run(Initial(requestedTtlMs, now, principal), steps).hits
    ensures h.found.answer.to == h.principal
  {
    RunKeepsInv(Initial(requestedTtlMs, now, principal), steps);
    SeparateRunsStayFlawless(Initial(requestedTtlMs, now, principal), steps);
  }

  // ---- Exactly when a switch of principal is safe ----------------------------------------------------------

  /** Nothing the memo can still serve, and no answer on its way into it, is for anyone but the principal. */
  ghost predicate Current(s: State) {
    (forall e | e in s.memo && !Expired(s.ttlMs, e, s.now) :: e.decision.answer.to == s.principal) &&
    (forall c | c in s.checks && s.checks[c].phase.Sent? :: s.checks[c].phase.sender == s.principal) &&
    (forall c | c in s.checks && s.checks[c].phase.Holding? :: s.checks[c].phase.answer.to == s.principal) &&
    (forall h | h in s.hits :: h.found.answer.to == h.principal)
  }

  /** No live memo entry and no check between the request it sent and its store. */
  ghost predicate Quiet(s: State) {
    (forall e | e in s.memo :: Expired(s.ttlMs, e, s.now)) &&
    (forall c | c in s.checks :: !s.checks[c].phase.Sent? && !s.checks[c].phase.Holding?)
  }

  ghost predicate NoSwitch(steps: seq<Step>) { forall i | 0 <= i < |steps| :: !steps[i].CallSwitch? }

  ghost predicate ServesStale(s: State, steps: seq<Step>) {
    NoSwitch(steps) && IsRun(s, steps) && exists h :: h in Run(s, steps).hits && h.found.answer.to != h.principal
  }

  lemma ReadKeepsCurrent(s: State, c: nat)
    requires Current(s) && Enabled(s, ReadMemo(c))
    ensures Current(Next(s, ReadMemo(c)))
  {
    var key := Key(s.checks[c].question);
    WithoutIsSubset(s.memo, key);
    LookupFinds(s.memo, key);
    var s' := Next(s, ReadMemo(c));
    assert forall e | e in s'.memo :: e in s.memo;
    forall h | h in s'.hits ensures h.found.answer.to == h.principal {
      if h !in s.hits { assert Lookup(s.memo, key).value in s.memo; }
    }
  }

  lemma StoreKeepsCurrent(s: State, c: nat)
    requires Current(s) && Enabled(s, Store(c))
    ensures Current(Next(s, Store(c)))
  {
    WithoutIsSubset(s.memo, Key(s.checks[c].question));
  }

  lemma StepKeepsCurrent(s: State, step: Step)
    requires Current(s) && Enabled(s, step)
    requires step.CallSwitch? ==> step.to == s.principal || Quiet(s)
    ensures Current(Next(s, step))
  {
    match step
    case ReadMemo(c) => ReadKeepsCurrent(s, c);
    case Store(c) => StoreKeepsCurrent(s, c);
    case _ =>
  }

  /** Every switch to another principal finds the memo and the checks quiet. */
  ghost predicate SwitchesQuietly(s: State, steps: seq<Step>)
    requires IsRun(s, steps)
    decreases |steps|
  {
    steps == [] ||
    ((steps[0].CallSwitch? ==> steps[0].to == s.principal || Quiet(s)) &&
     SwitchesQuietly(Next(s, steps[0]), steps[1..]))
  }

  /** Then, overlap or not and whoever switched, every hit is served to the principal it was given to. */
  lemma {:induction false} QuietRunsStayCurrent(s: State, steps: seq<Step>)
    requires Current(s) && IsRun(s, steps) && SwitchesQuietly(s, steps)
    ensures Current(Run(s, steps))
    decreases |steps|
  {
    if steps == [] {
    } else {
      StepKeepsCurrent(s, steps[0]);
      QuietRunsStayCurrent(Next(s, steps[0]), steps[1..]);
    }
  }

  lemma {:induction false} NoSwitchIsQuiet(s: State, steps: seq<Step>)
    requires IsRun(s, steps) && NoSwitch(steps)
    ensures SwitchesQuietly(s, steps)
    decreases |steps|
  {
    if steps == [] {
    } else {
      assert !steps[0].CallSwitch? && NoSwitch(steps[1..]);
      NoSwitchIsQuiet(Next(s, steps[0]), steps[1..]);
    }
  }

  lemma CurrentRunsServeNothingStale(s: State, steps: seq<Step>)
    requires Current(s)
    ensures !ServesStale(s, steps)
  {
    if NoSwitch(steps) && IsRun(s, steps) {
      NoSwitchIsQuiet(s, steps);
      QuietRunsStayCurrent(s, steps);
    }
  }

  /** One more step in front. */
  lemma Then(s: State, step: Step, rest: seq<Step>)
    requires Enabled(s, step) && IsRun(Next(s, step), rest)
    ensures IsRun(s, [step] + rest) && Run(s, [step] + rest) == Run(Next(s, step), rest)
  {
    assert ([step] + rest)[1..] == rest;
  }

  lemma StaleLater(s: State, step: Step, rest: seq<Step>)
    requires Enabled(s, step) && !step.CallSwitch? && ServesStale(Next(s, step), rest)
    ensures ServesStale(s, [step] + rest)
  {
    Then(s, step, rest);
  }

  /** One read of the memo by a new check. */
  lemma ReadsEntry(s: State, c: nat, e: Entry<Memoized>)
    requires Inv(s) && s.ttlMs > 0.0 && c !in s.checks
    requires Lookup(s.memo, e.key) == Some(e) && !Expired(s.ttlMs, e, s.now) && e.decision.answer.to != s.principal
    ensures ServesStale(s, [Begin(c, e.decision.answer.question)] + [ReadMemo(c)])
  {
    LookupFinds(s.memo, e.key);
    assert EntryOk(s, e);
    var s1 := Next(s, Begin(c, e.decision.answer.question));
    var s2 := Next(s1, ReadMemo(c));
    var h := s2.hits[|s2.hits| - 1];
    assert h in s2.hits && h.found.answer.to != h.principal;
    Then(s1, ReadMemo(c), []);
    assert [ReadMemo(c)] + [] == [ReadMemo(c)];
    StaleLater(s, Begin(c, e.decision.answer.question), [ReadMemo(c)]);
  }

  lemma StoresThenReads(s: State, c: nat) returns (steps: seq<Step>)
    requires Inv(s) && s.ttlMs > 0.0
    requires c in s.checks && s.checks[c].phase.Holding? && s.checks[c].phase.answer.to != s.principal
    ensures ServesStale(s, steps)
  {
    var check := s.checks[c];
    var held := Memoized(check.phase.answer, check.overlapped);
    assert CheckOk(s, check);
    StepKeepsInv(s, Store(c));
    SetIsTidy(s.ttlMs, s.memo, Key(check.question), held, s.now);
    ReadsEntry(Next(s, Store(c)), c, Entry(Key(check.question), held, s.now));
    steps := [Store(c)] + ([Begin(c, check.question)] + [ReadMemo(c)]);
    StaleLater(s, Store(c), [Begin(c, check.question)] + [ReadMemo(c)]);
  }

  /** The reply to a request that left under another principal. */
  lemma RepliesThenStores(s: State, c: nat) returns (steps: seq<Step>)
    requires Inv(s) && s.ttlMs > 0.0
    requires c in s.checks && s.checks[c].phase.Sent? && s.checks[c].phase.sender != s.principal
    ensures ServesStale(s, steps)
  {
    var reply := Reply(c, Decision(true, None));
    StepKeepsInv(s, reply);
    var rest := StoresThenReads(Next(s, reply), c);
    steps := [reply] + rest;
    StaleLater(s, reply, rest);
  }

  lemma FreshCheck(ids: set<nat>) returns (c: nat)
    ensures c !in ids && forall i | i in ids :: i < c
  {
    if ids == {} {
      c := 0;
    } else {
      var i :| i in ids;
      var d := FreshCheck(ids - {i});
      assert forall j | j in ids :: j == i || j in ids - {i};
      c := if i < d then d else i + 1;
    }
  }

  lemma LookupMember(es: seq<Entry<Memoized>>, e: Entry<Memoized>, now: real)
    requires Tidy(es, now) && e in es
    ensures Lookup(es, e.key) == Some(e)
  {
    if es[|es| - 1] != e {
      var i :| 0 <= i < |es| && es[i] == e;
      assert es[..|es| - 1][i] == e;
      LookupMember(es[..|es| - 1], e, now);
    }
  }

  lemma QuietSwitchIsSafe(s: State, call: nat, to: Principal)
    requires Current(s) && Quiet(s) && Enabled(s, CallSwitch(call, to))
    ensures forall steps :: !ServesStale(Next(s, CallSwitch(call, to)), steps)
  {
    StepKeepsCurrent(s, CallSwitch(call, to));
    forall steps ensures !ServesStale(Next(s, CallSwitch(call, to)), steps) {
      CurrentRunsServeNothingStale(Next(s, CallSwitch(call, to)), steps);
    }
  }

  /** What `Current` forbids, some run serves. */
  lemma StaleStateServesStale(s: State) returns (steps: seq<Step>)
    requires Inv(s) && s.ttlMs > 0.0
    requires (exists e :: e in s.memo && !Expired(s.ttlMs, e, s.now) && e.decision.answer.to != s.principal) ||
             (exists c :: c in s.checks && s.checks[c].phase.Sent? && s.checks[c].phase.sender != s.principal) ||
             (exists c :: c in s.checks && s.checks[c].phase.Holding? && s.checks[c].phase.answer.to != s.principal)
    ensures ServesStale(s, steps)
  {
    if c :| c in s.checks && s.checks[c].phase.Holding? && s.checks[c].phase.answer.to != s.principal {
      steps := StoresThenReads(s, c);
    } else if c :| c in s.checks && s.checks[c].phase.Sent? && s.checks[c].phase.sender != s.principal {
      steps := RepliesThenStores(s, c);
    } else {
      var e :| e in s.memo && !Expired(s.ttlMs, e, s.now) && e.decision.answer.to != s.principal;
      LookupMember(s.memo, e, s.now);
      var c := FreshCheck(s.checks.Keys);
      ReadsEntry(s, c, e);
      steps := [Begin(c, e.decision.answer.question)] + [ReadMemo(c)];
    }
  }

  lemma NoisySwitchLeavesStaleState(s: State, call: nat, to: Principal)
    requires Current(s) && !Quiet(s) && Enabled(s, CallSwitch(call, to)) && to != s.principal
    ensures var s' := Next(s, CallSwitch(call, to));
            (exists e :: e in s'.memo && !Expired(s'.ttlMs, e, s'.now) && e.decision.answer.to != s'.principal) ||
            (exists c :: c in s'.checks && s'.checks[c].phase.Sent? && s'.checks[c].phase.sender != s'.principal) ||
            (exists c :: c in s'.checks && s'.checks[c].phase.Holding? && s'.checks[c].phase.answer.to != s'.principal)
  {}

  /** Signing in another principal, by whatever call, lets some later check, before any further switch, be answered
      for the previous one exactly when at that moment the memo has a live entry or some check is past its send.
      Clearing the memo just before the switch removes the first cause only. */
  lemma SwitchIsSafeExactlyWhenQuiet(s: State, call: nat, to: Principal)
    requires Inv(s) && Current(s) && s.ttlMs > 0.0
    requires Enabled(s, CallSwitch(call, to)) && to != s.principal
    ensures (exists steps :: ServesStale(Next(s, CallSwitch(call, to)), steps)) <==> !Quiet(s)
  {
    if Quiet(s) {
      QuietSwitchIsSafe(s, call, to);
    } else {
      StepKeepsInv(s, CallSwitch(call, to));
      NoisySwitchLeavesStaleState(s, call, to);
      var steps := StaleStateServesStale(Next(s, CallSwitch(call, to)));
    }
  }

  // ---- Stale runs from the start ------------------------------------------------------------------------------

  /** A check that misses and whose request leaves, and then `rest`. */
  function AsksThen(q: Question, rest: seq<Step>): seq<Step> { [Begin(0, q)] + ([ReadMemo(0)] + ([Send(0)] + rest)) }

  function IsAnsweredThen(decision: Decision, rest: seq<Step>): seq<Step> { [Reply(0, decision)] + ([Store(0)] + rest) }

  function FederationThen(to: Principal, rest: seq<Step>): seq<Step> {
    [CallBegin(0, Federation)] + ([CallSwitch(0, to)] + ([CallEnd(0)] + rest))
  }

  function LoginThen(to: Principal, rest: seq<Step>): seq<Step> {
    [CallBegin(0, Clearing)] + ([CallClear(0)] + ([CallSwitch(0, to)] + ([CallEnd(0)] + rest)))
  }

  function AsksAgain(q: Question): seq<Step> { [Begin(1, q)] + ([ReadMemo(1)] + []) }

  lemma AloneThen(s: State, step: Step, rest: seq<Step>)
    requires Enabled(s, step) && IsRun(Next(s, step), rest) && Separate(Next(s, step), rest)
    requires s.checks == map[] || s.calls == map[]
    ensures IsRun(s, [step] + rest) && Separate(s, [step] + rest)
  {
    assert ([step] + rest)[1..] == rest;
  }

  lemma AskedFirst(s: State, q: Question, rest: seq<Step>) returns (s': State)
    requires s.memo == [] && s.checks == map[] && s.calls == map[]
    ensures s' == s.(checks := map[0 := Check(q, Sent(s.principal), false)])
    ensures IsRun(s', rest) ==> IsRun(s, AsksThen(q, rest)) && Run(s, AsksThen(q, rest)) == Run(s', rest)
    ensures IsRun(s', rest) && Separate(s', rest) ==> Separate(s, AsksThen(q, rest))
  {
    var s1 := Next(s, Begin(0, q));
    var s2 := Next(s1, ReadMemo(0));
    s' := Next(s2, Send(0));
    if IsRun(s', rest) {
      Then(s2, Send(0), rest);
      Then(s1, ReadMemo(0), [Send(0)] + rest);
      Then(s, Begin(0, q), [ReadMemo(0)] + ([Send(0)] + rest));
      if Separate(s', rest) {
        AloneThen(s2, Send(0), rest);
        AloneThen(s1, ReadMemo(0), [Send(0)] + rest);
        AloneThen(s, Begin(0, q), [ReadMemo(0)] + ([Send(0)] + rest));
      }
    }
  }

  lemma IsAnswered(s: State, check: Check, decision: Decision, rest: seq<Step>) returns (s': State)
    requires s.memo == [] && s.checks == map[0 := check] && check.phase.Sent? && s.calls == map[] && s.ttlMs > 0.0
    ensures var answer := Answer(check.question, decision, check.phase.sender, s.now);
            s' == s.(checks := map[], answers := s.answers + {answer},
                     memo := [Entry(Key(check.question), Memoized(answer, check.overlapped), s.now)])
    ensures IsRun(s', rest) ==>
              IsRun(s, IsAnsweredThen(decision, rest)) &&
              Run(s, IsAnsweredThen(decision, rest)) == Run(s', rest)
    ensures IsRun(s', rest) && Separate(s', rest) ==> Separate(s, IsAnsweredThen(decision, rest))
  {
    var s1 := Next(s, Reply(0, decision));
    s' := Next(s1, Store(0));
    if IsRun(s', rest) {
      Then(s1, Store(0), rest);
      Then(s, Reply(0, decision), [Store(0)] + rest);
      if Separate(s', rest) {
        AloneThen(s1, Store(0), rest);
        AloneThen(s, Reply(0, decision), [Store(0)] + rest);
      }
    }
  }

  lemma FederationSignsIn(s: State, to: Principal, rest: seq<Step>) returns (s': State)
    requires s.checks == map[] && s.calls == map[]
    ensures s' == s.(principal := to, bypassed := true)
    ensures IsRun(s', rest) ==> IsRun(s, FederationThen(to, rest)) && Run(s, FederationThen(to, rest)) == Run(s', rest)
    ensures IsRun(s', rest) && Separate(s', rest) ==> Separate(s, FederationThen(to, rest))
  {
    var s1 := Next(s, CallBegin(0, Federation));
    var s2 := Next(s1, CallSwitch(0, to));
    s' := Next(s2, CallEnd(0));
    assert s1.checks == map[] && s'.calls == map[];
    if IsRun(s', rest) {
      Then(s2, CallEnd(0), rest);
      Then(s1, CallSwitch(0, to), [CallEnd(0)] + rest);
      Then(s, CallBegin(0, Federation), [CallSwitch(0, to)] + ([CallEnd(0)] + rest));
      if Separate(s', rest) {
        AloneThen(s2, CallEnd(0), rest);
        AloneThen(s1, CallSwitch(0, to), [CallEnd(0)] + rest);
        AloneThen(s, CallBegin(0, Federation), [CallSwitch(0, to)] + ([CallEnd(0)] + rest));
      }
    }
  }

  lemma LoginSignsIn(s: State, check: Check, to: Principal, rest: seq<Step>) returns (s': State)
    requires s.checks == map[0 := check] && s.calls == map[]
    ensures s' == s.(principal := to, memo := [], bypassed := false, checks := map[0 := check.(overlapped := true)])
    ensures IsRun(s', rest) ==> IsRun(s, LoginThen(to, rest)) && Run(s, LoginThen(to, rest)) == Run(s', rest)
  {
    var s1 := Next(s, CallBegin(0, Clearing));
    var s2 := Next(s1, CallClear(0));
    var s3 := Next(s2, CallSwitch(0, to));
    s' := Next(s3, CallEnd(0));
    assert s'.checks == map[0 := check.(overlapped := true)] && s'.calls == map[];
    if IsRun(s', rest) {
      Then(s3, CallEnd(0), rest);
      Then(s2, CallSwitch(0, to), [CallEnd(0)] + rest);
      Then(s1, CallClear(0), [CallSwitch(0, to)] + ([CallEnd(0)] + rest));
      Then(s, CallBegin(0, Clearing), [CallClear(0)] + ([CallSwitch(0, to)] + ([CallEnd(0)] + rest)));
    }
  }

  lemma AskedAgain(s: State, q: Question, held: Memoized)
    requires s.memo == [Entry(Key(q), held, s.now)] && s.checks == map[] && s.calls == map[] && s.ttlMs > 0.0
    ensures IsRun(s, AsksAgain(q)) && Separate(s, AsksAgain(q))
    ensures Run(s, AsksAgain(q)).hits == s.hits + [Hit(q, held, s.now, s.now, s.principal, s.bypassed)]
  {
    var s1 := Next(s, Begin(1, q));
    var s2 := Next(s1, ReadMemo(1));
    AloneThen(s1, ReadMemo(1), []);
    Then(s1, ReadMemo(1), []);
    AloneThen(s, Begin(1, q), [ReadMemo(1)] + []);
    Then(s, Begin(1, q), [ReadMemo(1)] + []);
  }

  /** A stale hit with no overlap at all: a decision is stored, a federation completion signs another principal in,
      and the same question is answered from the memo. */
  lemma FederationServesStale(
      requestedTtlMs: Float, now: real, principal: Principal, to: Principal, q: Question, decision: Decision)
    requires ClampTtl(requestedTtlMs) > 0.0
    ensures var s := Initial(requestedTtlMs, now, principal);
            var steps := AsksThen(q, IsAnsweredThen(decision, FederationThen(to, AsksAgain(q))));
            IsRun(s, steps) && Separate(s, steps) &&
            Run(s, steps).hits == [Hit(q, Memoized(Answer(q, decision, principal, now), false), now, now, to, true)]
  {
    var s := Initial(requestedTtlMs, now, principal);
    var check := Check(q, Sent(principal), false);
    var s1 := AskedFirst(s, q, IsAnsweredThen(decision, FederationThen(to, AsksAgain(q))));
    var s2 := IsAnswered(s1, check, decision, FederationThen(to, AsksAgain(q)));
    var s3 := FederationSignsIn(s2, to, AsksAgain(q));
    AskedAgain(s3, q, Memoized(Answer(q, decision, principal, now), false));
  }

  /** A stale hit although the login cleared the memo, which was empty, and no check held an answer at the switch: one
      check's request had left, and its reply came back after. */
  lemma InFlightReplyServesStale(
      requestedTtlMs: Float, now: real, principal: Principal, to: Principal, q: Question, decision: Decision)
    requires ClampTtl(requestedTtlMs) > 0.0
    ensures var s := Initial(requestedTtlMs, now, principal);
            var steps := AsksThen(q, LoginThen(to, IsAnsweredThen(decision, AsksAgain(q))));
            IsRun(s, steps) &&
            Run(s, steps).hits == [Hit(q, Memoized(Answer(q, decision, principal, now), true), now, now, to, false)]
  {
    var s := Initial(requestedTtlMs, now, principal);
    var check := Check(q, Sent(principal), false);
    var s1 := AskedFirst(s, q, LoginThen(to, IsAnsweredThen(decision, AsksAgain(q))));
    var s2 := LoginSignsIn(s1, check, to, IsAnsweredThen(decision, AsksAgain(q)));
    var s3 := IsAnswered(s2, check.(overlapped := true), decision, AsksAgain(q));
    AskedAgain(s3, q, Memoized(Answer(q, decision, principal, now), true));
  }
}
