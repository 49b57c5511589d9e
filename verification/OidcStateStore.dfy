/** The in-memory store of login state: single use, at most ten minutes, swept when saved into. */
module OidcStateStores {
  import opened Wrappers
  import opened Floats
  import opened Texts

  const MAX_TTL := 600.0

  datatype LoginState = LoginState(
    state: Text, nonce: Text, codeVerifier: Text, redirectUri: Text, returnTo: Option<Text>)

  /** Each held entry with the time it expires. */
  type Held = map<Text, (LoginState, Float)>

  /** `min(ttl, 600)`, which a NaN passes through. */
  function EffectiveTtl(requested: Float): Float { if Above(requested, MAX_TTL) then Finite(MAX_TTL) else requested }

  function Sweep(held: Held, now: real): Held { map s | s in held && !AtMost(held[s].1, now) :: held[s] }

  function AfterSave(held: Held, e: LoginState, sweptAt: real, expiresAt: Float): Held {
    Sweep(held, sweptAt)[e.state := (e, expiresAt)]
  }

  /** Deleted before its expiry is looked at. */
  function ConsumeResult(held: Held, state: Text, now: real): Option<LoginState> {
    if state !in held || AtMost(held[state].1, now) then None else Some(held[state].0)
  }

  class MemoryOidcStateStore {
    const ttl: Float
    var entries: Held

    constructor (requestedTtl: Float)
      ensures ttl == EffectiveTtl(requestedTtl) && entries == map[]
    {
      ttl := if Above(requestedTtl, MAX_TTL) then Finite(MAX_TTL) else requestedTtl;
      entries := map[];
    }

    method SweepLocked(now: real)
      modifies this
      ensures entries == Sweep(old(entries), now)
    {
      var expired := set s | s in entries && AtMost(entries[s].1, now);
      entries := entries - expired;
    }

    /** The clock is read twice: once to sweep, once to stamp. */
    method Save(e: LoginState, sweepAt: real, savedAt: real)
      modifies this
      ensures entries == AfterSave(old(entries), e, sweepAt, Plus(ttl, savedAt))
    {
      SweepLocked(sweepAt);
      entries := entries[e.state := (e, Plus(ttl, savedAt))];
    }

    method Consume(state: Text, now: real) returns (r: Option<LoginState>)
      modifies this
      ensures r == ConsumeResult(old(entries), state, now)
      ensures entries == old(entries) - {state}
    {
      if state !in entries { return None; }
      var held := entries[state];
      entries := entries - {state};
      return if AtMost(held.1, now) then None else Some(held.0);
    }

    method Size(now: real) returns (n: nat)
      modifies this
      ensures entries == Sweep(old(entries), now) && n == |entries|
    {
      SweepLocked(now);
      return |entries|;
    }
  }

  // ---- Histories -----------------------------------------------------------------------------------------------

  datatype Op = Save(entry: LoginState, sweepAt: real, at: real) | Consume(state: Text, at: real) | Size(at: real)

  function After(ttl: Float, h: seq<Op>): Held {
    if h == [] then map[]
    else
      var held := After(ttl, h[..|h| - 1]);
      match h[|h| - 1]
      case Save(e, s, t) => AfterSave(held, e, s, Plus(ttl, t))
      case Consume(state, _) => held - {state}
      case Size(t) => Sweep(held, t)
  }

  ghost predicate Monotone(h: seq<Op>, now: real) {
    h != [] ==>
      var op := h[|h| - 1];
      var first := if op.Save? then op.sweepAt else op.at;
      first <= op.at <= now && Monotone(h[..|h| - 1], first)
  }

  /** The index of the save of `state` that no consume has taken and no save has replaced since. */
  ghost function Pending(h: seq<Op>, state: Text): Option<nat> {
    if h == [] then None
    else
      match h[|h| - 1]
      case Save(e, _, _) => if e.state == state then Some(|h| - 1) else Pending(h[..|h| - 1], state)
      case Consume(s, _) => if s == state then None else Pending(h[..|h| - 1], state)
      case Size(_) => Pending(h[..|h| - 1], state)
  }

  lemma {:induction false} PendingIsASave(h: seq<Op>, state: Text)
    requires Pending(h, state).Some?
    ensures var i := Pending(h, state).value; i < |h| && h[i].Save? && h[i].entry.state == state
  {
    match h[|h| - 1]
    case Save(e, _, _) => if e.state != state { PendingIsASave(h[..|h| - 1], state); }
    case _ => PendingIsASave(h[..|h| - 1], state);
  }

  /** The pending save, while it is younger than the TTL. */
  ghost function LiveSave(ttl: Float, h: seq<Op>, state: Text, now: real): Option<LoginState> {
    match Pending(h, state)
    case None => None
    case Some(i) => (PendingIsASave(h, state); if !AtMost(Plus(ttl, h[i].at), now) then Some(h[i].entry) else None)
  }

  ghost predicate Agrees(ttl: Float, h: seq<Op>, held: Held, state: Text, now: real) {
    if state in held then
      Pending(h, state).Some? &&
      (PendingIsASave(h, state);
       var i := Pending(h, state).value;
       held[state] == (h[i].entry, Plus(ttl, h[i].at)))
    else
      Pending(h, state).Some? ==> (PendingIsASave(h, state); AtMost(Plus(ttl, h[Pending(h, state).value].at), now))
  }

  lemma {:induction false} StoreAgrees(ttl: Float, h: seq<Op>, state: Text, now: real)
    requires Monotone(h, now)
    ensures Agrees(ttl, h, After(ttl, h), state, now)
  {
    if h == [] {
    } else {
      var init, op := h[..|h| - 1], h[|h| - 1];
      StoreAgrees(ttl, init, state, if op.Save? then op.sweepAt else op.at);
      if Pending(init, state).Some? {
        PendingIsASave(init, state);
        assert init[Pending(init, state).value] == h[Pending(init, state).value];
      }
    }
  }

  /** The swept store is an unswept timed map: after any history with a monotone clock, `consume` returns the latest
      save under that state exactly when it is unconsumed and younger than the TTL, which is at most 600 s. */
  lemma ConsumeReturnsTheLiveSave(requestedTtl: Float, h: seq<Op>, state: Text, now: real)
    requires Monotone(h, now)
    ensures ConsumeResult(After(EffectiveTtl(requestedTtl), h), state, now) ==
            LiveSave(EffectiveTtl(requestedTtl), h, state, now)
    ensures !Above(EffectiveTtl(requestedTtl), 600.0)
  {
    StoreAgrees(EffectiveTtl(requestedTtl), h, state, now);
    if Pending(h, state).Some? { PendingIsASave(h, state); }
  }

  /** A save no consume has taken is live exactly when it is younger than the smaller of the requested TTL and 600 s;
      if that TTL is a NaN, for ever. */
  lemma LiveExactlyWhenYoung(requestedTtl: Float, h: seq<Op>, state: Text, now: real)
    requires Monotone(h, now) && Pending(h, state).Some?
    ensures Pending(h, state).value < |h| && h[Pending(h, state).value].Save?
    ensures var age := now - h[Pending(h, state).value].at;
            LiveSave(EffectiveTtl(requestedTtl), h, state, now).Some? <==>
              match requestedTtl
              case Finite(ttl) => age < ttl && age < 600.0
              case Infinite(positive) => positive && age < 600.0
              case NaN => true
  {
    PendingIsASave(h, state);
  }

  /** `size` counts exactly the states whose save is still live. */
  lemma SizeCountsLiveSaves(requestedTtl: Float, h: seq<Op>, now: real, states: set<Text>)
    requires Monotone(h, now)
    requires forall s :: s in states <==> LiveSave(EffectiveTtl(requestedTtl), h, s, now).Some?
    ensures |Sweep(After(EffectiveTtl(requestedTtl), h), now)| == |states|
  {
    var swept := Sweep(After(EffectiveTtl(requestedTtl), h), now);
    forall s ensures s in swept <==> s in states {
      StoreAgrees(EffectiveTtl(requestedTtl), h, s, now);
      if Pending(h, s).Some? { PendingIsASave(h, s); }
    }
    assert swept.Keys == states;
  }

  // ---- Single use -------------------------------------------------------------------------------------------------

  lemma {:induction false} PendingIsFresh(h: seq<Op>, i: nat, state: Text)
    requires i < |h| && h[i] == Consume(state, h[i].at)
    ensures Pending(h, state).Some? ==> Pending(h, state).value > i
  {
    if i < |h| - 1 {
      PendingIsFresh(h[..|h| - 1], i, state);
    }
  }

  /** No save is returned twice: the save a consume returns was made after every earlier consume of that state. */
  lemma {:induction false} EachSaveReturnedOnce(requestedTtl: Float, h: seq<Op>, i: nat, state: Text, now: real)
    requires Monotone(h, now) && i < |h| && h[i] == Consume(state, h[i].at)
    requires ConsumeResult(After(EffectiveTtl(requestedTtl), h), state, now).Some?
    ensures Pending(h, state).Some? && i < Pending(h, state).value < |h| && h[Pending(h, state).value].Save? &&
            h[Pending(h, state).value].entry == ConsumeResult(After(EffectiveTtl(requestedTtl), h), state, now).value
  {
    ConsumeReturnsTheLiveSave(requestedTtl, h, state, now);
    PendingIsASave(h, state);
    PendingIsFresh(h, i, state);
  }
}
