/** The single-use store behind DPoP replay protection: a map from `jti` to expiry, pruned when it grows. */
module JtiStores {
  import opened Wrappers
  import opened Floats
  import opened Texts

  const PRUNE_ABOVE := 128

  type Seen = map<Text, Float>

  function Prune(seen: Seen, now: real): Seen {
    if |seen| > PRUNE_ABOVE then map k | k in seen && Above(seen[k], now) :: seen[k] else seen
  }

  /** `_seen.get(jti, 0.0) > now` */
  predicate Holds(seen: Seen, jti: Text, now: real) {
    if jti in seen then Above(seen[jti], now) else 0.0 > now
  }

  function AfterClaim(seen: Seen, jti: Text, expiresAt: Float, now: real): Seen {
    var pruned := Prune(seen, now);
    if Holds(pruned, jti, now) then pruned else pruned[jti := expiresAt]
  }

  class InMemoryJtiStore {
    var seen: Seen

    constructor ()
      ensures seen == map[]
    {
      seen := map[];
    }

    /** True for the first sighting, False for a replay. */
    method Claim(jti: Text, expiresAt: Float, now: real) returns (first: bool)
      modifies this
      ensures first <==> !Holds(Prune(old(seen), now), jti, now)
      ensures seen == AfterClaim(old(seen), jti, expiresAt, now)
    {
      if |seen| > PRUNE_ABOVE {
        seen := map k | k in seen && Above(seen[k], now) :: seen[k];
      }
      if Above(if jti in seen then seen[jti] else Finite(0.0), now) { return false; }
      seen := seen[jti := expiresAt];
      return true;
    }
  }

  // ---- Histories --------------------------------------------------------------------------------------

  datatype Claim = Claim(jti: Text, expiresAt: Float, at: real)

  function After(h: seq<Claim>): Seen {
    if h == [] then map[]
    else var c := h[|h| - 1]; AfterClaim(After(h[..|h| - 1]), c.jti, c.expiresAt, c.at)
  }

  function Answer(seen: Seen, c: Claim): bool { !Holds(Prune(seen, c.at), c.jti, c.at) }

  /** Clock readings that never go back, from a clock that never reads below zero. */
  ghost predicate Monotone(h: seq<Claim>, now: real) {
    now >= 0.0 && (h != [] ==> h[|h| - 1].at <= now && Monotone(h[..|h| - 1], h[|h| - 1].at))
  }

  ghost predicate Unexpired(granted: Option<Float>, now: real) { granted.Some? && Above(granted.value, now) }

  /** The expiry of the last claim of `jti` that was answered True, read off the history alone. */
  ghost function LastGranted(h: seq<Claim>, jti: Text): Option<Float> {
    if h == [] then None
    else
      var c := h[|h| - 1];
      var before := LastGranted(h[..|h| - 1], jti);
      if c.jti != jti || Unexpired(before, c.at) then before else Some(c.expiresAt)
  }

  /** The store that is never pruned. */
  ghost function NeverPruned(h: seq<Claim>): Seen {
    if h == [] then map[]
    else
      var c, seen := h[|h| - 1], NeverPruned(h[..|h| - 1]);
      if Holds(seen, c.jti, c.at) then seen else seen[c.jti := c.expiresAt]
  }

  /** The store and the history agree about a `jti` at every instant from `now` on. */
  ghost predicate Agrees(seen: Seen, granted: Option<Float>, jti: Text, now: real) {
    if jti in seen then granted == Some(seen[jti]) else !Unexpired(granted, now)
  }

  lemma {:induction false} StoreAgrees(h: seq<Claim>, jti: Text, now: real)
    requires Monotone(h, now)
    ensures Agrees(After(h), LastGranted(h, jti), jti, now)
    ensures LastGranted(h, jti) == if jti in NeverPruned(h) then Some(NeverPruned(h)[jti]) else None
  {
    if h == [] {
    } else {
      StoreAgrees(h[..|h| - 1], jti, h[|h| - 1].at);
    }
  }

  /** Pruning cannot be observed: after any history with a monotone clock, a claim is answered as a store that is
      never pruned would answer it, and it is refused exactly when the expiry of the last granted claim of its `jti`
      compares above the clock, which a NaN never does. */
  lemma PruningIsUnobservable(h: seq<Claim>, c: Claim)
    requires Monotone(h + [c], c.at)
    ensures Answer(After(h), c) <==> !Holds(NeverPruned(h), c.jti, c.at)
    ensures !Answer(After(h), c) <==> Unexpired(LastGranted(h, c.jti), c.at)
  {
    assert (h + [c])[..|h|] == h;
    MonotoneUntil(h, c.at);
    StoreAgrees(h, c.jti, c.at);
  }

  lemma MonotoneUntil(h: seq<Claim>, now: real)
    requires Monotone(h, now)
    ensures now >= 0.0 && (h != [] ==> h[|h| - 1].at <= now)
  {}

  /** Once granted, a claim stays the last granted one of its `jti`, whatever else is claimed, until it expires. */
  lemma {:induction false} GrantedClaimsStayRefused(h: seq<Claim>, g: seq<Claim>, c: Claim, now: real)
    requires Monotone(h + [c] + g, now) && Answer(After(h), c)
    ensures Above(c.expiresAt, now) ==> LastGranted(h + [c] + g, c.jti) == Some(c.expiresAt)
  {
    if g == [] {
      assert (h + [c] + g)[..|h|] == h && (h + [c] + g)[|h|] == c;
      PruningIsUnobservable(h, c);
    } else {
      var all := h + [c] + g;
      assert all[..|all| - 1] == h + [c] + g[..|g| - 1];
      GrantedClaimsStayRefused(h, g[..|g| - 1], c, all[|all| - 1].at);
    }
  }

  /** A `jti` that is only ever claimed with a NaN expiry is granted every time. */
  lemma {:induction false} NaNExpiriesHoldNothing(h: seq<Claim>, jti: Text)
    requires forall i | 0 <= i < |h| && h[i].jti == jti :: h[i].expiresAt.NaN?
    ensures LastGranted(h, jti).Some? ==> LastGranted(h, jti).value.NaN?
  {
    if h == [] {
    } else {
      NaNExpiriesHoldNothing(h[..|h| - 1], jti);
    }
  }
}
