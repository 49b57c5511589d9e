/** The decision memo: a TTL-clamped, bounded, insertion-ordered map. Its contents are a function of the
    calls made on it, and what `get` answers is characterised by that history alone. */
module DecisionMemos {
  import opened Wrappers
  import opened Floats
  import opened Texts

  const MAX_TTL_MS := 5000.0
  const MAX_ENTRIES: nat := 1024

  datatype Entry<V> = Entry(key: Text, decision: V, storedAt: real)

  /** `min(max(ttl, 0), 5000)`. A NaN survives the clamp, and disables the memo as a 0 does: it is not above 0. */
  function ClampTtl(requested: Float): real {
    match requested
    case Finite(ms) => if ms < 0.0 then 0.0 else if MAX_TTL_MS < ms then MAX_TTL_MS else ms
    case Infinite(positive) => if positive then MAX_TTL_MS else 0.0
    case NaN => 0.0
  }

  // ---- The ordered dictionary -----------------------------------------------------------------

  function Lookup<V>(es: seq<Entry<V>>, key: Text): Option<Entry<V>> {
    if es == [] then None
    else if es[|es| - 1].key == key then Some(es[|es| - 1])
    else Lookup(es[..|es| - 1], key)
  }

  function Without<V>(es: seq<Entry<V>>, key: Text): seq<Entry<V>> {
    if es == [] then []
    else if es[|es| - 1].key == key then Without(es[..|es| - 1], key)
    else Without(es[..|es| - 1], key) + [es[|es| - 1]]
  }

  // ---- The operations ---------------------------------------------------------------------------

  predicate Expired<V>(ttlMs: real, e: Entry<V>, now: real) { (now - e.storedAt) * 1000.0 >= ttlMs }

  function GetResult<V>(ttlMs: real, es: seq<Entry<V>>, key: Text, now: real): Option<V> {
    if !(ttlMs > 0.0) then None
    else
      match Lookup(es, key)
      case None => None
      case Some(e) => if Expired(ttlMs, e, now) then None else Some(e.decision)
  }

  function AfterGet<V>(ttlMs: real, es: seq<Entry<V>>, key: Text, now: real): seq<Entry<V>> {
    if ttlMs > 0.0 && Lookup(es, key).Some? && Expired(ttlMs, Lookup(es, key).value, now) then Without(es, key) else es
  }

  function Newest<V>(es: seq<Entry<V>>): seq<Entry<V>> {
    if |es| > MAX_ENTRIES then es[|es| - MAX_ENTRIES..] else es
  }

  function AfterSet<V>(ttlMs: real, es: seq<Entry<V>>, key: Text, decision: V, now: real): seq<Entry<V>> {
    if !(ttlMs > 0.0) then es else Newest(Without(es, key) + [Entry(key, decision, now)])
  }

  class DecisionMemo<V> {
    const ttlMs: real
    var entries: seq<Entry<V>>

    constructor (requestedMs: Float)
      ensures ttlMs == ClampTtl(requestedMs) && entries == []
    {
      ttlMs := ClampTtl(requestedMs);
      entries := [];
    }

    method Get(key: Text, now: real) returns (r: Option<V>)
      modifies this
      ensures r == GetResult(ttlMs, old(entries), key, now)
      ensures entries == AfterGet(ttlMs, old(entries), key, now)
    {
      if !(ttlMs > 0.0) { return None; }
      var entry := Lookup(entries, key);
      if entry.None? { return None; }
      if (now - entry.value.storedAt) * 1000.0 >= ttlMs {
        entries := Without(entries, key);
        return None;
      }
      return Some(entry.value.decision);
    }

    method Set(key: Text, decision: V, now: real)
      modifies this
      ensures entries == AfterSet(ttlMs, old(entries), key, decision, now)
    {
      if !(ttlMs > 0.0) { return; }
      entries := Without(entries, key) + [Entry(key, decision, now)];
      ghost var all := entries;
      while |entries| > MAX_ENTRIES
        invariant |entries| <= |all| && entries == all[|all| - |entries|..]
        invariant |entries| >= MAX_ENTRIES || entries == all
        decreases |entries|
      {
        entries := entries[1..];
      }
    }

    method Clear()
      modifies this
      ensures entries == []
    {
      entries := [];
    }
  }

  // ---- Histories ----------------------------------------------------------------------------------

  datatype Op<V> = Get(key: Text, at: real) | Set(key: Text, decision: V, at: real) | Clear

  function After<V>(ttlMs: real, h: seq<Op<V>>): seq<Entry<V>> {
    if h == [] then []
    else
      var es := After(ttlMs, h[..|h| - 1]);
      match h[|h| - 1]
      case Get(k, t) => AfterGet(ttlMs, es, k, t)
      case Set(k, d, t) => AfterSet(ttlMs, es, k, d, t)
      case Clear => []
  }

  /** The clock readings of a history, in order, none below the one before and none above `now`. */
  ghost predicate Monotone<V>(h: seq<Op<V>>, now: real) {
    h == [] ||
    match h[|h| - 1]
    case Clear => Monotone(h[..|h| - 1], now)
    case op => op.at <= now && Monotone(h[..|h| - 1], op.at)
  }

  /** The decision last set under `key` since the last clear, and when. */
  ghost function LastSet<V>(h: seq<Op<V>>, key: Text): Option<(V, real)> {
    if h == [] then None
    else
      match h[|h| - 1]
      case Get(_, _) => LastSet(h[..|h| - 1], key)
      case Set(k, d, t) => if k == key then Some((d, t)) else LastSet(h[..|h| - 1], key)
      case Clear => None
  }

  /** The other keys set since then. */
  ghost function OthersSetSince<V>(h: seq<Op<V>>, key: Text): set<Text> {
    if h == [] then {}
    else
      match h[|h| - 1]
      case Get(_, _) => OthersSetSince(h[..|h| - 1], key)
      case Set(k, _, _) => if k == key then {} else OthersSetSince(h[..|h| - 1], key) + {k}
      case Clear => {}
  }

  /** What `get` ought to answer: the last decision set, if it is younger than the TTL and fewer than
      1024 other keys were set after it. */
  ghost function Remembered<V>(ttlMs: real, h: seq<Op<V>>, key: Text, now: real): Option<V> {
    match LastSet(h, key)
    case None => None
    case Some((d, t)) =>
      if (now - t) * 1000.0 < ttlMs && |OthersSetSince(h, key)| < MAX_ENTRIES then Some(d) else None
  }

  // ---- The invariant ------------------------------------------------------------------------------

  ghost function Keys<V>(es: seq<Entry<V>>): set<Text> { set e | e in es :: e.key }

  ghost function KeysAfter<V>(es: seq<Entry<V>>, key: Text): set<Text> {
    if es == [] then {}
    else if es[|es| - 1].key == key then {}
    else KeysAfter(es[..|es| - 1], key) + {es[|es| - 1].key}
  }

  /** One entry per key, in the order they were stored. */
  ghost predicate InOrder<V>(es: seq<Entry<V>>, now: real) {
    (forall i, j | 0 <= i < j < |es| :: es[i].key != es[j].key && es[i].storedAt <= es[j].storedAt) &&
    (forall i | 0 <= i < |es| :: es[i].storedAt <= now)
  }

  /** At most 1024 entries, in order. */
  ghost predicate Tidy<V>(es: seq<Entry<V>>, now: real) { |es| <= MAX_ENTRIES && InOrder(es, now) }

  ghost predicate Faithful<V>(ttlMs: real, h: seq<Op<V>>, es: seq<Entry<V>>, now: real, key: Text) {
    match Lookup(es, key)
    case Some(e) =>
      LastSet(h, key) == Some((e.decision, e.storedAt)) &&
      (!Expired(ttlMs, e, now) ==> OthersSetSince(h, key) == KeysAfter(es, key))
    case None =>
      LastSet(h, key).Some? && (now - LastSet(h, key).value.1) * 1000.0 < ttlMs ==>
        |OthersSetSince(h, key)| >= MAX_ENTRIES
  }

  lemma {:induction false} LookupFinds<V>(es: seq<Entry<V>>, key: Text)
    ensures Lookup(es, key).Some? ==> Lookup(es, key).value in es && Lookup(es, key).value.key == key
    ensures Lookup(es, key).None? ==> forall e | e in es :: e.key != key
  {
    if es == [] {
    } else {
      LookupFinds(es[..|es| - 1], key);
      assert es == es[..|es| - 1] + [es[|es| - 1]];
    }
  }

  lemma {:induction false} WithoutIsTidy<V>(es: seq<Entry<V>>, key: Text, now: real)
    requires Tidy(es, now)
    ensures Tidy(Without(es, key), now) && |Without(es, key)| <= |es|
    ensures forall e | e in Without(es, key) :: e in es && e.key != key
  {
    if es == [] {
    } else {
      WithoutIsTidy(es[..|es| - 1], key, now);
    }
  }

  lemma {:induction false} WithoutKeepsOthers<V>(es: seq<Entry<V>>, key: Text, x: Text)
    ensures Lookup(Without(es, key), x) == if x == key then None else Lookup(es, x)
    ensures x != key ==> KeysAfter(Without(es, key), x) == KeysAfter(es, x) - {key}
  {
    if es == [] {
    } else {
      var init, last := es[..|es| - 1], es[|es| - 1];
      WithoutKeepsOthers(init, key, x);
      if last.key != key {
        assert (Without(init, key) + [last])[..|Without(init, key)|] == Without(init, key);
      }
    }
  }

  lemma {:induction false} KeysAfterBound<V>(es: seq<Entry<V>>, key: Text, now: real)
    requires forall i, j | 0 <= i < j < |es| :: es[i].key != es[j].key
    ensures |KeysAfter(es, key)| <= |es|
    ensures Lookup(es, key).Some? ==> |KeysAfter(es, key)| < |es|
    ensures KeysAfter(es, key) <= Keys(es)
    ensures es != [] && es[0].key == key ==> |KeysAfter(es, key)| == |es| - 1
  {
    if es == [] {
    } else {
      var init, last := es[..|es| - 1], es[|es| - 1];
      KeysAfterBound(init, key, now);
      assert forall e | e in init :: e in es;
      assert last in es;
      if |es| > 1 && es[0].key == key {
        assert last.key !in KeysAfter(init, key);
      }
    }
  }

  /** A key stored after another one is there, and not older. */
  lemma {:induction false} LaterIsNewer<V>(es: seq<Entry<V>>, x: Text, key: Text, now: real)
    requires Tidy(es, now) && Lookup(es, x).Some? && key in KeysAfter(es, x)
    ensures Lookup(es, key).Some? && Lookup(es, x).value.storedAt <= Lookup(es, key).value.storedAt
  {
    var init, last := es[..|es| - 1], es[|es| - 1];
    LookupFinds(init, x);
    if last.key != key {
      LaterIsNewer(init, x, key, now);
    }
  }

  lemma {:induction false} DropOldest<V>(es: seq<Entry<V>>, x: Text)
    requires es != [] && forall i, j | 0 <= i < j < |es| :: es[i].key != es[j].key
    ensures Lookup(es[1..], x) == if x == es[0].key then None else Lookup(es, x)
    ensures Lookup(es[1..], x).Some? ==> KeysAfter(es[1..], x) == KeysAfter(es, x)
  {
    if |es| > 1 {
      var init := es[..|es| - 1];
      DropOldest(init, x);
      assert es[1..][..|es| - 2] == init[1..];
      assert es[1..][|es| - 2] == es[|es| - 1];
    }
  }

  // ---- The theorem ------------------------------------------------------------------------------------

  lemma GetKeepsFaith<V>(ttlMs: real, h: seq<Op<V>>, es: seq<Entry<V>>, key: Text, t: real, x: Text)
    requires ttlMs > 0.0 && Tidy(es, t) && Faithful(ttlMs, h, es, t, x)
    ensures Faithful(ttlMs, h + [Get(key, t)], AfterGet(ttlMs, es, key, t), t, x)
  {
    assert (h + [Get(key, t)])[..|h|] == h;
    if AfterGet(ttlMs, es, key, t) != es {
      WithoutKeepsOthers(es, key, x);
      if x != key && Lookup(es, x).Some? && !Expired(ttlMs, Lookup(es, x).value, t) && key in KeysAfter(es, x) {
        LaterIsNewer(es, x, key, t);
      }
    }
  }

  lemma OneMore(s: set<Text>, k: Text)
    ensures |s| <= |s + {k}| <= |s| + 1
  {
    if k in s { assert s + {k} == s; }
  }

  /** Storing, before anything is evicted. */
  lemma AppendKeepsFaith<V>(ttlMs: real, h: seq<Op<V>>, es: seq<Entry<V>>, key: Text, d: V, t: real, x: Text)
    requires ttlMs > 0.0 && Faithful(ttlMs, h, es, t, x)
    ensures Faithful(ttlMs, h + [Set(key, d, t)], Without(es, key) + [Entry(key, d, t)], t, x)
  {
    assert (h + [Set(key, d, t)])[..|h|] == h;
    WithoutKeepsOthers(es, key, x);
    var all := Without(es, key) + [Entry(key, d, t)];
    assert all[..|all| - 1] == Without(es, key);
    assert x != key ==> OthersSetSince(h + [Set(key, d, t)], x) == OthersSetSince(h, x) + {key};
    OneMore(OthersSetSince(h, x), key);
  }

  lemma EvictKeepsFaith<V>(ttlMs: real, h: seq<Op<V>>, all: seq<Entry<V>>, t: real, x: Text)
    requires ttlMs > 0.0 && Faithful(ttlMs, h, all, t, x) && |all| == MAX_ENTRIES + 1
    requires forall i, j | 0 <= i < j < |all| :: all[i].key != all[j].key
    ensures Faithful(ttlMs, h, all[1..], t, x)
  {
    DropOldest(all, x);
    if x == all[0].key {
      KeysAfterBound(all, x, t);
      LookupFinds(all, x);
    }
  }

  lemma AppendInOrder<V>(es: seq<Entry<V>>, e: Entry<V>)
    requires InOrder(es, e.storedAt) && forall x | x in es :: x.key != e.key
    ensures InOrder(es + [e], e.storedAt)
  {}

  lemma DropInOrder<V>(es: seq<Entry<V>>, t: real)
    requires es != [] && InOrder(es, t)
    ensures InOrder(es[1..], t)
  {}

  lemma NewestOf<V>(all: seq<Entry<V>>, last: Entry<V>)
    requires all != [] && all[|all| - 1] == last && |all| <= MAX_ENTRIES + 1
    ensures Newest(all) == if |all| <= MAX_ENTRIES then all else all[1..]
    ensures Newest(all) != [] && Newest(all)[|Newest(all)| - 1] == last
  {}

  lemma LookupLast<V>(es: seq<Entry<V>>)
    requires es != []
    ensures Lookup(es, es[|es| - 1].key) == Some(es[|es| - 1])
  {}

  lemma SetIsTidy<V>(ttlMs: real, es: seq<Entry<V>>, key: Text, d: V, t: real)
    requires Tidy(es, t)
    ensures Tidy(AfterSet(ttlMs, es, key, d, t), t)
    ensures ttlMs > 0.0 ==> Lookup(AfterSet(ttlMs, es, key, d, t), key) == Some(Entry(key, d, t))
  {
    if ttlMs > 0.0 {
      var kept, e := Without(es, key), Entry(key, d, t);
      WithoutIsTidy(es, key, t);
      AppendInOrder(kept, e);
      NewestOf(kept + [e], e);
      DropInOrder(kept + [e], t);
      LookupLast(Newest(kept + [e]));
    }
  }

  lemma SetKeepsFaith<V>(ttlMs: real, h: seq<Op<V>>, es: seq<Entry<V>>, key: Text, d: V, t: real, x: Text)
    requires ttlMs > 0.0 && Tidy(es, t) && Faithful(ttlMs, h, es, t, x)
    ensures Faithful(ttlMs, h + [Set(key, d, t)], AfterSet(ttlMs, es, key, d, t), t, x)
  {
    WithoutIsTidy(es, key, t);
    AppendKeepsFaith(ttlMs, h, es, key, d, t, x);
    var all := Without(es, key) + [Entry(key, d, t)];
    if |all| > MAX_ENTRIES {
      EvictKeepsFaith(ttlMs, h + [Set(key, d, t)], all, t, x);
    }
  }

  lemma FaithLasts<V>(ttlMs: real, h: seq<Op<V>>, es: seq<Entry<V>>, s: real, t: real, x: Text)
    requires s <= t && Faithful(ttlMs, h, es, s, x)
    ensures Faithful(ttlMs, h, es, t, x)
  {}

  lemma {:induction false} AlwaysFaithful<V>(ttlMs: real, h: seq<Op<V>>, now: real, x: Text)
    requires ttlMs > 0.0 && Monotone(h, now)
    ensures Tidy(After(ttlMs, h), now) && Faithful(ttlMs, h, After(ttlMs, h), now, x)
  {
    if h == [] {
    } else {
      var init, last := h[..|h| - 1], h[|h| - 1];
      assert h == init + [last];
      var es := After(ttlMs, init);
      match last
      case Get(k, t) =>
        AlwaysFaithful(ttlMs, init, t, x);
        GetKeepsFaith(ttlMs, init, es, k, t, x);
        WithoutIsTidy(es, k, t);
        FaithLasts(ttlMs, h, After(ttlMs, h), t, now, x);
      case Set(k, d, t) =>
        AlwaysFaithful(ttlMs, init, t, x);
        SetKeepsFaith(ttlMs, init, es, k, d, t, x);
        SetIsTidy(ttlMs, es, k, d, t);
        FaithLasts(ttlMs, h, After(ttlMs, h), t, now, x);
      case Clear =>
    }
  }

  /** The memo is exact: after any history with a monotone clock, `get` answers a decision if and only if it
      is the last one set under that key since the last clear, it is younger than the clamped TTL, and fewer
      than 1024 other keys have been set after it. */
  lemma GetAnswersWhatHistoryRemembers<V>(requestedMs: Float, h: seq<Op<V>>, key: Text, now: real)
    requires ClampTtl(requestedMs) > 0.0 && Monotone(h, now)
    ensures GetResult(ClampTtl(requestedMs), After(ClampTtl(requestedMs), h), key, now)
            == Remembered(ClampTtl(requestedMs), h, key, now)
  {
    var ttlMs := ClampTtl(requestedMs);
    var es := After(ttlMs, h);
    AlwaysFaithful(ttlMs, h, now, key);
    KeysAfterBound(es, key, now);
  }

  /** The entries themselves: at most 1024, one per key, in store order, and none when disabled. */
  lemma EntriesStayTidy<V>(requestedMs: Float, h: seq<Op<V>>, now: real)
    requires Monotone(h, now)
    ensures Tidy(After(ClampTtl(requestedMs), h), now)
    ensures ClampTtl(requestedMs) == 0.0 ==> After(ClampTtl(requestedMs), h) == []
  {
    if ClampTtl(requestedMs) > 0.0 {
      AlwaysFaithful(ClampTtl(requestedMs), h, now, []);
    } else {
      DisabledStaysEmpty(ClampTtl(requestedMs), h);
    }
  }

  lemma DisabledStaysEmpty<V>(ttlMs: real, h: seq<Op<V>>)
    requires ttlMs == 0.0
    ensures After(ttlMs, h) == []
  {}
}
