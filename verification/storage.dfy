/** The seven-day cache in front of the benchmark fetch (src/storage.js).
    The extension's local storage area is a map from keys to entries, and
    the clock reading `Date.now()` is the parameter `now` (milliseconds). */
module Storage {
  import opened Wrappers

  /** `TTL_MS`: seven days in milliseconds. */
  const TtlMs: int := 7 * 24 * 60 * 60 * 1000

  datatype CacheEntry<P> = CacheEntry(timestamp: int, payload: P)

  type Store<P> = map<string, CacheEntry<P>>

  /** An entry written at `timestamp` is still served at `now`: its age is
      at most the time to live. An entry from the future (negative age) is
      fresh. */
  predicate IsFresh(timestamp: int, now: int)
  {
    now - timestamp <= TtlMs
  }

  /** `getCached(key)` at time `now`. */
  function GetCached<P>(store: Store<P>, key: string, now: int): (r: Option<P>)
    ensures key !in store ==> r.None?
    ensures key in store ==> (r.Some? <==> now <= store[key].timestamp + 604_800_000)
    ensures r.Some? ==> key in store && r.value == store[key].payload
  {
    if key !in store then None
    else if !IsFresh(store[key].timestamp, now) then None
    else Some(store[key].payload)
  }

  /** `setCached(key, payload)` at time `now`. */
  function SetCached<P>(store: Store<P>, key: string, payload: P, now: int): (r: Store<P>)
    ensures key in r && r[key] == CacheEntry(now, payload)
    ensures r.Keys == store.Keys + {key}
    ensures forall k :: k in store && k != key ==> r[k] == store[k]
  {
    store[key := CacheEntry(now, payload)]
  }

  /** A value stored at time `t` is read back at any time up to seven days
      later, and at any earlier time; it is gone once more than seven days
      have passed. */
  lemma SetThenGet<P>(store: Store<P>, key: string, p: P, t: int, now: int)
    ensures GetCached(SetCached(store, key, p, t), key, now) ==
      if now - t <= TtlMs then Some(p) else None
  {
  }

  /** Reading straight after writing gives the value written. */
  lemma SetThenGetAtOnce<P>(store: Store<P>, key: string, p: P, t: int)
    ensures GetCached(SetCached(store, key, p, t), key, t) == Some(p)
  {
    SetThenGet(store, key, p, t, t);
  }

  /** Writing one key leaves what every other key reads unchanged. */
  lemma SetLeavesOthers<P>(store: Store<P>, key: string, p: P, t: int, other: string, now: int)
    requires other != key
    ensures GetCached(SetCached(store, key, p, t), other, now) == GetCached(store, other, now)
  {
  }

  /** Once an entry has gone stale it stays stale. */
  lemma StaleStaysStale<P>(store: Store<P>, key: string, now: int, later: int)
    requires now <= later
    requires key in store && GetCached(store, key, now).None?
    ensures GetCached(store, key, later).None?
  {
  }

  /** The window edges: exactly seven days old is served, one millisecond
      more is not, and eight days old is not. */
  lemma FreshnessBoundary<P>(store: Store<P>, key: string, p: P, t: int)
    ensures GetCached(SetCached(store, key, p, t), key, t + 604_800_000) == Some(p)
    ensures GetCached(SetCached(store, key, p, t), key, t + 604_800_001).None?
    ensures GetCached(SetCached(store, key, p, t), key, t + 8 * 86_400_000).None?
    ensures GetCached(SetCached(store, key, p, t), key, t - 1) == Some(p)
  {
  }
}
