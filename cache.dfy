/** CacheService: a general cache whose entries live until the next whole hour
    of the clock unless the caller gives a TTL, and which an hourly timer
    empties. The local time zone is taken to be a whole number of hours away
    from UTC, so the next local hour starts at the next multiple of an hour of
    the millisecond clock. */
module Cache {
  import opened Common
  import opened NodeCache

  const HourMs: nat := 3600000

  /** `nextHour - now.getTime()`: milliseconds from nowMs to the start of the
      next hour. At an exact hour boundary that is a full hour. */
  function MsToNextHour(nowMs: nat): (ms: int)
    ensures 0 < ms <= HourMs
    ensures (nowMs + ms) % HourMs == 0
    ensures forall t :: nowMs < t < nowMs + ms ==> t % HourMs != 0
  {
    var ms := HourMs - nowMs % HourMs;
    NextHourIsNext(nowMs, ms);
    ms
  }

  lemma NextHourIsNext(nowMs: nat, ms: int)
    requires ms == HourMs - nowMs % HourMs
    ensures (nowMs + ms) % HourMs == 0
    ensures forall t :: nowMs < t < nowMs + ms ==> t % HourMs != 0
  {
    var base := nowMs - nowMs % HourMs;
    assert base % HourMs == 0 && nowMs + ms == base + HourMs;
    forall t | nowMs < t < nowMs + ms ensures t % HourMs != 0 {
      assert base < t < base + HourMs;
    }
  }

  /** `ttl || expirationTime`, in milliseconds: a truthy ttl (seconds) wins;
      an absent or zero ttl falls back to the time to the next hour. */
  function EffectiveTtlMs(ttl: Option<int>, nowMs: nat): (ms: int)
    ensures ttl.Some? && ttl.value != 0 ==> ms == ttl.value * 1000
    ensures ttl.None? || ttl.value == 0 ==> ms == MsToNextHour(nowMs) && 0 < ms <= HourMs
  {
    if ttl.Some? && ttl.value != 0 then ttl.value * 1000 else MsToNextHour(nowMs)
  }

  /** `generateCacheKey`: the key is the argument itself. */
  function GenerateCacheKey(userId: string): (key: string)
    ensures key == userId
  {
    userId
  }

  /** A value set without a TTL can be read until the next hour starts, and a
      value set with a TTL until that many seconds have passed. */
  lemma GetAfterSet<V>(store: Store<V>, key: string, value: V, ttl: Option<int>, nowMs: nat, laterMs: nat)
    requires laterMs <= nowMs + EffectiveTtlMs(ttl, nowMs)
    ensures Get(Put(store, key, value, EffectiveTtlMs(ttl, nowMs), nowMs), key, laterMs) == Some(value)
  {
  }

  class CacheService<V> {
    var cache: Store<V>

    constructor ()
      ensures cache == map[]
    {
      cache := map[];
    }

    method Set(key: string, value: V, ttl: Option<int>, nowMs: nat)
      modifies this
      ensures cache == Put(old(cache), key, value, EffectiveTtlMs(ttl, nowMs), nowMs)
    {
      var expirationTime := MsToNextHour(nowMs);
      var ttlMs := if ttl.Some? && ttl.value != 0 then ttl.value * 1000 else expirationTime;
      cache := Put(cache, key, value, ttlMs, nowMs);
    }

    function Get(key: string, nowMs: nat): (r: Option<V>)
      reads this
      ensures r.Some? <==> key in cache && nowMs <= cache[key].expiresAt
      ensures r.Some? ==> r.value == cache[key].value
    {
      NodeCache.Get(cache, key, nowMs)
    }

    method Invalidate(key: string)
      modifies this
      ensures cache == Del(old(cache), key)
    {
      cache := Del(cache, key);
    }

    /** The body of the hourly timer callback: `flushAll()`. */
    method FlushAll()
      modifies this
      ensures cache == map[]
      ensures forall key, nowMs: nat :: Get(key, nowMs).None?
    {
      cache := map[];
    }
  }
}
