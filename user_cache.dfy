/** UserCacheService: user snapshots cached under "user_" followed by the
    caller's key (the username, for every caller here), each living one day
    (node-cache's stdTTL of 86400 seconds). */
module UserCache {
  import opened Common
  import opened Users
  import opened NodeCache

  const StdTtlSeconds: nat := 86400
  const StdTtlMs: nat := StdTtlSeconds * 1000
  const KeyPrefix := "user_"

  /** `generateCacheKey`: the template literal `user_${cacheKey}`. */
  function GenerateCacheKey(cacheKey: string): (key: string)
    ensures |key| == |KeyPrefix| + |cacheKey| && key[..|KeyPrefix|] == KeyPrefix
    ensures key[|KeyPrefix|..] == cacheKey
  {
    KeyPrefix + cacheKey
  }

  /** Distinct usernames never share a cache slot. */
  lemma GenerateCacheKeyInjective(a: string, b: string)
    requires GenerateCacheKey(a) == GenerateCacheKey(b)
    ensures a == b
  {
    calc {
      a;
      GenerateCacheKey(a)[|KeyPrefix|..];
      GenerateCacheKey(b)[|KeyPrefix|..];
      b;
    }
  }

  /** `setUserCache` on the store value. */
  function CacheUser(cache: Store<User>, cacheKey: string, data: User, nowMs: nat): (c: Store<User>)
    ensures c == Put(cache, GenerateCacheKey(cacheKey), data, StdTtlMs, nowMs)
  {
    Put(cache, GenerateCacheKey(cacheKey), data, StdTtlMs, nowMs)
  }

  /** `getUserCache` on the store value. */
  function CachedUser(cache: Store<User>, cacheKey: string, nowMs: nat): (r: Option<User>)
    ensures r == Get(cache, GenerateCacheKey(cacheKey), nowMs)
  {
    Get(cache, GenerateCacheKey(cacheKey), nowMs)
  }

  /** `invalidateUserCache` on the store value. */
  function EvictUser(cache: Store<User>, cacheKey: string): (c: Store<User>)
    ensures c == Del(cache, GenerateCacheKey(cacheKey))
  {
    Del(cache, GenerateCacheKey(cacheKey))
  }

  /** A snapshot set at nowMs reads back for exactly one day; a later set
      of the same key overwrites it. */
  lemma GetUserCacheAfterSet(cache: Store<User>, cacheKey: string, data: User, nowMs: nat, laterMs: nat)
    ensures CachedUser(CacheUser(cache, cacheKey, data, nowMs), cacheKey, laterMs) ==
      if laterMs <= nowMs + 86400 * 1000 then Some(data) else None
  {
    GetAfterPut(cache, GenerateCacheKey(cacheKey), data, StdTtlMs, nowMs, laterMs);
  }

  /** After invalidation a key misses, and invalidating an absent key changes
      nothing. */
  lemma GetUserCacheAfterInvalidate(cache: Store<User>, cacheKey: string, nowMs: nat)
    ensures CachedUser(EvictUser(cache, cacheKey), cacheKey, nowMs).None?
    ensures GenerateCacheKey(cacheKey) !in cache ==> EvictUser(cache, cacheKey) == cache
  {
  }

  /** Setting or invalidating one username leaves every other username's reads
      as they were. */
  lemma UserCacheOtherKey(cache: Store<User>, cacheKey: string, other: string, data: User, nowMs: nat, readMs: nat)
    requires other != cacheKey
    ensures CachedUser(CacheUser(cache, cacheKey, data, nowMs), other, readMs) == CachedUser(cache, other, readMs)
    ensures CachedUser(EvictUser(cache, cacheKey), other, readMs) == CachedUser(cache, other, readMs)
  {
    if GenerateCacheKey(other) == GenerateCacheKey(cacheKey) {
      GenerateCacheKeyInjective(other, cacheKey);
    }
    GetOtherKey(cache, GenerateCacheKey(cacheKey), GenerateCacheKey(other), data, StdTtlMs, nowMs, readMs);
  }

  class UserCacheService {
    var cache: Store<User>

    constructor ()
      ensures cache == map[]
    {
      cache := map[];
    }

    method SetUserCache(cacheKey: string, data: User, nowMs: nat)
      modifies this
      ensures cache == CacheUser(old(cache), cacheKey, data, nowMs)
    {
      var key := GenerateCacheKey(cacheKey);
      cache := Put(cache, key, data, StdTtlMs, nowMs);
    }

    function GetUserCache(cacheKey: string, nowMs: nat): (r: Option<User>)
      reads this
      ensures r == CachedUser(cache, cacheKey, nowMs)
    {
      Get(cache, GenerateCacheKey(cacheKey), nowMs)
    }

    method InvalidateUserCache(cacheKey: string)
      modifies this
      ensures cache == EvictUser(old(cache), cacheKey)
    {
      var key := GenerateCacheKey(cacheKey);
      cache := Del(cache, key);
    }
  }
}
