/** The part of node-cache the two cache services use. Each entry records the
    clock reading (milliseconds) after which it is dead; a read after that
    moment misses. A TTL argument of 0 would mean "never expires", but no
    caller in this system ever passes 0, so every entry carries a deadline. */
module NodeCache {
  import opened Common

  datatype Entry<V> = Entry(value: V, expiresAt: int)

  type Store<V> = map<string, Entry<V>>

  /** `cache.set(key, value, ttl)` at clock nowMs, with the TTL in milliseconds. */
  function Put<V>(store: Store<V>, key: string, value: V, ttlMs: int, nowMs: nat): (s: Store<V>)
    ensures key in s && s[key] == Entry(value, nowMs + ttlMs)
    ensures forall k :: k != key ==> (k in s <==> k in store) && (k in store ==> s[k] == store[k])
  {
    store[key := Entry(value, nowMs + ttlMs)]
  }

  /** `cache.get(key)` at clock nowMs: the value while the entry is alive,
      nothing once the clock has passed its deadline. */
  function Get<V>(store: Store<V>, key: string, nowMs: nat): (r: Option<V>)
    ensures r.Some? <==> key in store && nowMs <= store[key].expiresAt
    ensures r.Some? ==> r.value == store[key].value
  {
    if key in store && nowMs <= store[key].expiresAt then Some(store[key].value) else None
  }

  /** `cache.del(key)`. */
  function Del<V>(store: Store<V>, key: string): (s: Store<V>)
    ensures key !in s
    ensures forall k :: k != key ==> (k in s <==> k in store) && (k in store ==> s[k] == store[k])
  {
    store - {key}
  }

  /** A value put with a TTL can be read back until the TTL has elapsed, and
      not a millisecond later. */
  lemma GetAfterPut<V>(store: Store<V>, key: string, value: V, ttlMs: int, nowMs: nat, laterMs: nat)
    ensures Get(Put(store, key, value, ttlMs, nowMs), key, laterMs) ==
      if laterMs <= nowMs + ttlMs then Some(value) else None
  {
  }

  /** Put and Del leave every other key's reads as they were. */
  lemma GetOtherKey<V>(store: Store<V>, key: string, other: string, value: V, ttlMs: int, nowMs: nat, readMs: nat)
    requires other != key
    ensures Get(Put(store, key, value, ttlMs, nowMs), other, readMs) == Get(store, other, readMs)
    ensures Get(Del(store, key), other, readMs) == Get(store, other, readMs)
  {
  }
}
