/**
 * The response cache of the chat handler: an in-memory map from cache keys
 * to rendered answers with a time-to-live. An expired entry reads as absent;
 * nothing sweeps it away.
 */
module ResponseCache {
  import opened Common

  const KeyPrefix: string := "chat_response_"

  /** The timeout, in seconds, every chat answer is stored with. */
  const ResponseTimeout: int := 300

  datatype Entry = Entry(value: string, storedAt: int, timeout: int)

  type Cache = map<string, Entry>

  /**
   * `f"chat_response_{user_input}"`: the prefix followed by the exact input,
   * so neither case nor surrounding whitespace is normalised.
   */
  function CacheKey(input: string): (key: string)
    ensures |key| == |KeyPrefix| + |input|
    ensures key[..|KeyPrefix|] == KeyPrefix && key[|KeyPrefix|..] == input
  {
    KeyPrefix + input
  }

  /** Two messages share a cache entry exactly when they are the same text. */
  lemma CacheKeyInjective(a: string, b: string)
    ensures CacheKey(a) == CacheKey(b) <==> a == b
  {
    if CacheKey(a) == CacheKey(b) {
      assert a == CacheKey(a)[|KeyPrefix|..];
    }
  }

  predicate IsLive(e: Entry, now: int) {
    now < e.storedAt + e.timeout
  }

  /** `cache.get(key)`: the stored value while it is live, `None` otherwise. */
  function Get(cache: Cache, key: string, now: int): (value: Option<string>) {
    if key in cache && IsLive(cache[key], now) then Some(cache[key].value) else None
  }

  /** `cache.set(key, value, timeout=timeout)` at time `now`. */
  function Put(cache: Cache, key: string, value: string, now: int, timeout: int): (c: Cache)
    ensures key in c && c[key] == Entry(value, now, timeout)
    ensures forall k :: k != key ==> (k in c <==> k in cache)
    ensures forall k :: k != key && k in cache ==> c[k] == cache[k]
  {
    cache[key := Entry(value, now, timeout)]
  }

  /**
   * A stored value is read back until its timeout has elapsed, and reads as
   * absent from then on. The handler's timeout is positive; a timeout of 0
   * would mean "never expires", which this model does not cover.
   */
  lemma PutThenGet(cache: Cache, key: string, value: string, now: int, timeout: int, later: int)
    requires timeout > 0
    ensures Get(Put(cache, key, value, now, timeout), key, later) ==
            (if later < now + timeout then Some(value) else None)
  {
  }

  /**
   * Entries only ever expire: whatever a key reads at some time it read
   * already at every earlier time, and a key that reads as absent stays
   * absent until it is stored again.
   */
  lemma ExpiryIsFinal(cache: Cache, key: string, now: int, later: int)
    requires now <= later
    ensures Get(cache, key, later).Some? ==> Get(cache, key, now) == Get(cache, key, later)
    ensures Get(cache, key, now).None? ==> Get(cache, key, later).None?
  {
  }

  /** Storing under one key does not change what any other key reads. */
  lemma PutKeepsOtherKeys(cache: Cache, key: string, value: string, now: int, timeout: int, other: string, later: int)
    requires other != key
    ensures Get(Put(cache, key, value, now, timeout), other, later) == Get(cache, other, later)
  {
  }
}
