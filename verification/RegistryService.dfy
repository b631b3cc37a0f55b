/** The registry service object: two local dictionaries, statistics, and the
    Redis store it shares with other instances, updated in place. */
module RegistryService {
  import opened Common
  import opened TextKeys
  import opened CacheKeys
  import opened RegistryState
  import opened RegistryProperties
  import opened RegistryContents

  class RedisStore {
    var entries: map<CacheKey, Stored>
    var nodeIndex: map<string, set<CacheKey>>

    constructor ()
      ensures Value() == NO_REDIS
    {
      entries, nodeIndex := map[], map[];
    }

    function Value(): Redis
      reads this
    {
      Redis(entries, nodeIndex)
    }

    /** SETEX: the entry and its lifetime. */
    method SetEx(k: CacheKey, ttlSeconds: int, m: Meta, kvSize: nat, now: real)
      modifies this`entries
      ensures entries == old(entries)[k := Stored(m, kvSize, now + ttlSeconds as real)]
    {
      entries := entries[k := Stored(m, kvSize, now + ttlSeconds as real)];
    }

    method SMembers(node: string) returns (listed: set<CacheKey>)
      ensures listed == IndexOf(Value(), node)
    {
      listed := if node in nodeIndex then nodeIndex[node] else {};
    }

    method Get(k: CacheKey, now: real) returns (found: Option<Stored>)
      ensures found == if Live(Value(), k, now) then Some(entries[k]) else None
    {
      found := if k in entries && now < entries[k].expiresAt then Some(entries[k]) else None;
    }
  }

  /** The key of `k` is one the pattern for `hash` selects. */
  predicate Selected(ns: string, hash: string, k: CacheKey) {
    var pattern := PrefixPattern(ns, hash);
    '[' !in pattern && k.Valid() && Match(pattern, RedisKey(ns, EntryKeys, k.ToString()))
  }

  class CacheRegistryService {
    const namespace: string
    const ttlSeconds: int
    const redis: RedisStore
    var localCache: map<CacheKey, Entry>
    var localCacheTtl: map<CacheKey, real>
    var stats: Stats

    constructor (namespace: string, ttlSeconds: int, redis: RedisStore)
      ensures Value() == FRESH_LOCAL && this.redis == redis
      ensures this.namespace == namespace && this.ttlSeconds == ttlSeconds
    {
      this.namespace, this.ttlSeconds, this.redis := namespace, ttlSeconds, redis;
      localCache, localCacheTtl, stats := map[], map[], Stats(0, 0, 0, 0, 0);
    }

    function Value(): Local
      reads this
    {
      Local(localCache, localCacheTtl, stats)
    }

    function Settings(): Config { Config(ttlSeconds) }

    method RegisterCacheEntry(e: Entry, now: real, up: bool) returns (ok: bool)
      modifies this, redis
      ensures redis.Value() == RegisterRedis(Settings(), old(redis.Value()), e, now, up)
      ensures Value() == RegisterLocal(Settings(), old(Value()), e, now, up)
      ensures ok == CanStore(Settings(), up)
    {
      if !up || ttlSeconds <= 0 { return false; }
      redis.SetEx(e.meta.key, ttlSeconds, e.meta, |e.kvData|, now);
      localCache := localCache[e.meta.key := e];
      localCacheTtl := localCacheTtl[e.meta.key := now + LOCAL_TTL];
      stats := stats.(added := stats.added + 1);
      var node := e.meta.node;
      var listed := redis.SMembers(node);
      redis.nodeIndex := redis.nodeIndex[node := listed + {e.meta.key}];
      ok := true;
    }

    method UnregisterCacheEntry(k: CacheKey, now: real, up: bool) returns (ok: bool)
      modifies this, redis
      ensures redis.Value() == UnregisterRedis(old(redis.Value()), k, now, up)
      ensures Value() == UnregisterLocal(old(Value()), k, up)
      ensures ok == up
    {
      if !up { return false; }
      var found := redis.Get(k, now);
      if found.Some? {
        var node := found.value.meta.node;
        var listed := redis.SMembers(node);
        redis.nodeIndex := redis.nodeIndex[node := listed - {k}];
      }
      redis.entries := redis.entries - {k};
      localCache := localCache - {k};
      localCacheTtl := localCacheTtl - {k};
      stats := stats.(removed := stats.removed + 1);
      ok := true;
    }

    method GetCacheEntry(k: CacheKey, now: real, up: bool) returns (answer: Option<Entry>)
      modifies this
      ensures answer == Lookup(redis.Value(), old(Value()), k, now, up)
      ensures Value() == LookupLocal(redis.Value(), old(Value()), k, now, up)
    {
      stats := stats.(queries := stats.queries + 1);
      if k in localCache && now < (if k in localCacheTtl then localCacheTtl[k] else 0.0) {
        stats := stats.(hits := stats.hits + 1);
        return Some(localCache[k]);
      }
      var found := None;
      if up { found := redis.Get(k, now); }
      if found.Some? {
        var e := Entry(found.value.meta, []);
        localCache := localCache[k := e];
        localCacheTtl := localCacheTtl[k := now + LOCAL_TTL];
        stats := stats.(hits := stats.hits + 1);
        return Some(e);
      }
      stats := stats.(misses := stats.misses + 1);
      answer := None;
    }

    method UpdateCacheAccess(k: CacheKey, now: real, up: bool) returns (ok: bool)
      modifies this, redis
      ensures redis.Value() == UpdateRedis(Settings(), old(redis.Value()), k, now, up)
      ensures Value() == UpdateLocal(Settings(), old(redis.Value()), old(Value()), k, now, up)
      ensures ok == CanUpdate(Settings(), old(redis.Value()), k, now, up)
    {
      if !up { return false; }
      var found := redis.Get(k, now);
      if found.None? { return false; }
      var accessed := Accessed(found.value.meta, now);
      if accessed.None? || ttlSeconds <= 0 { return false; }
      var m := accessed.value;
      redis.SetEx(k, ttlSeconds, m, found.value.kvDataSize, now);
      if k in localCache {
        var e := localCache[k];
        localCache := localCache[k := e.(meta := e.meta.(
          lastAccessed := m.lastAccessed, accessCount := m.accessCount, hitRate := m.hitRate))];
      }
      ok := true;
    }

    method CleanupExpiredEntries(now: real)
      modifies this
      ensures Value() == Swept(old(Value()), now)
    {
      ghost var was := Value();
      var left := localCacheTtl.Keys;
      ghost var gone: set<CacheKey> := {};
      while left != {}
        invariant left <= localCacheTtl.Keys
        invariant gone == set k | k in was.ttl && k !in left && now > was.ttl[k]
        invariant localCache == was.cache - gone && localCacheTtl == was.ttl - gone && stats == was.stats
        decreases left
      {
        var k :| k in left;
        if now > localCacheTtl[k] {
          localCache := localCache - {k};
          localCacheTtl := localCacheTtl - {k};
          gone := gone + {k};
        }
        left := left - {k};
      }
    }

    /** Looks up the keys listed for a node, in the order the store lists them;
        the answer is empty if one of them does not parse. */
    method GetEntriesByNode(node: string, order: seq<CacheKey>, now: real, up: bool) returns (found: seq<Entry>)
      modifies this
      ensures up ==> (Value(), found) == EntriesByNode(redis.Value(), old(Value()), node, order, now)
      ensures !up ==> Value() == old(Value()) && found == []
    {
      found := [];
      if !up { return; }
      var listed := redis.SMembers(node);
      var keys := InOrder(order, listed);
      for i := 0 to |keys|
        invariant (Value(), Some(found)) == Fetched(redis.Value(), old(Value()), keys[..i], now)
      {
        assert keys[..i + 1][..i] == keys[..i];
        if !ParsesBack(keys[i]) {
          NothingAfterRaise(redis.Value(), old(Value()), keys, i + 1, now);
          return [];
        }
        var e := GetCacheEntry(keys[i], now, true);
        if e.Some? { found := found + [e.value]; }
      }
      assert keys[..|keys|] == keys;
    }

    method UnregisterNode(node: string, order: seq<CacheKey>, now: real, up: bool) returns (ok: bool)
      modifies this, redis
      ensures redis.Value() == UnregisterNodeRedis(old(redis.Value()), old(Value()), node, order, now, up)
      ensures Value() == UnregisterNodeLocal(old(redis.Value()), old(Value()), node, order, now, up)
      ensures redis.entries == old(redis.entries) && Value() == old(Value()) && ok == up
    {
      NothingToClean(redis.Value(), Value(), node, order, now, up);
      if !up { return false; }
      redis.nodeIndex := redis.nodeIndex - {node};
      ghost var r := redis.Value();
      var found := GetEntriesByNode(node, order, now, true);
      ghost var l := Value();
      for i := 0 to |found|
        invariant redis.Value() == UnregisterAllRedis(r, found[..i], now)
        invariant Value() == UnregisterAllLocal(l, found[..i])
      {
        assert found[..i + 1][..i] == found[..i];
        var _ := UnregisterCacheEntry(found[i].meta.key, now, true);
      }
      assert found[..|found|] == found;
      ok := true;
    }

    /** Fetches the entries of one page of keys, skipping those that expired. */
    method ReadPage(page: seq<CacheKey>, now: real) returns (part: seq<Entry>)
      ensures part == Collected(redis.Value(), page, now)
    {
      part := [];
      for j := 0 to |page|
        invariant part == Collected(redis.Value(), page[..j], now)
      {
        var data := redis.Get(page[j], now);
        if data.Some? {
          part := part + [Entry(data.value.meta, [])];
        }
        assert page[..j + 1][..j] == page[..j];
      }
      assert page[..|page|] == page;
    }

    /** `pages` is what SCAN hands out: every selected key at least once, in some
        order, and no others. The answer is the set of live entries that carry
        the hash. */
    method FindEntriesByPrefix(hash: string, pages: seq<seq<CacheKey>>, now: real, up: bool)
      returns (found: seq<Entry>)
      requires Plain(namespace) && Plain(hash) && ':' !in hash
      requires forall p, k :: p in pages && k in p ==> Selected(namespace, hash, k)
      requires forall k :: k in redis.entries && Selected(namespace, hash, k) ==> exists p :: p in pages && k in p
      ensures found == if up then Collected(redis.Value(), Flat(pages), now) else []
      ensures up ==> forall x :: x in found <==>
        exists k :: Live(redis.Value(), k, now) && Selected(namespace, hash, k) && x == Entry(redis.entries[k].meta, [])
      ensures up && |hash| == HASH_LENGTH && (forall k :: k in redis.entries ==> k.Valid() && ':' !in k.modelName) ==>
        forall x :: x in found <==>
          exists k :: Live(redis.Value(), k, now) && k.prefixHash == hash && x == Entry(redis.entries[k].meta, [])
    {
      found := [];
      if !up { return; }
      ghost var seen: seq<CacheKey> := [];
      for i := 0 to |pages|
        invariant seen == Flat(pages[..i]) && found == Collected(redis.Value(), seen, now)
        invariant forall k :: k in seen <==> exists p :: p in pages[..i] && k in p
      {
        var part := ReadPage(pages[i], now);
        CollectedAppend(redis.Value(), seen, pages[i], now);
        found := found + part;
        seen := seen + pages[i];
        assert pages[..i + 1] == pages[..i] + [pages[i]] && pages[..i + 1][..i] == pages[..i];
      }
      assert pages[..|pages|] == pages;
      CollectedExactly(redis.Value(), seen, now);
      forall k | k in redis.entries && k.Valid() && ':' !in k.modelName && |hash| == HASH_LENGTH
        ensures Selected(namespace, hash, k) <==> k.prefixHash == hash
      {
        PrefixPatternIsFilter(namespace, hash, k);
      }
    }
  }

  function Flat(pages: seq<seq<CacheKey>>): seq<CacheKey> {
    if pages == [] then [] else Flat(pages[..|pages| - 1]) + pages[|pages| - 1]
  }

  lemma {:induction false} NothingAfterRaise(r: Redis, l: Local, keys: seq<CacheKey>, i: nat, now: real)
    requires i <= |keys| && Fetched(r, l, keys[..i], now).1.None?
    ensures Fetched(r, l, keys, now) == Fetched(r, l, keys[..i], now)
  {
    if i == |keys| {
      assert keys[..i] == keys;
    } else {
      assert keys[..|keys| - 1][..i] == keys[..i];
      NothingAfterRaise(r, l, keys[..|keys| - 1], i, now);
    }
  }

  lemma {:induction false} CollectedAppend(r: Redis, a: seq<CacheKey>, b: seq<CacheKey>, now: real)
    ensures Collected(r, a + b, now) == Collected(r, a, now) + Collected(r, b, now)
  {
    if b == [] {
      assert a + b == a;
    } else {
      assert (a + b)[..|a + b| - 1] == a + b[..|b| - 1];
      CollectedAppend(r, a, b[..|b| - 1], now);
    }
  }
}
