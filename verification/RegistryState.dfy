/** The cache registry: a shared Redis store with expiring entries, and any
    number of service instances that each keep a 30 second cache in front of it. */
module RegistryState {
  import ByteStrings
  import opened Common
  import opened CacheKeys

  const LOCAL_TTL := 30.0

  // Redis and the local caches are indexed by the text of a key. Valid keys with
  // the same text are the same key (`CacheKeys.ToStringInjective`, and across
  // families `CacheKeys.FamiliesAreDisjoint`), so these maps are given by key.

  datatype CacheLevel = L1Gpu | L2Cpu | L3Network | L4Cold

  /** All of an entry but its data. */
  datatype Meta = Meta(
    key: CacheKey, level: CacheLevel, node: string, sizeBytes: int, createdAt: real,
    lastAccessed: real, accessCount: int, hitRate: real, replicas: seq<string>, isPrimary: bool)

  datatype Entry = Entry(meta: Meta, kvData: ByteStrings.Bytes)

  datatype Stored = Stored(meta: Meta, kvDataSize: nat, expiresAt: real)

  datatype Redis = Redis(entries: map<CacheKey, Stored>, nodeIndex: map<string, set<CacheKey>>)

  datatype Stats = Stats(hits: nat, misses: nat, added: nat, removed: nat, queries: nat)

  datatype Local = Local(cache: map<CacheKey, Entry>, ttl: map<CacheKey, real>, stats: Stats)

  datatype Config = Config(ttlSeconds: int)

  const NO_REDIS := Redis(map[], map[])
  const FRESH_LOCAL := Local(map[], map[], Stats(0, 0, 0, 0, 0))

  predicate Live(r: Redis, k: CacheKey, now: real) {
    k in r.entries && now < r.entries[k].expiresAt
  }

  /** The local copy may still be handed out. */
  predicate Fresh(l: Local, k: CacheKey, now: real) {
    k in l.cache && now < (if k in l.ttl then l.ttl[k] else 0.0)
  }

  function Cached(l: Local, k: CacheKey, e: Entry, now: real): Local {
    l.(cache := l.cache[k := e], ttl := l.ttl[k := now + LOCAL_TTL])
  }

  // ------------------------------------------------------------- operations
  // `up` tells whether Redis answers; a call that finds it down changes
  // nothing but the statistics.

  /** Redis refuses to store with a lifetime that is not positive. */
  predicate CanStore(cfg: Config, up: bool) { up && cfg.ttlSeconds > 0 }

  function Put(cfg: Config, r: Redis, m: Meta, kvSize: nat, now: real): Redis {
    r.(entries := r.entries[m.key := Stored(m, kvSize, now + cfg.ttlSeconds as real)])
  }

  function IndexOf(r: Redis, node: string): set<CacheKey> {
    if node in r.nodeIndex then r.nodeIndex[node] else {}
  }

  function RegisterRedis(cfg: Config, r: Redis, e: Entry, now: real, up: bool): Redis {
    if !CanStore(cfg, up) then r
    else
      Put(cfg, r, e.meta, |e.kvData|, now).(
        nodeIndex := r.nodeIndex[e.meta.node := IndexOf(r, e.meta.node) + {e.meta.key}])
  }

  function RegisterLocal(cfg: Config, l: Local, e: Entry, now: real, up: bool): Local {
    if !CanStore(cfg, up) then l
    else Cached(l, e.meta.key, e, now).(stats := l.stats.(added := l.stats.added + 1))
  }

  function UnregisterRedis(r: Redis, k: CacheKey, now: real, up: bool): Redis {
    if !up then r
    else if Live(r, k, now) then
      var node := r.entries[k].meta.node;
      Redis(r.entries - {k}, r.nodeIndex[node := IndexOf(r, node) - {k}])
    else r.(entries := r.entries - {k})
  }

  function UnregisterLocal(l: Local, k: CacheKey, up: bool): Local {
    if !up then l
    else Local(l.cache - {k}, l.ttl - {k}, l.stats.(removed := l.stats.removed + 1))
  }

  /** What a look-up answers. */
  function Lookup(r: Redis, l: Local, k: CacheKey, now: real, up: bool): Option<Entry> {
    if Fresh(l, k, now) then Some(l.cache[k])
    else if up && Live(r, k, now) then Some(Entry(r.entries[k].meta, []))
    else None
  }

  function LookupLocal(r: Redis, l: Local, k: CacheKey, now: real, up: bool): Local {
    var found := Lookup(r, l, k, now, up);
    var s := l.stats.(queries := l.stats.queries + 1);
    var l' := if found.Some? && !Fresh(l, k, now) then Cached(l, k, found.value, now) else l;
    l'.(stats := if found.Some? then s.(hits := s.hits + 1) else s.(misses := s.misses + 1))
  }

  /** The access figures after one more access; none if the division fails. */
  function Accessed(m: Meta, now: real): Option<Meta> {
    var total := m.accessCount + 1;
    if total + 1 == 0 then None
    else
      var rate := total as real / (total + 1) as real;
      Some(m.(lastAccessed := now, accessCount := total, hitRate := if rate < 1.0 then rate else 1.0))
  }

  predicate CanUpdate(cfg: Config, r: Redis, k: CacheKey, now: real, up: bool) {
    CanStore(cfg, up) && Live(r, k, now) && Accessed(r.entries[k].meta, now).Some?
  }

  function UpdateRedis(cfg: Config, r: Redis, k: CacheKey, now: real, up: bool): Redis {
    if !CanUpdate(cfg, r, k, now, up) then r
    else
      var old_ := r.entries[k];
      var m := Accessed(old_.meta, now).value;
      r.(entries := r.entries[k := Stored(m, old_.kvDataSize, now + cfg.ttlSeconds as real)])
  }

  function UpdateLocal(cfg: Config, r: Redis, l: Local, k: CacheKey, now: real, up: bool): Local {
    if !CanUpdate(cfg, r, k, now, up) || k !in l.cache then l
    else
      var m := Accessed(r.entries[k].meta, now).value;
      var e := l.cache[k];
      l.(cache := l.cache[k := e.(meta := e.meta.(
        lastAccessed := m.lastAccessed, accessCount := m.accessCount, hitRate := m.hitRate))])
  }

  /** The periodic sweep of the local cache. */
  function Swept(l: Local, now: real): Local {
    var expired := set k | k in l.ttl && now > l.ttl[k];
    l.(cache := l.cache - expired, ttl := l.ttl - expired)
  }

  // ------------------------------------------------------- removing a node

  function WithoutIndex(r: Redis, node: string): Redis {
    r.(nodeIndex := r.nodeIndex - {node})
  }

  /** Those of `order` that are in `keys`. */
  function InOrder(order: seq<CacheKey>, keys: set<CacheKey>): seq<CacheKey> {
    if order == [] then []
    else
      var last := order[|order| - 1];
      InOrder(order[..|order| - 1], keys) + if last in keys then [last] else []
  }

  /** The parser gives back the key whose text an index holds; otherwise it
      raises (`CacheKeys.FromStringInverts`). */
  predicate ParsesBack(k: CacheKey) {
    ':' !in k.modelName && ':' !in k.prefixHash
  }

  /** The look-up of several keys in turn, up to one that does not parse: the
      local cache after it, and the entries found if all keys parse. */
  function Fetched(r: Redis, l: Local, keys: seq<CacheKey>, now: real): (Local, Option<seq<Entry>>) {
    if keys == [] then (l, Some([]))
    else
      var k := keys[|keys| - 1];
      var (l', found) := Fetched(r, l, keys[..|keys| - 1], now);
      if found.None? || !ParsesBack(k) then (l', None)
      else
        var x := Lookup(r, l', k, now, true);
        (LookupLocal(r, l', k, now, true), Some(if x.Some? then found.value + [x.value] else found.value))
  }

  /** The entries listed for a node; none if one of their keys does not parse.
      `order` is the order in which the store lists keys. */
  function EntriesByNode(r: Redis, l: Local, node: string, order: seq<CacheKey>, now: real): (Local, seq<Entry>) {
    var (l', found) := Fetched(r, l, InOrder(order, IndexOf(r, node)), now);
    (l', if found.Some? then found.value else [])
  }

  /** The entries the store still has for `keys`, in order. */
  function Collected(r: Redis, keys: seq<CacheKey>, now: real): seq<Entry> {
    if keys == [] then []
    else
      var k := keys[|keys| - 1];
      Collected(r, keys[..|keys| - 1], now) + if Live(r, k, now) then [Entry(r.entries[k].meta, [])] else []
  }

  function UnregisterAllRedis(r: Redis, found: seq<Entry>, now: real): Redis {
    if found == [] then r
    else UnregisterRedis(UnregisterAllRedis(r, found[..|found| - 1], now), found[|found| - 1].meta.key, now, true)
  }

  function UnregisterAllLocal(l: Local, found: seq<Entry>): Local {
    if found == [] then l
    else UnregisterLocal(UnregisterAllLocal(l, found[..|found| - 1]), found[|found| - 1].meta.key, true)
  }

  /** Removing a node deletes its index, then reads the index for the entries to
      unregister. */
  function UnregisterNodeRedis(r: Redis, l: Local, node: string, order: seq<CacheKey>, now: real, up: bool): Redis {
    if !up then r
    else
      var r' := WithoutIndex(r, node);
      UnregisterAllRedis(r', EntriesByNode(r', l, node, order, now).1, now)
  }

  function UnregisterNodeLocal(r: Redis, l: Local, node: string, order: seq<CacheKey>, now: real, up: bool): Local {
    if !up then l
    else
      var (l', found) := EntriesByNode(WithoutIndex(r, node), l, node, order, now);
      UnregisterAllLocal(l', found)
  }

  // ----------------------------------------------------------------- system

  datatype System = System(redis: Redis, locals: seq<Local>)

  /** In a look-up by prefix, `keys` are those that SCAN hands out for the pattern
      of the hash. */
  datatype Call =
    | Register(entry: Entry)
    | Unregister(key: CacheKey)
    | Get(key: CacheKey)
    | Update(key: CacheKey)
    | Sweep
    | UnregisterNode(node: string, order: seq<CacheKey>)
    | ListNode(node: string, order: seq<CacheKey>)
    | FindByPrefix(keys: seq<CacheKey>)

  /** A call on instance `at`, at time `now`. */
  datatype Event = Event(at: nat, call: Call, now: real, up: bool)

  datatype Answer = Found(entry: Option<Entry>) | Listed(entries: seq<Entry>) | Flag(ok: bool) | Nothing

  function CallRedis(cfg: Config, r: Redis, l: Local, e: Event): Redis
  {
    match e.call
    case Register(entry) => RegisterRedis(cfg, r, entry, e.now, e.up)
    case Unregister(k) => UnregisterRedis(r, k, e.now, e.up)
    case Get(_) => r
    case Update(k) => UpdateRedis(cfg, r, k, e.now, e.up)
    case Sweep => r
    case UnregisterNode(n, order) => UnregisterNodeRedis(r, l, n, order, e.now, e.up)
    case ListNode(_, _) => r
    case FindByPrefix(_) => r
  }

  function CallLocal(cfg: Config, r: Redis, l: Local, e: Event): Local
  {
    match e.call
    case Register(entry) => RegisterLocal(cfg, l, entry, e.now, e.up)
    case Unregister(k) => UnregisterLocal(l, k, e.up)
    case Get(k) => LookupLocal(r, l, k, e.now, e.up)
    case Update(k) => UpdateLocal(cfg, r, l, k, e.now, e.up)
    case Sweep => Swept(l, e.now)
    case UnregisterNode(n, order) => UnregisterNodeLocal(r, l, n, order, e.now, e.up)
    case ListNode(n, order) => if e.up then EntriesByNode(r, l, n, order, e.now).0 else l
    case FindByPrefix(_) => l
  }

  function CallAnswer(cfg: Config, r: Redis, l: Local, e: Event): Answer
  {
    match e.call
    case Register(_) => Flag(CanStore(cfg, e.up))
    case Unregister(_) => Flag(e.up)
    case Get(k) => Found(Lookup(r, l, k, e.now, e.up))
    case Update(k) => Flag(CanUpdate(cfg, r, k, e.now, e.up))
    case Sweep => Nothing
    case UnregisterNode(_, _) => Flag(e.up)
    case ListNode(n, order) => Listed(if e.up then EntriesByNode(r, l, n, order, e.now).1 else [])
    case FindByPrefix(keys) => Listed(if e.up then Collected(r, keys, e.now) else [])
  }

  predicate Allowed(s: System, e: Event) {
    e.at < |s.locals|
  }

  function Step(cfg: Config, s: System, e: Event): System
    requires Allowed(s, e)
  {
    System(CallRedis(cfg, s.redis, s.locals[e.at], e), s.locals[e.at := CallLocal(cfg, s.redis, s.locals[e.at], e)])
  }

  ghost predicate Clocked(es: seq<Event>) {
    forall i, j :: 0 <= i < j < |es| ==> es[i].now <= es[j].now
  }

  ghost predicate Runnable(n: nat, es: seq<Event>) {
    forall i :: 0 <= i < |es| ==> es[i].at < n
  }

  /** `n` instances over one empty store, after all of `es`. */
  function Run(cfg: Config, n: nat, es: seq<Event>): (s: System)
    requires Runnable(n, es)
    ensures |s.locals| == n
  {
    if es == [] then System(NO_REDIS, seq(n, _ => FRESH_LOCAL))
    else Step(cfg, Run(cfg, n, es[..|es| - 1]), es[|es| - 1])
  }
}
