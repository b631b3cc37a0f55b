/** What the store and the node indexes of the registry hold after any run. */
module RegistryContents {
  import opened RealArithmetic
  import opened Common
  import opened CacheKeys
  import opened RegistryState
  import opened RegistryProperties

  // ------------------------------------------------------ the node indexes

  /** The store accepts an entry for the key on the node. */
  predicate PutsOn(cfg: Config, e: Event, key: CacheKey, node: string) {
    e.call.Register? && e.up && cfg.ttlSeconds > 0 && e.call.entry.meta.key == key && e.call.entry.meta.node == node
  }

  /** The node is removed, or the key is while it is alive on the node. */
  predicate TakesOff(r: Redis, e: Event, key: CacheKey, node: string) {
    e.up &&
    match e.call
    case UnregisterNode(n, _) => n == node
    case Unregister(k) => k == key && Holds(r, key, node, e.now)
    case _ => false
  }

  lemma StepIndex(cfg: Config, r: Redis, l: Local, e: Event, key: CacheKey, node: string)
    ensures key in IndexOf(CallRedis(cfg, r, l, e), node) <==>
              PutsOn(cfg, e, key, node) || (key in IndexOf(r, node) && !TakesOff(r, e, key, node))
  {
    match e.call
    case UnregisterNode(n, order) => NothingToClean(r, l, n, order, e.now, e.up);
    case _ =>
  }

  ghost predicate TakenOffAt(cfg: Config, n: nat, es: seq<Event>, key: CacheKey, node: string, m: nat)
    requires Runnable(n, es) && m < |es|
  {
    TakesOff(Run(cfg, n, es[..m]).redis, es[m], key, node)
  }

  /** Event `j` put the key on the node, and nothing has taken it off since. */
  ghost predicate IndexedSince(cfg: Config, n: nat, es: seq<Event>, key: CacheKey, node: string, j: nat)
    requires Runnable(n, es)
  {
    && j < |es| && PutsOn(cfg, es[j], key, node)
    && forall m :: j < m < |es| ==> !TakenOffAt(cfg, n, es, key, node, m)
  }

  lemma FrontRunnable(n: nat, es: seq<Event>)
    requires Runnable(n, es) && es != []
    ensures Runnable(n, es[..|es| - 1])
  {
  }

  lemma TakenOffFront(cfg: Config, n: nat, es: seq<Event>, key: CacheKey, node: string, m: nat)
    requires Runnable(n, es) && m < |es| - 1
    ensures Runnable(n, es[..|es| - 1])
    ensures TakenOffAt(cfg, n, es, key, node, m) == TakenOffAt(cfg, n, es[..|es| - 1], key, node, m)
  {
    FrontRunnable(n, es);
    assert es[..|es| - 1][..m] == es[..m];
  }

  lemma IndexedSinceFront(cfg: Config, n: nat, es: seq<Event>, key: CacheKey, node: string, j: nat)
    requires Runnable(n, es) && es != [] && j < |es| - 1
    ensures Runnable(n, es[..|es| - 1])
    ensures IndexedSince(cfg, n, es, key, node, j) <==>
              IndexedSince(cfg, n, es[..|es| - 1], key, node, j) && !TakenOffAt(cfg, n, es, key, node, |es| - 1)
  {
    FrontRunnable(n, es);
    var front := es[..|es| - 1];
    assert front[j] == es[j];
    if IndexedSince(cfg, n, es, key, node, j) {
      forall m | j < m < |front| ensures !TakenOffAt(cfg, n, front, key, node, m) {
        TakenOffFront(cfg, n, es, key, node, m);
      }
    } else if IndexedSince(cfg, n, front, key, node, j) {
      forall m | j < m < |front| ensures !TakenOffAt(cfg, n, es, key, node, m) {
        TakenOffFront(cfg, n, es, key, node, m);
      }
    }
  }

  /** Over every run, with any number of instances, a key is listed for a node
      exactly if some accepted registration put it there, and since then neither
      the node was removed nor the key while it was alive there. */
  lemma {:induction false} IndexIsExact(cfg: Config, n: nat, es: seq<Event>, key: CacheKey, node: string)
    requires Runnable(n, es)
    ensures key in IndexOf(Run(cfg, n, es).redis, node) <==> exists j: nat :: IndexedSince(cfg, n, es, key, node, j)
  {
    if es != [] {
      var last := |es| - 1;
      var s := Run(cfg, n, es[..last]);
      IndexIsExact(cfg, n, es[..last], key, node);
      StepIndex(cfg, s.redis, s.locals[es[last].at], es[last], key, node);
      if PutsOn(cfg, es[last], key, node) {
        assert IndexedSince(cfg, n, es, key, node, last);
      } else if key in IndexOf(Run(cfg, n, es).redis, node) {
        var j: nat :| IndexedSince(cfg, n, es[..last], key, node, j);
        IndexedSinceFront(cfg, n, es, key, node, j);
      } else if j: nat :| IndexedSince(cfg, n, es, key, node, j) {
        IndexedSinceFront(cfg, n, es, key, node, j);
      }
    }
  }

  lemma {:induction false} InOrderMembers(order: seq<CacheKey>, keys: set<CacheKey>)
    ensures forall k :: k in InOrder(order, keys) <==> k in order && k in keys
  {
    if order != [] {
      var front, last := order[..|order| - 1], order[|order| - 1];
      assert order == front + [last];
      InOrderMembers(front, keys);
    }
  }

  /** So, in every run, listing a node answers with every entry registered there
      and not taken off since that is alive in the store or fresh in the local
      cache, and with nothing else; as long as every listed key parses. */
  lemma ListingIsExact(cfg: Config, n: nat, es: seq<Event>, i: nat, node: string, order: seq<CacheKey>, now: real)
    requires Runnable(n, es) && i < n
    requires var listed := IndexOf(Run(cfg, n, es).redis, node);
             forall k :: k in listed ==> k in order && ParsesBack(k)
    ensures var s := Run(cfg, n, es);
            forall x :: x in EntriesByNode(s.redis, s.locals[i], node, order, now).1 <==>
              exists key :: Listable(cfg, n, es, key, node) && Lookup(s.redis, s.locals[i], key, now, true) == Some(x)
  {
    var s := Run(cfg, n, es);
    var keys := InOrder(order, IndexOf(s.redis, node));
    InOrderMembers(order, IndexOf(s.redis, node));
    FetchedAnswers(s.redis, s.locals[i], keys, now);
    AnsweredMembers(s.redis, s.locals[i], keys, now);
    forall key ensures key in keys <==> Listable(cfg, n, es, key, node) { IndexIsExact(cfg, n, es, key, node); }
  }

  ghost predicate Listable(cfg: Config, n: nat, es: seq<Event>, key: CacheKey, node: string)
    requires Runnable(n, es)
  {
    exists j: nat :: IndexedSince(cfg, n, es, key, node, j)
  }

  /** The keys that parse are those the parser gives back. */
  lemma ParsesBackExactly(k: CacheKey)
    requires k.Valid()
    ensures ParsesBack(k) <==> FromString(k.ToString()) == Parsed(k)
  {
    FromStringInverts(k);
  }

  /** A look-up by prefix answers, while the store is up, with exactly the entries
      alive for the keys handed out; a look-up by prefix or by node answers with
      nothing while it is down. */
  lemma FindingIsExact(cfg: Config, r: Redis, l: Local, e: Event)
    requires e.call.FindByPrefix? || e.call.ListNode?
    ensures !e.up ==> CallAnswer(cfg, r, l, e) == Listed([]) && CallLocal(cfg, r, l, e) == l
    ensures e.up && e.call.FindByPrefix? ==>
              forall x :: x in EntriesOf(CallAnswer(cfg, r, l, e)) <==>
                exists k :: k in e.call.keys && Live(r, k, e.now) && x == Entry(r.entries[k].meta, [])
  {
    if e.call.FindByPrefix? { CollectedExactly(r, e.call.keys, e.now); }
  }

  lemma {:induction false} CollectedExactly(r: Redis, keys: seq<CacheKey>, now: real)
    ensures forall x :: x in Collected(r, keys, now) <==>
              exists k :: k in keys && Live(r, k, now) && x == Entry(r.entries[k].meta, [])
  {
    if keys != [] {
      var front, last := keys[..|keys| - 1], keys[|keys| - 1];
      assert keys == front + [last];
      CollectedExactly(r, front, now);
    }
  }

  /** Unregistering entries, as the removal of a node would if it found any, takes
      each of them out of the store and the local cache, and nothing else. */
  lemma {:induction false} UnregisterAllRemoves(r: Redis, l: Local, found: seq<Entry>, now: real)
    ensures forall key :: key in UnregisterAllRedis(r, found, now).entries <==>
              key in r.entries && forall x :: x in found ==> x.meta.key != key
    ensures forall key :: key in UnregisterAllLocal(l, found).cache <==>
              key in l.cache && forall x :: x in found ==> x.meta.key != key
  {
    if found != [] {
      var front, last := found[..|found| - 1], found[|found| - 1];
      assert found == front + [last];
      UnregisterAllRemoves(r, l, front, now);
    }
  }

  // -------------------------------------------------- the stored entries

  predicate Puts(cfg: Config, e: Event, key: CacheKey) {
    e.call.Register? && e.up && cfg.ttlSeconds > 0 && e.call.entry.meta.key == key
  }

  /** An access is counted: the entry is alive and the store takes it back. */
  predicate Counts(cfg: Config, r: Redis, e: Event, key: CacheKey) {
    && e.call == Update(key) && e.up && cfg.ttlSeconds > 0
    && Live(r, key, e.now) && r.entries[key].meta.accessCount != -2
  }

  predicate Drops(e: Event, key: CacheKey) {
    e.call == Unregister(key) && e.up
  }

  /** What one call does to the store's entry for a key. */
  lemma StepEntry(cfg: Config, r: Redis, l: Local, e: Event, key: CacheKey)
    ensures var r' := CallRedis(cfg, r, l, e);
            && (key in r'.entries <==> Puts(cfg, e, key) || (key in r.entries && !Drops(e, key)))
            && (Puts(cfg, e, key) ==>
                  r'.entries[key] == Stored(e.call.entry.meta, |e.call.entry.kvData|, e.now + cfg.ttlSeconds as real))
            && (Counts(cfg, r, e, key) ==>
                  && r'.entries[key].expiresAt == e.now + cfg.ttlSeconds as real
                  && r'.entries[key].kvDataSize == r.entries[key].kvDataSize
                  && OneMoreAccess(r.entries[key].meta, r'.entries[key].meta, e.now))
            && (key in r'.entries && !Puts(cfg, e, key) && !Counts(cfg, r, e, key) ==> r'.entries[key] == r.entries[key])
  {
    match e.call
    case UnregisterNode(n, order) => NothingToClean(r, l, n, order, e.now, e.up);
    case Update(k) => if k == key && Counts(cfg, r, e, key) { AccessCounts(r.entries[key].meta, e.now); }
    case _ =>
  }

  /** The same entry with one more access; the hit rate of `c` accesses is `c` out
      of `c` and one, never above 1. */
  predicate OneMoreAccess(m: Meta, m': Meta, now: real) {
    && m' == m.(lastAccessed := now, accessCount := m.accessCount + 1, hitRate := m'.hitRate)
    && m'.hitRate <= 1.0 && (m.accessCount < -2 ==> m'.hitRate == 1.0)
    && (m.accessCount >= 0 ==> m'.hitRate * (m'.accessCount + 1) as real == m'.accessCount as real && m'.hitRate < 1.0)
  }

  lemma AccessCounts(m: Meta, now: real)
    ensures m.accessCount != -2 <==> Accessed(m, now).Some?
    ensures Accessed(m, now).Some? ==> OneMoreAccess(m, Accessed(m, now).value, now)
  {
    var total := m.accessCount + 1;
    if total >= 0 || total < -1 {
      ShareOfNext(total as real);
      assert (total + 1) as real == total as real + 1.0;
    }
  }

  function CountedSince(cfg: Config, n: nat, es: seq<Event>, key: CacheKey, j: nat): nat
    requires Runnable(n, es)
  {
    if |es| <= j then 0
    else
      var front := es[..|es| - 1];
      assert Runnable(n, front) by { FrontRunnable(n, es); }
      CountedSince(cfg, n, front, key, j) + if Counts(cfg, Run(cfg, n, front).redis, es[|es| - 1], key) then 1 else 0
  }

  /** Event `j` registered the key last, and it has not been removed since. */
  ghost predicate StoredSince(cfg: Config, es: seq<Event>, key: CacheKey, j: nat) {
    && j < |es| && Puts(cfg, es[j], key)
    && forall m :: j < m < |es| ==> !Puts(cfg, es[m], key) && !Drops(es[m], key)
  }

  ghost predicate CountedAt(cfg: Config, n: nat, es: seq<Event>, key: CacheKey, m: nat)
    requires Runnable(n, es) && m < |es|
  {
    Counts(cfg, Run(cfg, n, es[..m]).redis, es[m], key)
  }

  /** Event `w` is the last that wrote the key. */
  ghost predicate WrittenLast(cfg: Config, n: nat, es: seq<Event>, key: CacheKey, w: nat)
    requires Runnable(n, es)
  {
    && w < |es| && (Puts(cfg, es[w], key) || CountedAt(cfg, n, es, key, w))
    && forall m :: w < m < |es| ==> !Puts(cfg, es[m], key) && !Drops(es[m], key) && !CountedAt(cfg, n, es, key, m)
  }

  /** What the store holds of a key registered by `e` with `count` accesses since,
      last written at `written`. */
  predicate StoredAs(cfg: Config, r: Redis, key: CacheKey, e: Event, count: nat, written: real) {
    && e.call.Register? && key in r.entries
    && r.entries[key].expiresAt == written + cfg.ttlSeconds as real
    && r.entries[key].kvDataSize == |e.call.entry.kvData|
    && var m, m' := e.call.entry.meta, r.entries[key].meta;
       && m' == m.(lastAccessed := m'.lastAccessed, accessCount := m.accessCount + count, hitRate := m'.hitRate)
       && m'.lastAccessed == if count == 0 then m.lastAccessed else written
  }

  ghost predicate StoredExactly(cfg: Config, n: nat, es: seq<Event>, key: CacheKey, j: nat, w: nat)
    requires Runnable(n, es)
  {
    && StoredSince(cfg, es, key, j) && j <= w && WrittenLast(cfg, n, es, key, w)
    && StoredAs(cfg, Run(cfg, n, es).redis, key, es[j], CountedSince(cfg, n, es, key, j + 1), es[w].now)
  }

  lemma JustStored(cfg: Config, n: nat, es: seq<Event>, key: CacheKey)
    requires Runnable(n, es) && es != [] && Puts(cfg, es[|es| - 1], key)
    ensures StoredExactly(cfg, n, es, key, |es| - 1, |es| - 1)
  {
    var last := |es| - 1;
    FrontRunnable(n, es);
    var s := Run(cfg, n, es[..last]);
    StepEntry(cfg, s.redis, s.locals[es[last].at], es[last], key);
    assert CountedSince(cfg, n, es, key, last + 1) == 0;
  }

  lemma StoredAsNext(cfg: Config, r: Redis, l: Local, e: Event, key: CacheKey, reg: Event, count: nat, written: real)
    requires StoredAs(cfg, r, key, reg, count, written) && !Puts(cfg, e, key) && !Drops(e, key)
    ensures var r' := CallRedis(cfg, r, l, e);
            if Counts(cfg, r, e, key) then StoredAs(cfg, r', key, reg, count + 1, e.now)
            else StoredAs(cfg, r', key, reg, count, written)
  {
    StepEntry(cfg, r, l, e, key);
  }

  lemma StillStored(cfg: Config, n: nat, es: seq<Event>, key: CacheKey, j: nat, w: nat)
    requires Runnable(n, es) && es != [] && !Puts(cfg, es[|es| - 1], key) && !Drops(es[|es| - 1], key)
    requires Runnable(n, es[..|es| - 1]) && StoredExactly(cfg, n, es[..|es| - 1], key, j, w)
    ensures StoredExactly(cfg, n, es, key, j, if CountedAt(cfg, n, es, key, |es| - 1) then |es| - 1 else w)
  {
    var last := |es| - 1;
    var s := Run(cfg, n, es[..last]);
    StoredAsNext(cfg, s.redis, s.locals[es[last].at], es[last], key, es[j],
                 CountedSince(cfg, n, es[..last], key, j + 1), es[w].now);
    if !CountedAt(cfg, n, es, key, last) { WrittenLonger(cfg, n, es, key, w); }
  }

  lemma WrittenLonger(cfg: Config, n: nat, es: seq<Event>, key: CacheKey, w: nat)
    requires Runnable(n, es) && es != [] && Runnable(n, es[..|es| - 1])
    requires WrittenLast(cfg, n, es[..|es| - 1], key, w)
    requires var last := |es| - 1; !Puts(cfg, es[last], key) && !Drops(es[last], key) && !CountedAt(cfg, n, es, key, last)
    ensures WrittenLast(cfg, n, es, key, w)
  {
    var front := es[..|es| - 1];
    forall m: nat | m < |front| ensures CountedAt(cfg, n, es, key, m) == CountedAt(cfg, n, front, key, m) {
      assert front[..m] == es[..m];
    }
  }

  /** Over every run the store has an entry for a key exactly if it was registered
      and not removed since; and then it is the entry registered last, with every
      access since counted, and a full lifetime from the last write. */
  lemma {:induction false} StoreIsExact(cfg: Config, n: nat, es: seq<Event>, key: CacheKey) returns (j: nat, w: nat)
    requires Runnable(n, es)
    ensures key in Run(cfg, n, es).redis.entries <==> exists i: nat :: StoredSince(cfg, es, key, i)
    ensures key in Run(cfg, n, es).redis.entries ==> StoredExactly(cfg, n, es, key, j, w)
  {
    j, w := 0, 0;
    if es != [] {
      var last := |es| - 1;
      FrontRunnable(n, es);
      j, w := StoreIsExact(cfg, n, es[..last], key);
      StoredKeys(cfg, n, es, key);
      StoredLonger(cfg, es, key);
      if Puts(cfg, es[last], key) {
        j, w := last, last;
        JustStored(cfg, n, es, key);
      } else if key in Run(cfg, n, es).redis.entries {
        StillStored(cfg, n, es, key, j, w);
        if CountedAt(cfg, n, es, key, last) { w := last; }
      }
    }
  }

  lemma StoredKeys(cfg: Config, n: nat, es: seq<Event>, key: CacheKey)
    requires Runnable(n, es) && es != [] && Runnable(n, es[..|es| - 1])
    ensures var last := |es| - 1;
            key in Run(cfg, n, es).redis.entries <==>
              Puts(cfg, es[last], key) || (key in Run(cfg, n, es[..last]).redis.entries && !Drops(es[last], key))
  {
    var s, e := Run(cfg, n, es[..|es| - 1]), es[|es| - 1];
    StepEntry(cfg, s.redis, s.locals[e.at], e, key);
  }

  lemma StoredLonger(cfg: Config, es: seq<Event>, key: CacheKey)
    requires es != []
    ensures var last := |es| - 1;
            forall i: nat :: i < last ==>
              (StoredSince(cfg, es, key, i) <==>
                 StoredSince(cfg, es[..last], key, i) && !Puts(cfg, es[last], key) && !Drops(es[last], key))
  {
  }

  // ------------------------------------------------------ the local copies

  /** A sweep leaves exactly the copies that have not expired, as they are. */
  lemma SweepIsExact(l: Local, now: real)
    requires LocalWellKeyed(l)
    ensures var l' := Swept(l, now);
            && (forall key :: key in l'.cache <==> key in l.cache && now <= l.ttl[key])
            && (forall key :: key in l'.cache ==> key in l'.ttl && l'.cache[key] == l.cache[key] && l'.ttl[key] == l.ttl[key])
            && LocalWellKeyed(l') && l'.stats == l.stats
  {
  }

  /** An entry read from the store is answered from memory for 30 seconds, and so
      is an entry just registered, data and all, whatever the store does. */
  lemma AnswersAreRemembered(cfg: Config, r: Redis, later: Redis, l: Local, k: CacheKey, e: Entry, now: real, t: real, up: bool)
    requires now <= t < now + 30.0
    ensures !Fresh(l, k, now) && Live(r, k, now) ==>
              Lookup(later, LookupLocal(r, l, k, now, true), k, t, up) == Some(Entry(r.entries[k].meta, []))
    ensures CanStore(cfg, true) ==> Lookup(later, RegisterLocal(cfg, l, e, now, true), e.meta.key, t, up) == Some(e)
  {
  }

  // ------------------------------------------------------------ statistics

  /** Each key looked up counts as a query, each entry found as a hit. */
  lemma {:induction false} FetchedCounts(r: Redis, l: Local, keys: seq<CacheKey>, now: real)
    requires AllParse(keys)
    ensures var l', found := Fetched(r, l, keys, now).0, Answered(r, l, keys, now);
            && l'.stats.queries == l.stats.queries + |keys| && l'.stats.hits == l.stats.hits + |found|
            && l'.stats.added == l.stats.added && l'.stats.removed == l.stats.removed
  {
    FetchedAnswers(r, l, keys, now);
    if keys != [] {
      var front, last := keys[..|keys| - 1], keys[|keys| - 1];
      assert keys == front + [last];
      FetchedCounts(r, l, front, now);
      FetchedAnswers(r, l, front, now);
    }
  }

  /** What a call adds to its instance's statistics. */
  lemma StepStats(cfg: Config, r: Redis, l: Local, e: Event)
    requires e.call.ListNode? ==> AllParse(InOrder(e.call.order, IndexOf(r, e.call.node)))
    ensures var s, s', answer := l.stats, CallLocal(cfg, r, l, e).stats, CallAnswer(cfg, r, l, e);
            && s'.added == s.added + (if e.call.Register? && answer == Flag(true) then 1 else 0)
            && s'.removed == s.removed + (if e.call.Unregister? && answer == Flag(true) then 1 else 0)
            && s'.hits == s.hits + (if e.call.Get? || e.call.ListNode? then |EntriesOf(answer)| else 0)
            && s'.queries == s.queries + (if e.call.Get? then 1
                                          else if e.call.ListNode? && e.up then |InOrder(e.call.order, IndexOf(r, e.call.node))|
                                          else 0)
  {
    match e.call
    case UnregisterNode(n, order) => NothingToClean(r, l, n, order, e.now, e.up);
    case ListNode(n, order) =>
      FetchedCounts(r, l, InOrder(order, IndexOf(r, n)), e.now);
      FetchedAnswers(r, l, InOrder(order, IndexOf(r, n)), e.now);
    case _ =>
  }

  predicate StatsAddUp(l: Local) {
    l.stats.queries == l.stats.hits + l.stats.misses
  }

  lemma CallKeepsStats(cfg: Config, r: Redis, l: Local, e: Event)
    requires StatsAddUp(l)
    ensures StatsAddUp(CallLocal(cfg, r, l, e))
  {
    match e.call
    case UnregisterNode(n, order) => NothingToClean(r, l, n, order, e.now, e.up);
    case ListNode(n, order) => FetchedKeeps(r, l, InOrder(order, IndexOf(r, n)), e.now, m => StatsAddUp(m));
    case _ =>
  }

  /** Over every run, on every instance, a query is a hit or a miss. */
  lemma {:induction false} RunStatsAddUp(cfg: Config, n: nat, es: seq<Event>, i: nat)
    requires Runnable(n, es) && i < n
    ensures StatsAddUp(Run(cfg, n, es).locals[i])
  {
    if es != [] {
      var before, e := es[..|es| - 1], es[|es| - 1];
      RunStatsAddUp(cfg, n, before, i);
      var s := Run(cfg, n, before);
      if e.at == i { CallKeepsStats(cfg, s.redis, s.locals[i], e); }
    }
  }
}
