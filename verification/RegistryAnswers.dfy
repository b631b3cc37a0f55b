/** Whole runs of the registry compared by their answers: what a sweep of a local
    cache and the removal of a node change for the look-ups that follow. */
module RegistryAnswers {
  import opened Common
  import opened CacheKeys
  import opened RegistryState
  import opened RegistryProperties

  // ------------------------------------------- the sweep changes no answer

  /** The two caches hand out the same copies now and at every later time. */
  ghost predicate SameCopies(a: Local, b: Local, now: real) {
    && a.stats == b.stats
    && (forall key :: Fresh(a, key, now) <==> Fresh(b, key, now))
    && (forall key :: Fresh(a, key, now) && key in a.ttl && key in b.ttl ==>
          a.cache[key] == b.cache[key] && a.ttl[key] == b.ttl[key])
    && a.cache.Keys == a.ttl.Keys && b.cache.Keys == b.ttl.Keys
  }

  lemma SameCopiesLater(a: Local, b: Local, now: real, later: real)
    requires SameCopies(a, b, now) && now <= later
    ensures SameCopies(a, b, later)
  {
    forall key ensures Fresh(a, key, later) <==> Fresh(b, key, later) {
      assert Fresh(a, key, now) <==> Fresh(b, key, now);
    }
  }

  lemma SweepKeepsCopies(l: Local, now: real)
    requires l.cache.Keys == l.ttl.Keys
    ensures SameCopies(l, Swept(l, now), now)
  {
  }

  lemma StatsSameCopies(a: Local, b: Local, stats: Stats, now: real)
    requires SameCopies(a, b, now)
    ensures SameCopies(a.(stats := stats), b.(stats := stats), now)
  {
    forall key ensures Fresh(a.(stats := stats), key, now) <==> Fresh(b.(stats := stats), key, now) {
      assert Fresh(a, key, now) <==> Fresh(b, key, now);
    }
  }

  lemma LookupSameCopies(r: Redis, a: Local, b: Local, k: CacheKey, now: real, up: bool)
    requires SameCopies(a, b, now)
    ensures Lookup(r, a, k, now, up) == Lookup(r, b, k, now, up)
    ensures SameCopies(LookupLocal(r, a, k, now, up), LookupLocal(r, b, k, now, up), now)
  {
    assert Fresh(a, k, now) <==> Fresh(b, k, now);
    var found := Lookup(r, a, k, now, up);
    var stats := LookupLocal(r, a, k, now, up).stats;
    if found.Some? && !Fresh(a, k, now) {
      CachedSameCopies(a, b, k, found.value, now);
      StatsSameCopies(Cached(a, k, found.value, now), Cached(b, k, found.value, now), stats, now);
    } else {
      StatsSameCopies(a, b, stats, now);
    }
  }

  lemma CachedSameCopies(a: Local, b: Local, k: CacheKey, e: Entry, now: real)
    requires SameCopies(a, b, now)
    ensures SameCopies(Cached(a, k, e, now), Cached(b, k, e, now), now)
  {
    var a', b' := Cached(a, k, e, now), Cached(b, k, e, now);
    forall key ensures Fresh(a', key, now) <==> Fresh(b', key, now) {
      assert Fresh(a, key, now) <==> Fresh(b, key, now);
    }
  }

  lemma UnregisterSameCopies(a: Local, b: Local, k: CacheKey, now: real)
    requires SameCopies(a, b, now)
    ensures SameCopies(UnregisterLocal(a, k, true), UnregisterLocal(b, k, true), now)
  {
    var a', b' := UnregisterLocal(a, k, true), UnregisterLocal(b, k, true);
    forall key ensures Fresh(a', key, now) <==> Fresh(b', key, now) {
      assert Fresh(a, key, now) <==> Fresh(b, key, now);
    }
  }

  lemma UpdateSameCopies(cfg: Config, r: Redis, a: Local, b: Local, k: CacheKey, now: real, up: bool)
    requires SameCopies(a, b, now)
    ensures SameCopies(UpdateLocal(cfg, r, a, k, now, up), UpdateLocal(cfg, r, b, k, now, up), now)
  {
    var a', b' := UpdateLocal(cfg, r, a, k, now, up), UpdateLocal(cfg, r, b, k, now, up);
    forall key ensures Fresh(a', key, now) <==> Fresh(b', key, now) {
      assert Fresh(a, key, now) <==> Fresh(b, key, now);
    }
  }

  lemma SweepSameCopies(a: Local, b: Local, now: real)
    requires SameCopies(a, b, now)
    ensures SameCopies(Swept(a, now), Swept(b, now), now)
  {
    forall key ensures Fresh(Swept(a, now), key, now) <==> Fresh(Swept(b, now), key, now) {
      assert Fresh(a, key, now) <==> Fresh(b, key, now);
    }
  }

  lemma {:induction false} FetchedSameCopies(r: Redis, a: Local, b: Local, keys: seq<CacheKey>, now: real)
    requires SameCopies(a, b, now)
    ensures Fetched(r, a, keys, now).1 == Fetched(r, b, keys, now).1
    ensures SameCopies(Fetched(r, a, keys, now).0, Fetched(r, b, keys, now).0, now)
  {
    if keys != [] {
      var front, last := keys[..|keys| - 1], keys[|keys| - 1];
      FetchedSameCopies(r, a, b, front, now);
      LookupSameCopies(r, Fetched(r, a, front, now).0, Fetched(r, b, front, now).0, last, now, true);
    }
  }

  lemma CallKeepsSameCopies(cfg: Config, r: Redis, a: Local, b: Local, e: Event)
    requires SameCopies(a, b, e.now)
    ensures CallAnswer(cfg, r, a, e) == CallAnswer(cfg, r, b, e)
    ensures CallRedis(cfg, r, a, e) == CallRedis(cfg, r, b, e)
    ensures SameCopies(CallLocal(cfg, r, a, e), CallLocal(cfg, r, b, e), e.now)
  {
    match e.call
    case Register(entry) =>
      CachedSameCopies(a, b, entry.meta.key, entry, e.now);
      StatsSameCopies(Cached(a, entry.meta.key, entry, e.now), Cached(b, entry.meta.key, entry, e.now),
                      a.stats.(added := a.stats.added + 1), e.now);
    case Unregister(k) => UnregisterSameCopies(a, b, k, e.now);
    case Get(k) => LookupSameCopies(r, a, b, k, e.now, e.up);
    case Update(k) => UpdateSameCopies(cfg, r, a, b, k, e.now, e.up);
    case Sweep => SweepSameCopies(a, b, e.now);
    case UnregisterNode(node, order) =>
      NothingToClean(r, a, node, order, e.now, e.up);
      NothingToClean(r, b, node, order, e.now, e.up);
    case ListNode(node, order) => FetchedSameCopies(r, a, b, InOrder(order, IndexOf(r, node)), e.now);
    case FindByPrefix(_) =>
  }

  ghost predicate SameSystem(s: System, t: System, now: real) {
    && s.redis == t.redis && |s.locals| == |t.locals|
    && forall i :: 0 <= i < |s.locals| ==> SameCopies(s.locals[i], t.locals[i], now)
  }

  /** All answers of a run that goes on from `s`. */
  function Answers(cfg: Config, s: System, es: seq<Event>): seq<Answer>
    requires Runnable(|s.locals|, es)
    decreases |es|
  {
    if es == [] then []
    else
      var e := es[0];
      [CallAnswer(cfg, s.redis, s.locals[e.at], e)] + Answers(cfg, Step(cfg, s, e), es[1..])
  }

  lemma {:induction false} SameAnswers(cfg: Config, s: System, t: System, es: seq<Event>, now: real)
    requires SameSystem(s, t, now) && Runnable(|s.locals|, es) && Clocked(es) && (es != [] ==> now <= es[0].now)
    ensures Answers(cfg, s, es) == Answers(cfg, t, es)
    decreases |es|
  {
    if es != [] {
      var e := es[0];
      forall i | 0 <= i < |s.locals| ensures SameCopies(s.locals[i], t.locals[i], e.now) {
        SameCopiesLater(s.locals[i], t.locals[i], now, e.now);
      }
      CallKeepsSameCopies(cfg, s.redis, s.locals[e.at], t.locals[e.at], e);
      SameAnswers(cfg, Step(cfg, s, e), Step(cfg, t, e), es[1..], e.now);
    }
  }

  /** A sweep on any instance, at any point of any run, changes the answer of no
      later call on any instance. */
  lemma SweepChangesNoAnswer(cfg: Config, n: nat, past: seq<Event>, sweep: Event, future: seq<Event>)
    requires Runnable(n, past) && Runnable(n, future) && sweep.call == Sweep && sweep.at < n
    requires Clocked(future) && (future != [] ==> sweep.now <= future[0].now)
    ensures var s := Run(cfg, n, past); Answers(cfg, Step(cfg, s, sweep), future) == Answers(cfg, s, future)
  {
    var s := Run(cfg, n, past);
    forall i | 0 <= i < n ensures SameCopies(Step(cfg, s, sweep).locals[i], s.locals[i], sweep.now) {
      RunWellKeyed(cfg, n, past);
      if i == sweep.at { SweepKeepsCopies(s.locals[i], sweep.now); }
    }
    SameAnswers(cfg, Step(cfg, s, sweep), s, future, sweep.now);
  }

  // ------------------------------------------------------- removing a node

  /** Unregistering a node removes no entry, from the store or a local cache. */
  lemma UnregisterNodeCleansNothing(cfg: Config, s: System, e: Event)
    requires Allowed(s, e) && e.call.UnregisterNode?
    ensures Step(cfg, s, e).redis.entries == s.redis.entries && Step(cfg, s, e).locals == s.locals
  {
    NothingToClean(s.redis, s.locals[e.at], e.call.node, e.call.order, e.now, e.up);
  }

  /** The same entries and copies, and the same indexes but for `node`'s. */
  ghost predicate SameOff(s: System, t: System, node: string) {
    && s.redis.entries == t.redis.entries && s.locals == t.locals
    && forall n :: n != node ==> IndexOf(s.redis, n) == IndexOf(t.redis, n)
  }

  predicate LooksUp(e: Event, node: string) {
    e.call.ListNode? && e.call.node == node
  }

  lemma {:induction false} SameEntriesFetchSame(r: Redis, t: Redis, l: Local, keys: seq<CacheKey>, now: real)
    requires r.entries == t.entries
    ensures Fetched(r, l, keys, now) == Fetched(t, l, keys, now)
  {
    if keys != [] { SameEntriesFetchSame(r, t, l, keys[..|keys| - 1], now); }
  }

  lemma {:induction false} SameEntriesCollectSame(r: Redis, t: Redis, keys: seq<CacheKey>, now: real)
    requires r.entries == t.entries
    ensures Collected(r, keys, now) == Collected(t, keys, now)
  {
    if keys != [] { SameEntriesCollectSame(r, t, keys[..|keys| - 1], now); }
  }

  /** Only a look-up of a node's entries reads its index. */
  lemma CallReadsOwnIndex(cfg: Config, r: Redis, t: Redis, l: Local, e: Event)
    requires r.entries == t.entries && (e.call.ListNode? ==> IndexOf(r, e.call.node) == IndexOf(t, e.call.node))
    ensures CallRedis(cfg, r, l, e).entries == CallRedis(cfg, t, l, e).entries
    ensures CallLocal(cfg, r, l, e) == CallLocal(cfg, t, l, e)
    ensures CallAnswer(cfg, r, l, e) == CallAnswer(cfg, t, l, e)
  {
    match e.call
    case UnregisterNode(node, order) =>
      NothingToClean(r, l, node, order, e.now, e.up);
      NothingToClean(t, l, node, order, e.now, e.up);
    case ListNode(node, order) => SameEntriesFetchSame(r, t, l, InOrder(order, IndexOf(r, node)), e.now);
    case FindByPrefix(keys) => SameEntriesCollectSame(r, t, keys, e.now);
    case _ =>
  }

  /** An index changes by its own contents, the entries and the call alone. */
  lemma IndexStep(cfg: Config, r: Redis, t: Redis, l: Local, e: Event, n: string)
    requires r.entries == t.entries && IndexOf(r, n) == IndexOf(t, n)
    ensures IndexOf(CallRedis(cfg, r, l, e), n) == IndexOf(CallRedis(cfg, t, l, e), n)
  {
    match e.call
    case UnregisterNode(node, order) =>
      NothingToClean(r, l, node, order, e.now, e.up);
      NothingToClean(t, l, node, order, e.now, e.up);
    case _ =>
  }

  lemma {:induction false} SameAnswersOff(cfg: Config, s: System, t: System, es: seq<Event>, node: string)
    requires SameOff(s, t, node) && Runnable(|s.locals|, es)
    requires forall k :: 0 <= k < |es| ==> !LooksUp(es[k], node)
    ensures Answers(cfg, s, es) == Answers(cfg, t, es)
    decreases |es|
  {
    if es != [] {
      var e := es[0];
      CallReadsOwnIndex(cfg, s.redis, t.redis, s.locals[e.at], e);
      forall n | n != node ensures IndexOf(Step(cfg, s, e).redis, n) == IndexOf(Step(cfg, t, e).redis, n) {
        IndexStep(cfg, s.redis, t.redis, s.locals[e.at], e, n);
      }
      SameAnswersOff(cfg, Step(cfg, s, e), Step(cfg, t, e), es[1..], node);
    }
  }

  /** So unregistering a node changes no later answer of any instance, as long as
      the node's own entries are not listed: each of them is still found by key
      and by prefix, and other nodes' entries are listed as before. */
  lemma UnregisterNodeChangesNoAnswer(cfg: Config, s: System, e: Event, future: seq<Event>)
    requires Allowed(s, e) && e.call.UnregisterNode? && Runnable(|s.locals|, future)
    requires forall k :: 0 <= k < |future| ==> !LooksUp(future[k], e.call.node)
    ensures Answers(cfg, Step(cfg, s, e), future) == Answers(cfg, s, future)
  {
    UnregisterNodeCleansNothing(cfg, s, e);
    NothingToClean(s.redis, s.locals[e.at], e.call.node, e.call.order, e.now, e.up);
    SameAnswersOff(cfg, Step(cfg, s, e), s, future, e.call.node);
  }

  lemma {:induction false} AnsweredEmpty(r: Redis, l: Local, keys: seq<CacheKey>, now: real)
    ensures Answered(r, l, keys, now) == [] <==> forall k :: k in keys ==> !Fresh(l, k, now) && !Live(r, k, now)
  {
    if keys != [] {
      var front, last := keys[..|keys| - 1], keys[|keys| - 1];
      assert keys == front + [last];
      AnsweredEmpty(r, l, front, now);
    }
  }

  /** Listing the node's entries is what changes: after its removal nothing is
      listed, on any instance; before, nothing was listed exactly if none of the
      keys was fresh or alive, or one of them does not parse. */
  lemma UnregisterNodeHidesEntries(cfg: Config, s: System, e: Event, i: nat, order: seq<CacheKey>)
    requires Allowed(s, e) && e.call.UnregisterNode? && e.up && i < |s.locals|
    ensures var r, l, node := s.redis, s.locals[i], e.call.node;
            var keys := InOrder(order, IndexOf(r, node));
            && EntriesByNode(Step(cfg, s, e).redis, Step(cfg, s, e).locals[i], node, order, e.now) == (l, [])
            && (EntriesByNode(r, l, node, order, e.now).1 == [] <==>
                  !AllParse(keys) || forall k :: k in keys ==> !Fresh(l, k, e.now) && !Live(r, k, e.now))
  {
    var r, l, node := s.redis, s.locals[i], e.call.node;
    var keys := InOrder(order, IndexOf(r, node));
    UnregisterNodeCleansNothing(cfg, s, e);
    NothingToClean(r, s.locals[e.at], node, e.call.order, e.now, e.up);
    NoneInOrder(order);
    assert IndexOf(WithoutIndex(r, node), node) == {};
    FetchedAnswers(r, l, keys, e.now);
    AnsweredEmpty(r, l, keys, e.now);
  }

  predicate Registers(e: Event, node: string) {
    e.call.Register? && e.call.entry.meta.node == node
  }

  lemma IndexStaysEmpty(cfg: Config, r: Redis, l: Local, e: Event, node: string)
    requires IndexOf(r, node) == {} && !Registers(e, node)
    ensures IndexOf(CallRedis(cfg, r, l, e), node) == {}
    ensures LooksUp(e, node) ==> CallAnswer(cfg, r, l, e) == Listed([])
  {
    match e.call
    case UnregisterNode(m, order) => NothingToClean(r, l, m, order, e.now, e.up);
    case ListNode(_, order) => NoneInOrder(order);
    case _ =>
  }

  lemma {:induction false} EmptyIndexListsNothing(cfg: Config, s: System, es: seq<Event>, node: string)
    requires IndexOf(s.redis, node) == {} && Runnable(|s.locals|, es)
    requires forall k :: 0 <= k < |es| ==> !Registers(es[k], node)
    ensures |Answers(cfg, s, es)| == |es|
    ensures forall k :: 0 <= k < |es| && LooksUp(es[k], node) ==> Answers(cfg, s, es)[k] == Listed([])
    decreases |es|
  {
    if es != [] {
      IndexStaysEmpty(cfg, s.redis, s.locals[es[0].at], es[0], node);
      EmptyIndexListsNothing(cfg, Step(cfg, s, es[0]), es[1..], node);
    }
  }

  /** And nothing is listed for the node, on any instance, until some instance
      registers an entry on it again. */
  lemma HiddenUntilRegistered(cfg: Config, s: System, e: Event, future: seq<Event>)
    requires Allowed(s, e) && e.call.UnregisterNode? && e.up && Runnable(|s.locals|, future)
    requires forall k :: 0 <= k < |future| ==> !Registers(future[k], e.call.node)
    ensures var answers := Answers(cfg, Step(cfg, s, e), future);
            |answers| == |future|
            && forall k :: 0 <= k < |future| && LooksUp(future[k], e.call.node) ==> answers[k] == Listed([])
  {
    NothingToClean(s.redis, s.locals[e.at], e.call.node, e.call.order, e.now, e.up);
    EmptyIndexListsNothing(cfg, Step(cfg, s, e), future, e.call.node);
  }

  lemma ListedAlone(r: Redis, l: Local, node: string, key: CacheKey, now: real)
    requires key in IndexOf(r, node) && ParsesBack(key) && Fresh(l, key, now)
    ensures EntriesByNode(r, l, node, [key], now).1 == [l.cache[key]]
  {
    var keys := [key];
    assert keys[..|keys| - 1] == [];
    assert InOrder(keys, IndexOf(r, node)) == [] + [key] == keys;
    FetchedAnswers(r, l, keys, now);
    assert Answered(r, l, keys, now) == Answered(r, l, [], now) + [l.cache[key]];
  }

  /** A run in which an entry is found by key but no longer listed. */
  lemma FoundButNotListed(cfg: Config, e: Entry)
    requires cfg.ttlSeconds > 0 && ParsesBack(e.meta.key)
    ensures var key, node := e.meta.key, e.meta.node;
            var add, drop := Event(0, Register(e), 0.0, true), Event(0, UnregisterNode(node, [key]), 1.0, true);
            && Runnable(1, [add])
            && var s := Run(cfg, 1, [add]);
               var t := Step(cfg, s, drop);
               && EntriesByNode(s.redis, s.locals[0], node, [key], 1.0).1 == [e]
               && EntriesByNode(t.redis, t.locals[0], node, [key], 1.0).1 == []
               && Lookup(t.redis, t.locals[0], key, 1.0, true) == Some(e)
  {
    var key, node := e.meta.key, e.meta.node;
    var add, drop := Event(0, Register(e), 0.0, true), Event(0, UnregisterNode(node, [key]), 1.0, true);
    assert [add][..0] == [];
    var s := Run(cfg, 1, [add]);
    assert s == Step(cfg, Run(cfg, 1, []), add);
    ListedAlone(s.redis, s.locals[0], node, key, 1.0);
    UnregisterNodeHidesEntries(cfg, s, drop, 0, [key]);
    UnregisterNodeCleansNothing(cfg, s, drop);
  }
}
