/** What the local caches of the registry hold, and how far behind the store it
    may be. */
module RegistryProperties {
  import opened Common
  import opened CacheKeys
  import opened RegistryState

  // ------------------------------------------------------- removing a node

  lemma {:induction false} NoneInOrder(order: seq<CacheKey>)
    ensures InOrder(order, {}) == []
  {
    if order != [] { NoneInOrder(order[..|order| - 1]); }
  }

  /** The index is deleted before it is read, so the cleanup visits nothing. */
  lemma NothingToClean(r: Redis, l: Local, node: string, order: seq<CacheKey>, now: real, up: bool)
    ensures UnregisterNodeRedis(r, l, node, order, now, up) == if up then WithoutIndex(r, node) else r
    ensures UnregisterNodeLocal(r, l, node, order, now, up) == l
  {
    NoneInOrder(order);
    assert IndexOf(WithoutIndex(r, node), node) == {};
  }

  // --------------------------------------------------- look-ups by node

  predicate AllParse(keys: seq<CacheKey>) {
    forall k :: k in keys ==> ParsesBack(k)
  }

  /** What each key's look-up would answer on its own. */
  function Answered(r: Redis, l: Local, keys: seq<CacheKey>, now: real): seq<Entry> {
    if keys == [] then []
    else
      var x := Lookup(r, l, keys[|keys| - 1], now, true);
      Answered(r, l, keys[..|keys| - 1], now) + if x.Some? then [x.value] else []
  }

  lemma LookupUndisturbed(r: Redis, l: Local, j: CacheKey, k: CacheKey, now: real)
    ensures Lookup(r, LookupLocal(r, l, j, now, true), k, now, true) == Lookup(r, l, k, now, true)
  {
  }

  /** The look-ups do not disturb each other. */
  lemma {:induction false} FetchedAnswers(r: Redis, l: Local, keys: seq<CacheKey>, now: real)
    ensures Fetched(r, l, keys, now).1 == if AllParse(keys) then Some(Answered(r, l, keys, now)) else None
    ensures forall k :: Lookup(r, Fetched(r, l, keys, now).0, k, now, true) == Lookup(r, l, k, now, true)
  {
    if keys != [] {
      var front, last := keys[..|keys| - 1], keys[|keys| - 1];
      assert keys == front + [last];
      FetchedAnswers(r, l, front, now);
      assert Answered(r, l, front, now) + [] == Answered(r, l, front, now);
      var l' := Fetched(r, l, front, now).0;
      forall k ensures Lookup(r, LookupLocal(r, l', last, now, true), k, now, true) == Lookup(r, l, k, now, true) {
        LookupUndisturbed(r, l', last, k, now);
      }
    }
  }

  lemma {:induction false} AnsweredMembers(r: Redis, l: Local, keys: seq<CacheKey>, now: real)
    ensures forall x :: x in Answered(r, l, keys, now) <==> exists k :: k in keys && Lookup(r, l, k, now, true) == Some(x)
  {
    if keys != [] {
      var front, last := keys[..|keys| - 1], keys[|keys| - 1];
      assert keys == front + [last];
      AnsweredMembers(r, l, front, now);
    }
  }

  /** What every look-up keeps, a look-up by node keeps. */
  lemma {:induction false} FetchedKeeps(r: Redis, l: Local, keys: seq<CacheKey>, now: real, kept: Local -> bool)
    requires kept(l) && forall m, k :: kept(m) ==> kept(LookupLocal(r, m, k, now, true))
    ensures kept(Fetched(r, l, keys, now).0)
  {
    if keys != [] { FetchedKeeps(r, l, keys[..|keys| - 1], now, kept); }
  }

  // --------------------------------------------------- bounded staleness

  /** Redis holds `key`, alive at `now`, for `node`. */
  predicate Holds(r: Redis, key: CacheKey, node: string, now: real) {
    Live(r, key, now) && r.entries[key].meta.node == node
  }

  /** At the instant of some event of the run, Redis held `key` for `node`. */
  ghost predicate HeldAt(cfg: Config, n: nat, es: seq<Event>, key: CacheKey, node: string, instant: real)
    requires Runnable(n, es)
  {
    exists k :: 0 < k <= |es| && es[k - 1].now == instant && Holds(Run(cfg, n, es[..k]).redis, key, node, instant)
  }

  lemma HeldAtLonger(cfg: Config, n: nat, es: seq<Event>, e: Event, key: CacheKey, node: string, instant: real)
    requires Runnable(n, es) && e.at < n
    requires HeldAt(cfg, n, es, key, node, instant)
    ensures Runnable(n, es + [e]) && HeldAt(cfg, n, es + [e], key, node, instant)
  {
    var k :| 0 < k <= |es| && es[k - 1].now == instant && Holds(Run(cfg, n, es[..k]).redis, key, node, instant);
    assert (es + [e])[..k] == es[..k];
  }

  lemma HeldNow(cfg: Config, n: nat, es: seq<Event>, e: Event, key: CacheKey, node: string)
    requires Runnable(n, es) && e.at < n
    requires Holds(CallRedis(cfg, Run(cfg, n, es).redis, Run(cfg, n, es).locals[e.at], e), key, node, e.now)
    ensures Runnable(n, es + [e]) && HeldAt(cfg, n, es + [e], key, node, e.now)
  {
    var es' := es + [e];
    assert es'[..|es|] == es && es'[..|es'|] == es';
    assert Run(cfg, n, es').redis == CallRedis(cfg, Run(cfg, n, es).redis, Run(cfg, n, es).locals[e.at], e);
  }

  /** Each entry is stored under its own key. */
  ghost predicate WellKeyed(r: Redis) {
    forall key :: key in r.entries ==> r.entries[key].meta.key == key
  }

  /** So is each local copy, with an expiry time for it. */
  ghost predicate LocalWellKeyed(l: Local) {
    && l.cache.Keys == l.ttl.Keys
    && forall key :: key in l.cache ==> l.cache[key].meta.key == key
  }

  lemma CallKeepsKeys(cfg: Config, r: Redis, l: Local, e: Event)
    requires WellKeyed(r)
    ensures WellKeyed(CallRedis(cfg, r, l, e))
  {
    if e.call.UnregisterNode? { NothingToClean(r, l, e.call.node, e.call.order, e.now, e.up); }
  }

  lemma UpdateKeepsLocalKeys(cfg: Config, r: Redis, l: Local, k: CacheKey, now: real, up: bool)
    requires LocalWellKeyed(l)
    ensures LocalWellKeyed(UpdateLocal(cfg, r, l, k, now, up))
  {
    assert UpdateLocal(cfg, r, l, k, now, up).cache.Keys == l.cache.Keys;
  }

  lemma CallKeepsLocalKeys(cfg: Config, r: Redis, l: Local, e: Event)
    requires WellKeyed(r) && LocalWellKeyed(l)
    ensures LocalWellKeyed(CallLocal(cfg, r, l, e))
  {
    match e.call
    case Update(k) => UpdateKeepsLocalKeys(cfg, r, l, k, e.now, e.up);
    case UnregisterNode(node, order) => NothingToClean(r, l, node, order, e.now, e.up);
    case ListNode(node, order) => FetchedKeeps(r, l, InOrder(order, IndexOf(r, node)), e.now, m => LocalWellKeyed(m));
    case _ =>
  }

  lemma {:induction false} RunWellKeyed(cfg: Config, n: nat, es: seq<Event>)
    requires Runnable(n, es)
    ensures WellKeyed(Run(cfg, n, es).redis)
    ensures forall i :: 0 <= i < n ==> LocalWellKeyed(Run(cfg, n, es).locals[i])
  {
    if es != [] {
      var before, e := es[..|es| - 1], es[|es| - 1];
      RunWellKeyed(cfg, n, before);
      var s := Run(cfg, n, before);
      CallKeepsKeys(cfg, s.redis, s.locals[e.at], e);
      CallKeepsLocalKeys(cfg, s.redis, s.locals[e.at], e);
    }
  }

  /** A local copy is as it was, up to its access figures, or was made now, to
      expire in 30 seconds, while Redis held the same node. */
  ghost predicate KeptOrMade(r: Redis, l: Local, l': Local, now: real, key: CacheKey) {
    && LocalWellKeyed(l) && LocalWellKeyed(l')
    && (key in l'.cache ==>
          || (key in l.cache && l'.ttl[key] == l.ttl[key] && l'.cache[key].meta.node == l.cache[key].meta.node)
          || (l'.ttl[key] == now + LOCAL_TTL && Holds(r, key, l'.cache[key].meta.node, now)))
  }

  lemma LookupKeepsOrMakes(r: Redis, l: Local, m: Local, k: CacheKey, now: real, up: bool, key: CacheKey)
    requires WellKeyed(r) && KeptOrMade(r, l, m, now, key)
    ensures KeptOrMade(r, l, LookupLocal(r, m, k, now, up), now, key)
  {
  }

  lemma CopyKeptOrMade(cfg: Config, r: Redis, l: Local, e: Event, key: CacheKey)
    requires WellKeyed(r) && LocalWellKeyed(l)
    ensures KeptOrMade(CallRedis(cfg, r, l, e), l, CallLocal(cfg, r, l, e), e.now, key)
  {
    CallKeepsLocalKeys(cfg, r, l, e);
    match e.call
    case UnregisterNode(node, order) => NothingToClean(r, l, node, order, e.now, e.up);
    case Update(k) => UpdateKeepsNode(cfg, r, l, k, e.now, e.up, key);
    case Get(k) => LookupKeepsOrMakes(r, l, l, k, e.now, e.up, key);
    case ListNode(node, order) =>
      forall m, k | KeptOrMade(r, l, m, e.now, key) ensures KeptOrMade(r, l, LookupLocal(r, m, k, e.now, true), e.now, key) {
        LookupKeepsOrMakes(r, l, m, k, e.now, true, key);
      }
      FetchedKeeps(r, l, InOrder(order, IndexOf(r, node)), e.now, m => KeptOrMade(r, l, m, e.now, key));
    case Register(x) => RegisterKeepsOrMakes(cfg, r, l, x, e.now, e.up, key);
    case Unregister(k) =>
    case Sweep =>
    case FindByPrefix(_) =>
  }

  lemma RegisterKeepsOrMakes(cfg: Config, r: Redis, l: Local, x: Entry, now: real, up: bool, key: CacheKey)
    requires LocalWellKeyed(l)
    ensures KeptOrMade(RegisterRedis(cfg, r, x, now, up), l, RegisterLocal(cfg, l, x, now, up), now, key)
  {
  }

  lemma UpdateKeepsNode(cfg: Config, r: Redis, l: Local, k: CacheKey, now: real, up: bool, key: CacheKey)
    ensures var l' := UpdateLocal(cfg, r, l, k, now, up);
            && l'.ttl == l.ttl && l'.cache.Keys == l.cache.Keys
            && (key in l.cache ==> l'.cache[key].meta.node == l.cache[key].meta.node)
  {
  }

  /** Every local copy was made, 30 seconds before it expires, while Redis held
      the same node for the key. */
  lemma {:induction false} CopyWasHeld(cfg: Config, n: nat, es: seq<Event>, i: nat, key: CacheKey)
    requires Runnable(n, es) && i < n && key in Run(cfg, n, es).locals[i].cache
    ensures var l := Run(cfg, n, es).locals[i];
            key in l.ttl && HeldAt(cfg, n, es, key, l.cache[key].meta.node, l.ttl[key] - 30.0)
  {
    RunWellKeyed(cfg, n, es);
    if es != [] {
      var before, e := es[..|es| - 1], es[|es| - 1];
      assert es == before + [e];
      var s := Run(cfg, n, before);
      var l' := Run(cfg, n, es).locals[i];
      var node, until := l'.cache[key].meta.node, l'.ttl[key];
      RunWellKeyed(cfg, n, before);
      if i == e.at { CopyKeptOrMade(cfg, s.redis, s.locals[i], e, key); }
      if i == e.at && until == e.now + LOCAL_TTL && Holds(CallRedis(cfg, s.redis, s.locals[e.at], e), key, node, e.now) {
        HeldNow(cfg, n, before, e, key, node);
      } else {
        CopyWasHeld(cfg, n, before, i, key);
        HeldAtLonger(cfg, n, before, e, key, node, until - LOCAL_TTL);
      }
    }
  }

  lemma LookupIsBounded(cfg: Config, n: nat, es: seq<Event>, e: Event, key: CacheKey)
    requires Runnable(n, es) && Clocked(es + [e]) && e.at < n
    requires var s := Run(cfg, n, es);
             CallRedis(cfg, s.redis, s.locals[e.at], e) == s.redis
             && Lookup(s.redis, s.locals[e.at], key, e.now, e.up).Some?
    ensures Runnable(n, es + [e])
    ensures var s := Run(cfg, n, es);
            NamesRecentNode(cfg, n, es + [e], key, Lookup(s.redis, s.locals[e.at], key, e.now, e.up).value, e.now)
  {
    var s := Run(cfg, n, es);
    var l := s.locals[e.at];
    RunWellKeyed(cfg, n, es);
    if Fresh(l, key, e.now) {
      CopyWasHeld(cfg, n, es, e.at, key);
      HeldInThePast(cfg, n, es, e, key, l.cache[key].meta.node, l.ttl[key] - LOCAL_TTL);
      HeldAtLonger(cfg, n, es, e, key, l.cache[key].meta.node, l.ttl[key] - LOCAL_TTL);
    } else {
      HeldNow(cfg, n, es, e, key, s.redis.entries[key].meta.node);
    }
  }

  /** At some instant of the run in (now - 30, now] Redis held the key for the
      node the entry names. */
  ghost predicate NamesRecentNode(cfg: Config, n: nat, es: seq<Event>, key: CacheKey, x: Entry, now: real)
    requires Runnable(n, es)
  {
    && x.meta.key == key
    && exists instant :: now - 30.0 < instant <= now && HeldAt(cfg, n, es, key, x.meta.node, instant)
  }

  function EntriesOf(a: Answer): seq<Entry> {
    match a
    case Found(Some(x)) => [x]
    case Listed(xs) => xs
    case _ => []
  }

  lemma {:induction false} CollectedAnswers(r: Redis, keys: seq<CacheKey>, now: real, x: Entry) returns (k: CacheKey)
    requires x in Collected(r, keys, now)
    ensures k in keys && Live(r, k, now) && x == Entry(r.entries[k].meta, [])
  {
    k := keys[|keys| - 1];
    if !(Live(r, k, now) && x == Entry(r.entries[k].meta, [])) {
      k := CollectedAnswers(r, keys[..|keys| - 1], now, x);
    }
  }

  /** Bounded staleness, for every kind of look-up: whatever entry an instance
      answers with at time t, at some instant of the run in (t - 30, t] Redis
      held that entry's key for the node named. */
  lemma StalenessIsBounded(cfg: Config, n: nat, es: seq<Event>, e: Event, x: Entry)
    requires Runnable(n, es) && Clocked(es + [e]) && e.at < n
    requires var s := Run(cfg, n, es); x in EntriesOf(CallAnswer(cfg, s.redis, s.locals[e.at], e))
    ensures Runnable(n, es + [e]) && NamesRecentNode(cfg, n, es + [e], x.meta.key, x, e.now)
  {
    var s := Run(cfg, n, es);
    var r, l := s.redis, s.locals[e.at];
    match e.call
    case Get(k) => LookupIsBounded(cfg, n, es, e, k);
    case ListNode(node, order) =>
      var k := ListedIsLookup(r, l, node, order, e.now, x);
      LookupIsBounded(cfg, n, es, e, k);
    case FindByPrefix(keys) =>
      var k := CollectedAnswers(r, keys, e.now, x);
      CollectedIsBounded(cfg, n, es, e, k);
  }

  lemma ListedIsLookup(r: Redis, l: Local, node: string, order: seq<CacheKey>, now: real, x: Entry) returns (k: CacheKey)
    requires x in EntriesByNode(r, l, node, order, now).1
    ensures Lookup(r, l, k, now, true) == Some(x)
  {
    var keys := InOrder(order, IndexOf(r, node));
    FetchedAnswers(r, l, keys, now);
    AnsweredMembers(r, l, keys, now);
    k :| k in keys && Lookup(r, l, k, now, true) == Some(x);
  }

  lemma CollectedIsBounded(cfg: Config, n: nat, es: seq<Event>, e: Event, k: CacheKey)
    requires Runnable(n, es) && e.at < n && e.call.FindByPrefix?
    requires Live(Run(cfg, n, es).redis, k, e.now)
    ensures Runnable(n, es + [e])
    ensures NamesRecentNode(cfg, n, es + [e], k, Entry(Run(cfg, n, es).redis.entries[k].meta, []), e.now)
  {
    RunWellKeyed(cfg, n, es);
    HeldNow(cfg, n, es, e, k, Run(cfg, n, es).redis.entries[k].meta.node);
  }

  lemma HeldInThePast(cfg: Config, n: nat, es: seq<Event>, e: Event, key: CacheKey, node: string, instant: real)
    requires Runnable(n, es) && Clocked(es + [e]) && HeldAt(cfg, n, es, key, node, instant)
    ensures instant <= e.now
  {
    var k :| 0 < k <= |es| && es[k - 1].now == instant && Holds(Run(cfg, n, es[..k]).redis, key, node, instant);
    assert (es + [e])[k - 1] == es[k - 1] && (es + [e])[|es|] == e;
  }

  /** The bound is needed: with two instances, an answer can name a node that
      Redis no longer has for the key. */
  lemma SecondInstanceAnswersOldNode(cfg: Config, a: Entry, b: Entry)
    requires cfg.ttlSeconds > 0 && a.meta.key == b.meta.key && a.meta.node != b.meta.node
    ensures var es := [Event(0, Register(a), 0.0, true), Event(1, Register(b), 1.0, true)];
            && Runnable(2, es)
            && var s := Run(cfg, 2, es);
               && Lookup(s.redis, s.locals[0], a.meta.key, 2.0, true) == Some(a)
               && s.redis.entries[a.meta.key].meta == b.meta
  {
    var first, second := Event(0, Register(a), 0.0, true), Event(1, Register(b), 1.0, true);
    var es := [first, second];
    assert es[..1] == [first] && [first][..0] == [];
    var s0 := Run(cfg, 2, []);
    assert Run(cfg, 2, [first]) == Step(cfg, s0, first);
    assert Run(cfg, 2, es) == Step(cfg, Step(cfg, s0, first), second);
  }

  // ------------------------------------------------- one instance is coherent

  /** What is held locally is in the store, perhaps expired, with the same
      metadata; only the data is not kept there. */
  ghost predicate Coherent(r: Redis, l: Local) {
    forall key :: key in l.cache ==> key in r.entries && l.cache[key].meta == r.entries[key].meta
  }

  lemma CallKeepsCoherent(cfg: Config, r: Redis, l: Local, e: Event)
    requires Coherent(r, l)
    ensures Coherent(CallRedis(cfg, r, l, e), CallLocal(cfg, r, l, e))
  {
    match e.call
    case UnregisterNode(node, order) => NothingToClean(r, l, node, order, e.now, e.up);
    case ListNode(node, order) => FetchedKeeps(r, l, InOrder(order, IndexOf(r, node)), e.now, m => Coherent(r, m));
    case _ =>
  }

  lemma {:induction false} SingleInstanceIsCoherent(cfg: Config, es: seq<Event>)
    requires Runnable(1, es)
    ensures var s := Run(cfg, 1, es); Coherent(s.redis, s.locals[0])
  {
    if es != [] {
      SingleInstanceIsCoherent(cfg, es[..|es| - 1]);
      var s := Run(cfg, 1, es[..|es| - 1]);
      CallKeepsCoherent(cfg, s.redis, s.locals[0], es[|es| - 1]);
    }
  }

  /** Copies were made no later than `now`, and while the store's entry lived. */
  ghost predicate MadeAlive(r: Redis, l: Local, now: real) {
    && (forall key :: key in l.ttl ==> l.ttl[key] - LOCAL_TTL <= now)
    && (forall key :: key in l.ttl && key in r.entries ==> l.ttl[key] - LOCAL_TTL < r.entries[key].expiresAt)
  }

  lemma LookupKeepsMadeAlive(r: Redis, l: Local, k: CacheKey, now: real, up: bool)
    requires MadeAlive(r, l, now)
    ensures MadeAlive(r, LookupLocal(r, l, k, now, up), now)
  {
  }

  lemma CallKeepsMadeAlive(cfg: Config, r: Redis, l: Local, e: Event, past: real)
    requires MadeAlive(r, l, past) && past <= e.now && Coherent(r, l) && LocalWellKeyed(l)
    ensures MadeAlive(CallRedis(cfg, r, l, e), CallLocal(cfg, r, l, e), e.now)
  {
    match e.call
    case UnregisterNode(node, order) => NothingToClean(r, l, node, order, e.now, e.up);
    case Get(k) => LookupKeepsMadeAlive(r, l, k, e.now, e.up);
    case ListNode(node, order) =>
      forall m, k | MadeAlive(r, m, e.now) ensures MadeAlive(r, LookupLocal(r, m, k, e.now, true), e.now) {
        LookupKeepsMadeAlive(r, m, k, e.now, true);
      }
      FetchedKeeps(r, l, InOrder(order, IndexOf(r, node)), e.now, m => MadeAlive(r, m, e.now));
    case Register(x) => RegisterKeepsMadeAlive(cfg, r, l, x, e.now, e.up);
    case Update(k) => UpdateKeepsMadeAlive(cfg, r, l, k, e.now, e.up);
    case _ =>
  }

  lemma RegisterKeepsMadeAlive(cfg: Config, r: Redis, l: Local, x: Entry, now: real, up: bool)
    requires MadeAlive(r, l, now)
    ensures MadeAlive(RegisterRedis(cfg, r, x, now, up), RegisterLocal(cfg, l, x, now, up), now)
  {
  }

  lemma UpdateKeepsMadeAlive(cfg: Config, r: Redis, l: Local, k: CacheKey, now: real, up: bool)
    requires MadeAlive(r, l, now)
    ensures MadeAlive(UpdateRedis(cfg, r, k, now, up), UpdateLocal(cfg, r, l, k, now, up), now)
  {
  }

  lemma {:induction false} SingleInstanceMadeAlive(cfg: Config, es: seq<Event>, now: real)
    requires Runnable(1, es) && Clocked(es) && (es != [] ==> es[|es| - 1].now <= now)
    ensures var s := Run(cfg, 1, es); MadeAlive(s.redis, s.locals[0], now)
  {
    if es != [] {
      var before, e := es[..|es| - 1], es[|es| - 1];
      SingleInstanceMadeAlive(cfg, before, e.now);
      SingleInstanceIsCoherent(cfg, before);
      RunWellKeyed(cfg, 1, before);
      var s := Run(cfg, 1, before);
      CallKeepsMadeAlive(cfg, s.redis, s.locals[0], e, e.now);
    }
  }

  lemma AnswerFromCopies(r: Redis, l: Local, key: CacheKey, now: real, up: bool)
    requires Coherent(r, l) && MadeAlive(r, l, now) && LocalWellKeyed(l)
    ensures var answer := Lookup(r, l, key, now, up);
            && (answer.Some? ==> key in r.entries && answer.value.meta == r.entries[key].meta
                                 && now - 30.0 < r.entries[key].expiresAt)
            && (answer.Some? && !Live(r, key, now) <==>
                  key in l.cache && key in l.ttl && key in r.entries && r.entries[key].expiresAt <= now < l.ttl[key])
  {
  }

  /** With one instance every answer carries the metadata last stored. It can be
      for an entry that has expired in the store, by less than 30 seconds, and
      is so exactly when a local copy outlives that entry. */
  lemma SingleInstanceAnswers(cfg: Config, es: seq<Event>, e: Event)
    requires Runnable(1, es) && Clocked(es + [e]) && e.call.Get?
    ensures var s := Run(cfg, 1, es);
            var r, l, key := s.redis, s.locals[0], e.call.key;
            var answer := Lookup(r, l, key, e.now, e.up);
            && (answer.Some? ==> key in r.entries && answer.value.meta == r.entries[key].meta
                                 && e.now - 30.0 < r.entries[key].expiresAt)
            && (answer.Some? && !Live(r, key, e.now) <==>
                  key in l.cache && key in l.ttl && key in r.entries && r.entries[key].expiresAt <= e.now < l.ttl[key])
  {
    assert es == (es + [e])[..|es|] && (es + [e])[|es|] == e;
    assert forall i :: 0 <= i < |es| ==> es[i] == (es + [e])[i];
    SingleInstanceMadeAlive(cfg, es, e.now);
    SingleInstanceIsCoherent(cfg, es);
    RunWellKeyed(cfg, 1, es);
    var s := Run(cfg, 1, es);
    AnswerFromCopies(s.redis, s.locals[0], e.call.key, e.now, e.up);
  }

  /** So a single instance can answer for an entry its store has dropped. */
  lemma SingleInstanceOutlivesStore(e: Entry)
    ensures var cfg, es := Config(10), [Event(0, Register(e), 0.0, true)];
            && Runnable(1, es)
            && var s := Run(cfg, 1, es);
               && Lookup(s.redis, s.locals[0], e.meta.key, 20.0, true) == Some(e)
               && !Live(s.redis, e.meta.key, 20.0)
  {
    var first := Event(0, Register(e), 0.0, true);
    assert [first][..0] == [];
    assert Run(Config(10), 1, [first]) == Step(Config(10), Run(Config(10), 1, []), first);
  }

  // ------------------------------------------- which instances are current

  /** Instance `i`'s copy of the key, if it has one, names the store's node. */
  predicate Current(s: System, i: nat, key: CacheKey)
    requires i < |s.locals|
  {
    var l := s.locals[i];
    key in l.cache ==> key in s.redis.entries && l.cache[key].meta.node == s.redis.entries[key].meta.node
  }

  /** Another instance removes the key, or moves it to another node, under a
      copy. */
  predicate Outdates(cfg: Config, s: System, i: nat, key: CacheKey, e: Event)
    requires i < |s.locals|
  {
    && e.at != i && key in s.locals[i].cache
    && match e.call {
         case Register(x) =>
           x.meta.key == key && CanStore(cfg, e.up) && x.meta.node != s.locals[i].cache[key].meta.node
         case Unregister(k) => k == key && e.up
         case _ => false
       }
  }

  lemma OwnStepKeepsCurrent(cfg: Config, r: Redis, l: Local, e: Event, key: CacheKey)
    requires key in l.cache ==> key in r.entries && l.cache[key].meta.node == r.entries[key].meta.node
    ensures var r', l' := CallRedis(cfg, r, l, e), CallLocal(cfg, r, l, e);
            key in l'.cache ==> key in r'.entries && l'.cache[key].meta.node == r'.entries[key].meta.node
  {
    match e.call
    case UnregisterNode(node, order) => NothingToClean(r, l, node, order, e.now, e.up);
    case Update(k) => UpdateKeepsNode(cfg, r, l, k, e.now, e.up, key);
    case ListNode(node, order) =>
      FetchedKeeps(r, l, InOrder(order, IndexOf(r, node)), e.now, (m: Local) =>
        key in m.cache ==> key in r.entries && m.cache[key].meta.node == r.entries[key].meta.node);
    case _ =>
  }

  /** A step on any instance keeps the copy of instance `i` current exactly
      unless another instance outdates it. */
  lemma StepKeepsCurrentExactly(cfg: Config, s: System, e: Event, i: nat, key: CacheKey)
    requires Allowed(s, e) && i < |s.locals| && Current(s, i, key)
    ensures Current(Step(cfg, s, e), i, key) <==> !Outdates(cfg, s, i, key, e)
  {
    if e.at == i {
      OwnStepKeepsCurrent(cfg, s.redis, s.locals[i], e, key);
    } else if e.call.UnregisterNode? {
      NothingToClean(s.redis, s.locals[e.at], e.call.node, e.call.order, e.now, e.up);
    }
  }

  ghost predicate OutdatedAt(cfg: Config, n: nat, es: seq<Event>, i: nat, key: CacheKey, m: nat)
    requires Runnable(n, es) && i < n && m < |es|
  {
    Outdates(cfg, Run(cfg, n, es[..m]), i, key, es[m])
  }

  ghost predicate CurrentAt(cfg: Config, n: nat, es: seq<Event>, i: nat, key: CacheKey, m: nat)
    requires Runnable(n, es) && i < n && m <= |es|
  {
    Current(Run(cfg, n, es[..m]), i, key)
  }

  lemma {:induction false} NotOutdatedIsCurrent(cfg: Config, n: nat, es: seq<Event>, i: nat, key: CacheKey, k: nat)
    requires Runnable(n, es) && i < n && k <= |es|
    requires forall m :: 0 <= m < k ==> !OutdatedAt(cfg, n, es, i, key, m)
    ensures CurrentAt(cfg, n, es, i, key, k)
  {
    if k > 0 {
      NotOutdatedIsCurrent(cfg, n, es, i, key, k - 1);
      assert !OutdatedAt(cfg, n, es, i, key, k - 1);
      assert es[..k][..k - 1] == es[..k - 1];
      StepKeepsCurrentExactly(cfg, Run(cfg, n, es[..k - 1]), es[k - 1], i, key);
    }
  }

  lemma OutdatedIsNotCurrent(cfg: Config, n: nat, es: seq<Event>, i: nat, key: CacheKey, m: nat)
    requires Runnable(n, es) && i < n && m < |es| && OutdatedAt(cfg, n, es, i, key, m)
    ensures !CurrentAt(cfg, n, es, i, key, m) || !CurrentAt(cfg, n, es, i, key, m + 1)
  {
    assert es[..m + 1][..m] == es[..m];
    if Current(Run(cfg, n, es[..m]), i, key) { StepKeepsCurrentExactly(cfg, Run(cfg, n, es[..m]), es[m], i, key); }
  }

  /** With any number of instances: up to any point of any run, what an instance
      holds of a key names the store's node exactly if no other instance has
      removed the key or moved it under its copy. */
  lemma RunStaysCurrentExactly(cfg: Config, n: nat, es: seq<Event>, i: nat, key: CacheKey, k: nat)
    requires Runnable(n, es) && i < n && k <= |es|
    ensures (forall m :: 0 <= m <= k ==> CurrentAt(cfg, n, es, i, key, m))
            <==> (forall m :: 0 <= m < k ==> !OutdatedAt(cfg, n, es, i, key, m))
  {
    if m :| 0 <= m < k && OutdatedAt(cfg, n, es, i, key, m) {
      OutdatedIsNotCurrent(cfg, n, es, i, key, m);
    } else {
      forall m | 0 <= m <= k ensures CurrentAt(cfg, n, es, i, key, m) { NotOutdatedIsCurrent(cfg, n, es, i, key, m); }
    }
  }

  /** As long as that holds, whatever the instance answers for the key names the
      node that the store has for it. */
  lemma CurrentAnswersNameStoredNode(cfg: Config, n: nat, es: seq<Event>, i: nat, key: CacheKey, now: real, up: bool)
    requires Runnable(n, es) && i < n
    requires forall m :: 0 <= m < |es| ==> !OutdatedAt(cfg, n, es, i, key, m)
    ensures var s := Run(cfg, n, es);
            var answer := Lookup(s.redis, s.locals[i], key, now, up);
            answer.Some? ==> key in s.redis.entries && answer.value.meta.node == s.redis.entries[key].meta.node
  {
    NotOutdatedIsCurrent(cfg, n, es, i, key, |es|);
    assert es[..|es|] == es;
  }
}
