/** What every run of the affinity tracker keeps: the prefix map and the
    per-node deques agree, deques stay in time order, the map stays within its
    limit, and eviction removes exactly the least recently used entries. */
module AffinityInvariants {
  import opened Common
  import opened StableSorting
  import opened AffinityState

  // ------------------------------------------------------------- invariant

  ghost predicate TimeSorted(d: seq<Stamp>) {
    forall i, j :: 0 <= i < j < |d| ==> d[i].1 <= d[j].1
  }

  /** The deque still shows the use recorded at `t`, or is full of entries that
      are at least as recent. */
  ghost predicate Shows(d: seq<Stamp>, prefix: string, t: real) {
    || (prefix, t) in d
    || (|d| == 1000 && forall x :: x in d ==> x.1 >= t)
  }

  ghost predicate Tracked(s: State, p: string)
    requires p in s.prefixes
  {
    var here := s.prefixes[p];
    here.node in s.recent && Shows(s.recent[here.node], p, here.lastSeen)
  }

  ghost predicate DequeOk(d: seq<Stamp>, now: real) {
    && |d| <= 1000
    && TimeSorted(d)
    && forall x :: x in d ==> x.1 <= now
  }

  ghost predicate Inv(s: State, now: real) {
    && OrderMatches(s)
    && (forall p :: p in s.prefixes ==> Tracked(s, p))
    && (forall p :: p in s.prefixes ==> s.prefixes[p].accessCount >= 1 && s.prefixes[p].lastSeen <= now)
    && (forall n :: n in s.recent ==> DequeOk(s.recent[n], now))
  }

  // ------------------------------------------------------ one step at a time

  lemma AppendInOrder(d: seq<Stamp>, x: Stamp)
    requires DequeOk(d, x.1)
    ensures DequeOk(Append(d, x), x.1) && x in Append(d, x)
  {
    var e, r := d + [x], Append(d, x);
    assert TimeSorted(e);
    assert r[|r| - 1] == x;
    assert forall y :: y in r ==> y in e;
  }

  /** What an append to a full deque drops is no more recent than what stays. */
  lemma AppendKeeps(d: seq<Stamp>, x: Stamp, p: string, t: real)
    requires DequeOk(d, x.1)
    ensures DequeOk(Append(d, x), x.1)
    ensures x in Append(d, x)
    ensures t <= x.1 && Shows(d, p, t) ==> Shows(Append(d, x), p, t)
  {
    AppendInOrder(d, x);
    var e, r := d + [x], Append(d, x);
    assert forall y :: y in r ==> y in d || y == x;
    if t <= x.1 && (p, t) in d {
      var i :| 0 <= i < |d| && d[i] == (p, t);
      if |e| > DEQUE_LIMIT {
        assert forall k :: 0 <= k < |r| ==> r[k] == e[k + 1];
        if i > 0 { assert r[i - 1] == (p, t); }
      } else {
        assert r[i] == (p, t);
      }
    }
  }

  lemma TouchedKeepsInv(s: State, id: string, prefix: string, node: string, estimate: real, now: real)
    requires Inv(s, now)
    ensures Inv(Touched(s, id, prefix, node, estimate, now), now)
  {
    var s' := Touched(s, id, prefix, node, estimate, now);
    TouchedOrder(s, id, prefix, node, estimate, now);
    AppendKeeps(RecentOf(s, node), (prefix, now), prefix, now);
    forall p | p in s'.prefixes ensures Tracked(s', p) {
      if p != prefix {
        assert Tracked(s, p);
        if s.prefixes[p].node == node {
          AppendKeeps(RecentOf(s, node), (prefix, now), p, s.prefixes[p].lastSeen);
        }
      }
    }
  }

  /** Popping old entries off the front: what is left, and that nothing but old
      entries went. */
  lemma {:induction false} DropOldMembers(d: seq<Stamp>, cutoff: real)
    requires TimeSorted(d)
    ensures TimeSorted(DropOld(d, cutoff)) && |DropOld(d, cutoff)| <= |d|
    ensures forall x :: x in DropOld(d, cutoff) <==> x in d && x.1 >= cutoff
    ensures (forall x :: x in d ==> x.1 >= cutoff) ==> DropOld(d, cutoff) == d
  {
    if d != [] && d[0].1 < cutoff {
      DropOldMembers(d[1..], cutoff);
      assert d == [d[0]] + d[1..];
    } else if d != [] {
      assert forall i :: 0 <= i < |d| ==> d[0].1 <= d[i].1;
    }
  }

  function Since(d: seq<Stamp>, cutoff: real): seq<Stamp> {
    if d == [] then []
    else (if d[0].1 >= cutoff then [d[0]] else []) + Since(d[1..], cutoff)
  }

  /** On a deque in time order, popping the front until a recent entry shows up
      is the same as filtering the whole deque. */
  lemma {:induction false} PoppingIsFiltering(d: seq<Stamp>, cutoff: real)
    requires TimeSorted(d)
    ensures DropOld(d, cutoff) == Since(d, cutoff)
  {
    if d != [] {
      var rest := d[1..];
      PoppingIsFiltering(rest, cutoff);
      if d[0].1 >= cutoff {
        assert rest != [] ==> rest[0].1 >= cutoff;
        assert DropOld(rest, cutoff) == rest;
        assert d == [d[0]] + rest;
      }
    }
  }

  lemma PurgedKeepsInv(s: State, now: real, window: real)
    requires Inv(s, now)
    ensures Inv(Purged(s, now, window), now)
  {
    var s', cutoff := Purged(s, now, window), now - window;
    PurgedOrder(s, now, window);
    forall n | n in s'.recent ensures DequeOk(s'.recent[n], now) {
      DropOldMembers(s.recent[n], cutoff);
    }
    forall p | p in s'.prefixes ensures Tracked(s', p) {
      assert Tracked(s, p);
      DropOldMembers(s.recent[s.prefixes[p].node], cutoff);
    }
  }

  lemma EvictedKeepsInv(s: State, maxEntries: int, now: real)
    requires Inv(s, now)
    ensures Inv(Evicted(s, maxEntries), now)
  {
    EvictedOrder(s, maxEntries);
    var s' := Evicted(s, maxEntries);
    forall p | p in s'.prefixes ensures Tracked(s', p) {
      assert Tracked(s, p);
    }
  }

  lemma InvLater(s: State, now: real, later: real)
    requires Inv(s, now) && now <= later
    ensures Inv(s, later)
  {
    forall p | p in s.prefixes ensures Tracked(s, p) && s.prefixes[p].lastSeen <= later {
    }
    forall n | n in s.recent ensures DequeOk(s.recent[n], later) {
      assert DequeOk(s.recent[n], now);
    }
  }

  // ---------------------------------------------------------------- eviction

  /** `p` is used later than `q`, or at the same instant but was mapped after it. */
  ghost predicate MoreRecent(s: State, p: string, q: string)
    requires p in s.prefixes && q in s.prefixes
  {
    || s.prefixes[q].lastSeen < s.prefixes[p].lastSeen
    || (s.prefixes[q].lastSeen == s.prefixes[p].lastSeen && MappedBefore(s.order, q, p))
  }

  ghost predicate MappedBefore(order: seq<string>, q: string, p: string) {
    exists i, j :: 0 <= i < j < |order| && order[i] == q && order[j] == p
  }

  /** `names` lists every mapped prefix once, least recently used first. */
  ghost predicate Ranks(s: State, names: seq<string>) {
    && Distinct(names)
    && (forall p :: p in names <==> p in s.prefixes)
    && (forall i, j :: 0 <= i < j < |names| ==> MoreRecent(s, names[j], names[i]))
  }

  lemma ByAgeRanks(s: State)
    requires OrderMatches(s)
    ensures Ranks(s, ByAge(s))
  {
    var keys, names := LastUses(s), ByAge(s);
    var r := Ranking(keys);
    RankingOrdered(keys);
    forall p ensures p in names <==> p in s.prefixes {
      if p in s.prefixes {
        assert p in s.order;
        var k: nat :| k < |s.order| && s.order[k] == p;
        assert k in r;
        var i :| 0 <= i < |r| && r[i] == k;
        assert names[i] == p;
      }
    }
    forall i, j | 0 <= i < j < |names| ensures names[i] != names[j] && MoreRecent(s, names[j], names[i]) {
      assert Before(keys, r[i], r[j]);
      assert names[i] == s.order[r[i]] && names[j] == s.order[r[j]];
    }
  }

  /** Taking the first `n` of a ranking leaves the more recent rest. */
  lemma FrontOfRanking(s: State, names: seq<string>, n: nat)
    requires Ranks(s, names) && n <= |names|
    ensures Members(names[..n]) <= s.prefixes.Keys && |Members(names[..n])| == n
    ensures n == |names| ==> Members(names[..n]) == s.prefixes.Keys
    ensures forall p, q :: p in s.prefixes.Keys - Members(names[..n]) && q in Members(names[..n]) ==> MoreRecent(s, p, q)
    ensures n < |names| ==> names[|names| - 1] !in Members(names[..n])
  {
    DistinctCount(names[..n], Members(names[..n]));
    forall p | p in s.prefixes.Keys - Members(names[..n])
      ensures exists j :: n <= j < |names| && names[j] == p
    {
      assert p in names;
    }
  }

  /** An overflowing map with `maxEntries >= 1000` is cut to exactly
      `maxEntries - 1000` entries; whatever stays is more recent than whatever
      goes; and what stays is unchanged. */
  lemma EvictionIsExact(s: State, maxEntries: int)
    requires OrderMatches(s) && |s.prefixes| > maxEntries >= EVICTION_SLACK
    ensures var s' := Evicted(s, maxEntries);
            && !EvictionOverruns(s, maxEntries)
            && |s'.prefixes| == maxEntries - EVICTION_SLACK
            && s'.prefixes.Keys <= s.prefixes.Keys
            && (forall p :: p in s'.prefixes ==> s'.prefixes[p] == s.prefixes[p])
            && (forall p, q :: p in s'.prefixes && q in s.prefixes && q !in s'.prefixes ==> MoreRecent(s, p, q))
            && s'.recent == s.recent && s'.active == s.active
  {
    var s', n := Evicted(s, maxEntries), Excess(s, maxEntries);
    DistinctCount(s.order, s.prefixes.Keys);
    ByAgeRanks(s);
    FrontOfRanking(s, ByAge(s), n);
    assert s'.prefixes.Keys == s.prefixes.Keys - Members(ByAge(s)[..n]);
    assert |s'.prefixes| == |s'.prefixes.Keys|;
  }

  /** With `maxEntries < 1000` an overflow, and nothing else, empties the map and
      then runs past the end of the sorted list. */
  lemma EvictionOverrun(s: State, maxEntries: int)
    requires OrderMatches(s)
    ensures EvictionOverruns(s, maxEntries) <==> |s.prefixes| > maxEntries && maxEntries < 1000
    ensures EvictionOverruns(s, maxEntries) ==> Evicted(s, maxEntries).prefixes == map[]
    ensures |s.prefixes| <= maxEntries ==> Evicted(s, maxEntries) == s
  {
    DistinctCount(s.order, s.prefixes.Keys);
    if |s.prefixes| > maxEntries && maxEntries < 1000 {
      assert FirstNames(ByAge(s), Excess(s, maxEntries)) == ByAge(s);
      AllRanked(s);
    }
  }

  lemma AllRanked(s: State)
    requires OrderMatches(s)
    ensures s.prefixes - Members(ByAge(s)) == map[]
  {
    ByAgeRanks(s);
    assert forall p :: p in ByAge(s) <==> p in s.prefixes;
  }

  lemma NewestRanksLast(s: State)
    requires OrderMatches(s) && s.order != []
    requires forall q :: q in s.prefixes ==> s.prefixes[q].lastSeen <= s.prefixes[s.order[|s.order| - 1]].lastSeen
    ensures ByAge(s)[|s.order| - 1] == s.order[|s.order| - 1]
  {
    GreatestLast(LastUses(s));
  }

  /** A prefix used last of all, and last in insertion order if the map
      overflows, is lost by an eviction only if it was not mapped before it. */
  lemma NewestKept(s: State, maxEntries: int, p: string)
    requires OrderMatches(s) && maxEntries > EVICTION_SLACK
    requires p in s.prefixes ==> forall q :: q in s.prefixes ==> s.prefixes[q].lastSeen <= s.prefixes[p].lastSeen
    requires p in s.prefixes && |s.prefixes| > maxEntries ==> s.order != [] && s.order[|s.order| - 1] == p
    ensures p in Evicted(s, maxEntries).prefixes <==> p in s.prefixes
    ensures p in s.prefixes ==> Evicted(s, maxEntries).prefixes[p] == s.prefixes[p]
  {
    if p in s.prefixes && |s.prefixes| > maxEntries {
      DistinctCount(s.order, s.prefixes.Keys);
      NewestRanksLast(s);
      ByAgeRanks(s);
      FrontOfRanking(s, ByAge(s), Excess(s, maxEntries));
    }
  }

  // ----------------------------------------------------------- whole runs

  function EndTime(e: Event): real {
    if e.Record? then e.end else e.at
  }

  function StartTime(e: Event): real {
    if e.Record? then e.start else e.at
  }

  ghost predicate Monotone(es: seq<Event>) {
    && (forall i :: 0 <= i < |es| ==> StartTime(es[i]) <= EndTime(es[i]))
    && (forall i, j :: 0 <= i < j < |es| ==> EndTime(es[i]) <= StartTime(es[j]))
  }

  function Run(cfg: Config, es: seq<Event>): (s: State)
    ensures OrderMatches(s)
  {
    if es == [] then EMPTY
    else
      var s := Run(cfg, es[..|es| - 1]);
      ApplyOrder(s, cfg, es[|es| - 1]);
      Apply(s, cfg, es[|es| - 1])
  }

  lemma BeforeEvictionOrder(s: State, cfg: Config, e: Event)
    requires OrderMatches(s) && e.Record?
    ensures OrderMatches(BeforeEviction(s, cfg, e))
  {
    TouchedOrder(s, e.id, e.prefix, e.node, e.estimate, e.start);
    PurgedOrder(Touched(s, e.id, e.prefix, e.node, e.estimate, e.start), e.end, cfg.window);
  }

  lemma ApplyOrder(s: State, cfg: Config, e: Event)
    requires OrderMatches(s)
    ensures OrderMatches(Apply(s, cfg, e))
  {
    if e.Record? {
      BeforeEvictionOrder(s, cfg, e);
      EvictedOrder(BeforeEviction(s, cfg, e), cfg.maxEntries);
    }
  }

  lemma ApplyKeepsInv(s: State, cfg: Config, e: Event, now: real)
    requires Inv(s, now) && now <= StartTime(e) <= EndTime(e)
    ensures Inv(Apply(s, cfg, e), EndTime(e))
  {
    InvLater(s, now, StartTime(e));
    if e.Record? {
      var touched := Touched(s, e.id, e.prefix, e.node, e.estimate, e.start);
      TouchedKeepsInv(s, e.id, e.prefix, e.node, e.estimate, e.start);
      InvLater(touched, e.start, e.end);
      PurgedKeepsInv(touched, e.end, cfg.window);
      EvictedKeepsInv(Purged(touched, e.end, cfg.window), cfg.maxEntries, e.end);
    } else {
      assert forall p :: p in s.prefixes ==> Tracked(s, p);
      var s' := Apply(s, cfg, e);
      forall p | p in s'.prefixes ensures Tracked(s', p) {
        assert Tracked(s, p);
      }
    }
  }

  /** In every run, and at every later time, each mapped prefix is still shown
      by its node's deque or was crowded out by more recent uses. */
  lemma {:induction false} RunKeepsInv(cfg: Config, es: seq<Event>, now: real)
    requires Monotone(es) && (es != [] ==> EndTime(es[|es| - 1]) <= now)
    ensures Inv(Run(cfg, es), now)
  {
    if es != [] {
      var before, e := es[..|es| - 1], es[|es| - 1];
      RunKeepsInv(cfg, before, StartTime(e));
      ApplyKeepsInv(Run(cfg, before), cfg, e, StartTime(e));
      InvLater(Run(cfg, es), EndTime(e), now);
    }
  }

  lemma FewerFreshPrefixes(s: State, cutoff: real)
    ensures FreshPrefixes(s, cutoff).Keys <= s.prefixes.Keys
    ensures |FreshPrefixes(s, cutoff)| <= |s.prefixes|
  {
    var f := FreshPrefixes(s, cutoff);
    SubsetCount(f.Keys, s.prefixes.Keys);
    assert |f| == |f.Keys| && |s.prefixes| == |s.prefixes.Keys|;
  }

  lemma PurgedNoLarger(s: State, now: real, window: real)
    ensures |Purged(s, now, window).prefixes| <= |s.prefixes|
  {
    FewerFreshPrefixes(s, now - window);
  }

  /** Recording a prefix that is already mapped does not make the map grow. */
  lemma TouchedSize(s: State, id: string, prefix: string, node: string, estimate: real, now: real)
    ensures var touched := Touched(s, id, prefix, node, estimate, now);
            |touched.prefixes| == if prefix in s.prefixes then |s.prefixes| else |s.prefixes| + 1
  {
    var touched := Touched(s, id, prefix, node, estimate, now);
    assert touched.prefixes.Keys == s.prefixes.Keys + {prefix};
    assert |touched.prefixes| == |touched.prefixes.Keys| && |s.prefixes| == |s.prefixes.Keys|;
    if prefix in s.prefixes { assert s.prefixes.Keys + {prefix} == s.prefixes.Keys; }
  }

  lemma EvictedWithin(s: State, maxEntries: int)
    requires OrderMatches(s) && maxEntries >= EVICTION_SLACK
    ensures |Evicted(s, maxEntries).prefixes| <= maxEntries && !EvictionOverruns(s, maxEntries)
  {
    if |s.prefixes| > maxEntries { EvictionIsExact(s, maxEntries); }
  }

  /** In every run with `maxEntries >= 1000` the map is within its limit at each
      call boundary, and no call raises. */
  lemma {:induction false} RunKeepsLimit(cfg: Config, es: seq<Event>)
    requires cfg.maxEntries >= EVICTION_SLACK
    ensures |Run(cfg, es).prefixes| <= cfg.maxEntries
    ensures es != [] && es[|es| - 1].Record? ==>
      !EvictionOverruns(BeforeEviction(Run(cfg, es[..|es| - 1]), cfg, es[|es| - 1]), cfg.maxEntries)
  {
    if es != [] {
      RunKeepsLimit(cfg, es[..|es| - 1]);
      var s, e := Run(cfg, es[..|es| - 1]), es[|es| - 1];
      if e.Record? {
        BeforeEvictionOrder(s, cfg, e);
        EvictedWithin(BeforeEviction(s, cfg, e), cfg.maxEntries);
      }
    }
  }

  lemma PurgedLast(s: State, now: real, window: real)
    requires s.order != [] && s.order[|s.order| - 1] in Purged(s, now, window).prefixes
    ensures var o := Purged(s, now, window).order; o != [] && o[|o| - 1] == s.order[|s.order| - 1]
  {
    var kept := KeepIn(s.order, FreshPrefixes(s, now - window).Keys);
    assert kept[|kept| - 1] == s.order[|s.order| - 1];
  }

  lemma TouchedTimes(s: State, cfg: Config, e: Event, now: real)
    requires Inv(s, now) && e.Record? && now <= e.start
    ensures var b := BeforeEviction(s, cfg, e);
            && (e.prefix in b.prefixes <==> e.end - e.start <= cfg.window)
            && (e.prefix in b.prefixes ==>
                  b.prefixes[e.prefix].node == e.node && b.prefixes[e.prefix].lastSeen == e.start)
            && (forall q :: q in b.prefixes ==> b.prefixes[q].lastSeen <= e.start)
  {
    var touched := Touched(s, e.id, e.prefix, e.node, e.estimate, e.start);
    assert forall q :: q in touched.prefixes ==> touched.prefixes[q].lastSeen <= e.start;
  }

  /** A run that raises: with no entries allowed, the first record does. */
  lemma FirstRecordOverruns(id: string, prefix: string, node: string, window: real, at: real)
    requires window >= 0.0
    ensures var cfg, e := Config(window, 0), Record(id, prefix, node, at, at, at);
            EvictionOverruns(BeforeEviction(Run(cfg, []), cfg, e), cfg.maxEntries) && Run(cfg, [e]).prefixes == map[]
  {
    var cfg, e := Config(window, 0), Record(id, prefix, node, at, at, at);
    BeforeEvictionOrder(EMPTY, cfg, e);
    FirstRecordIsMapped(cfg, e);
    EvictionOverrun(BeforeEviction(EMPTY, cfg, e), 0);
    FirstStep(cfg, e);
  }

  lemma FirstRecordIsMapped(cfg: Config, e: Event)
    requires e.Record? && e.end - e.start <= cfg.window
    ensures BeforeEviction(EMPTY, cfg, e).prefixes != map[]
  {
    assert e.prefix in BeforeEviction(EMPTY, cfg, e).prefixes;
  }

  lemma FirstStep(cfg: Config, e: Event)
    ensures Run(cfg, [e]) == Apply(EMPTY, cfg, e)
  {
    assert [e][..0] == [];
  }

  /** For `maxEntries > 1000` a recorded prefix is mapped, to the node and time
      just recorded, when the call returns: exactly if the purge at the end of
      the call does not already find it outside the window. */
  lemma RecordedSurvives(s: State, cfg: Config, e: Event, now: real)
    requires Inv(s, now) && e.Record? && now <= e.start <= e.end
    requires |s.prefixes| <= cfg.maxEntries && cfg.maxEntries > EVICTION_SLACK
    ensures var s' := Apply(s, cfg, e);
            && (e.prefix in s'.prefixes <==> e.end - e.start <= cfg.window)
            && (e.prefix in s'.prefixes ==>
                  s'.prefixes[e.prefix].node == e.node && s'.prefixes[e.prefix].lastSeen == e.start)
  {
    var b := BeforeEviction(s, cfg, e);
    BeforeEvictionOrder(s, cfg, e);
    TouchedTimes(s, cfg, e, now);
    if e.prefix in b.prefixes && |b.prefixes| > cfg.maxEntries {
      var touched := Touched(s, e.id, e.prefix, e.node, e.estimate, e.start);
      TouchedSize(s, e.id, e.prefix, e.node, e.estimate, e.start);
      PurgedNoLarger(touched, e.end, cfg.window);
      PurgedLast(touched, e.end, cfg.window);
    }
    NewestKept(b, cfg.maxEntries, e.prefix);
  }

  /** One record from a good state: a good state, within the limit, no raise. */
  lemma RecordIsSafe(s: State, cfg: Config, e: Event, now: real)
    requires Inv(s, now) && e.Record? && now <= e.start <= e.end && cfg.maxEntries >= EVICTION_SLACK
    ensures Inv(Apply(s, cfg, e), e.end) && |Apply(s, cfg, e).prefixes| <= cfg.maxEntries
    ensures !EvictionOverruns(BeforeEviction(s, cfg, e), cfg.maxEntries)
  {
    ApplyKeepsInv(s, cfg, e, now);
    BeforeEvictionOrder(s, cfg, e);
    EvictedWithin(BeforeEviction(s, cfg, e), cfg.maxEntries);
  }

  predicate Records(e: Event, prefix: string) {
    e.Record? && e.prefix == prefix
  }

  ghost predicate LastRecord(es: seq<Event>, prefix: string, j: nat) {
    j < |es| && Records(es[j], prefix) && forall i :: j < i < |es| ==> !Records(es[i], prefix)
  }

  lemma ApplyLeavesOthers(s: State, cfg: Config, e: Event, prefix: string)
    requires OrderMatches(s) && !Records(e, prefix)
    ensures var s' := Apply(s, cfg, e);
            prefix in s'.prefixes ==> prefix in s.prefixes && s'.prefixes[prefix] == s.prefixes[prefix]
  {
    if e.Record? { BeforeEvictionOrder(s, cfg, e); }
  }

  lemma MappedJustRecorded(s: State, cfg: Config, e: Event)
    requires OrderMatches(s) && e.Record?
    ensures var s' := Apply(s, cfg, e);
            e.prefix in s'.prefixes ==> s'.prefixes[e.prefix].node == e.node && s'.prefixes[e.prefix].lastSeen == e.start
  {
    BeforeEvictionOrder(s, cfg, e);
    if e.prefix in Apply(s, cfg, e).prefixes {
      var touched := Touched(s, e.id, e.prefix, e.node, e.estimate, e.start);
      assert Purged(touched, e.end, cfg.window) == BeforeEviction(s, cfg, e);
      assert e.prefix in BeforeEviction(s, cfg, e).prefixes;
    }
  }

  /** If `prefix` is mapped, it is as `e` recorded it. */
  ghost predicate MappedAs(s: State, prefix: string, e: Event) {
    prefix in s.prefixes && e.Record? ==> s.prefixes[prefix].node == e.node && s.prefixes[prefix].lastSeen == e.start
  }

  lemma StepMappedAs(cfg: Config, es: seq<Event>, prefix: string, e: Event)
    requires es != []
    requires var last := es[|es| - 1];
             if Records(last, prefix) then e == last else MappedAs(Run(cfg, es[..|es| - 1]), prefix, e)
    ensures MappedAs(Run(cfg, es), prefix, e)
  {
    var s, last := Run(cfg, es[..|es| - 1]), es[|es| - 1];
    if Records(last, prefix) { MappedJustRecorded(s, cfg, last); } else { ApplyLeavesOthers(s, cfg, last, prefix); }
  }

  /** Until it is recorded again, a prefix that is still mapped is mapped as it
      was last recorded. */
  lemma {:induction false} MappedAsRecorded(cfg: Config, es: seq<Event>, j: nat, prefix: string)
    requires LastRecord(es, prefix, j)
    ensures MappedAs(Run(cfg, es), prefix, es[j])
  {
    if j < |es| - 1 { MappedAsRecorded(cfg, es[..|es| - 1], j, prefix); }
    StepMappedAs(cfg, es, prefix, es[j]);
  }

  // ------------------------------------------------- what a record leaves

  /** A node's deque after a record: the use appended, if it is its node's, and
      popped down to the window. */
  ghost predicate DequeAfter(s: State, s': State, cfg: Config, e: Event, n: string)
    requires e.Record?
  {
    && (n in s'.recent <==> n in s.recent || n == e.node)
    && (n == e.node ==>
          n in s'.recent && s'.recent[n] == DropOld(Append(RecentOf(s, n), (e.prefix, e.start)), e.end - cfg.window))
    && (n != e.node && n in s.recent ==> n in s'.recent && s'.recent[n] == DropOld(s.recent[n], e.end - cfg.window))
  }

  lemma EvictionKeepsRest(s: State, maxEntries: int)
    requires OrderMatches(s)
    ensures Evicted(s, maxEntries).recent == s.recent && Evicted(s, maxEntries).active == s.active
  {
  }

  lemma RecordDeques(s: State, cfg: Config, e: Event, n: string)
    requires e.Record?
    ensures DequeAfter(s, BeforeEviction(s, cfg, e), cfg, e, n)
  {
    var t := Touched(s, e.id, e.prefix, e.node, e.estimate, e.start);
    assert t.recent.Keys == s.recent.Keys + {e.node};
  }

  lemma ApplyDeques(s: State, cfg: Config, e: Event, n: string)
    requires OrderMatches(s) && e.Record?
    ensures DequeAfter(s, Apply(s, cfg, e), cfg, e, n)
  {
    BeforeEvictionOrder(s, cfg, e);
    RecordDeques(s, cfg, e, n);
    EvictionKeepsRest(BeforeEviction(s, cfg, e), cfg.maxEntries);
  }

  lemma AppendedShows(d: seq<Stamp>, x: Stamp, cutoff: real)
    requires DequeOk(d, x.1)
    ensures var d' := DropOld(Append(d, x), cutoff);
            x.1 >= cutoff <==> d' != [] && d'[|d'| - 1] == x
  {
    AppendInOrder(d, x);
    var a := Append(d, x);
    assert a[|a| - 1] == x;
    if x.1 >= cutoff { LastStays(a, cutoff); } else { DropOldMembers(a, cutoff); }
  }

  lemma RecentOk(s: State, node: string, now: real, later: real)
    requires Inv(s, now) && now <= later
    ensures DequeOk(RecentOf(s, node), later)
  {
  }

  /** The node's deque ends in the use recorded. */
  predicate EndsIn(s: State, node: string, x: Stamp) {
    node in s.recent && s.recent[node] != [] && s.recent[node][|s.recent[node]| - 1] == x
  }

  lemma ShownAfter(s: State, s': State, cfg: Config, e: Event)
    requires e.Record? && DequeAfter(s, s', cfg, e, e.node) && DequeOk(RecentOf(s, e.node), e.start)
    ensures e.end - e.start <= cfg.window <==> EndsIn(s', e.node, (e.prefix, e.start))
  {
    AppendedShows(RecentOf(s, e.node), (e.prefix, e.start), e.end - cfg.window);
  }

  /** The recorded use is the last entry of its node's deque, exactly if the purge
      at the end of the call does not find it outside the window. */
  lemma RecordedShows(s: State, cfg: Config, e: Event, now: real)
    requires Inv(s, now) && e.Record? && now <= e.start <= e.end
    ensures e.end - e.start <= cfg.window <==> EndsIn(Apply(s, cfg, e), e.node, (e.prefix, e.start))
  {
    RecentOk(s, e.node, now, e.start);
    ApplyDeques(s, cfg, e, e.node);
    ShownAfter(s, Apply(s, cfg, e), cfg, e);
  }

  lemma {:induction false} LastStays(d: seq<Stamp>, cutoff: real)
    requires d != [] && d[|d| - 1].1 >= cutoff
    ensures DropOld(d, cutoff) != [] && DropOld(d, cutoff)[|DropOld(d, cutoff)| - 1] == d[|d| - 1]
  {
    if d[0].1 < cutoff { LastStays(d[1..], cutoff); }
  }

  lemma LeftAfter(s: State, s': State, cfg: Config, e: Event, n: string)
    requires e.Record? && DequeAfter(s, s', cfg, e, n) && DequeOk(RecentOf(s, n), e.start) && n in s'.recent
    ensures var d := if n == e.node then Append(RecentOf(s, n), (e.prefix, e.start)) else RecentOf(s, n);
            forall x :: x in s'.recent[n] <==> x in d && e.end - x.1 <= cfg.window
  {
    if n == e.node {
      AppendInOrder(RecentOf(s, n), (e.prefix, e.start));
      DropOldMembers(Append(RecentOf(s, n), (e.prefix, e.start)), e.end - cfg.window);
    } else {
      DropOldMembers(s.recent[n], e.end - cfg.window);
    }
  }

  /** What the purge at the end of a call leaves in the deques: every use inside
      the window, of other nodes as of its own, and none outside it. */
  lemma DequesLeftInWindow(s: State, cfg: Config, e: Event, now: real, n: string)
    requires Inv(s, now) && e.Record? && now <= e.start <= e.end
    ensures var s' := Apply(s, cfg, e);
            var d := if n == e.node then Append(RecentOf(s, n), (e.prefix, e.start)) else RecentOf(s, n);
            n in s'.recent ==> forall x :: x in s'.recent[n] <==> x in d && e.end - x.1 <= cfg.window
  {
    RecentOk(s, n, now, e.start);
    ApplyDeques(s, cfg, e, n);
    if n in Apply(s, cfg, e).recent { LeftAfter(s, Apply(s, cfg, e), cfg, e, n); }
  }

  /** And in the map, before an eviction. */
  lemma MapLeftInWindow(s: State, cfg: Config, e: Event)
    requires OrderMatches(s) && e.Record?
    ensures forall p :: p in BeforeEviction(s, cfg, e).prefixes <==>
              if p == e.prefix then e.end - e.start <= cfg.window
              else p in s.prefixes && e.end - s.prefixes[p].lastSeen <= cfg.window
  {
  }

  /** A use is counted: from one for a prefix that was not mapped. */
  lemma RecordCounts(s: State, cfg: Config, e: Event)
    requires OrderMatches(s) && e.Record?
    ensures var s' := Apply(s, cfg, e);
            e.prefix in s'.prefixes ==>
              s'.prefixes[e.prefix].accessCount == 1 + if e.prefix in s.prefixes then s.prefixes[e.prefix].accessCount else 0
  {
    BeforeEvictionOrder(s, cfg, e);
  }

  /** How often the prefix was recorded from event `j` on. */
  function CountRecords(es: seq<Event>, prefix: string, j: nat): nat {
    if |es| <= j then 0
    else CountRecords(es[..|es| - 1], prefix, j) + if Records(es[|es| - 1], prefix) then 1 else 0
  }

  lemma StepUses(cfg: Config, es: seq<Event>, prefix: string)
    requires es != [] && prefix in Run(cfg, es).prefixes
    ensures var s, last := Run(cfg, es[..|es| - 1]), es[|es| - 1];
            Run(cfg, es).prefixes[prefix].accessCount ==
              (if prefix in s.prefixes then s.prefixes[prefix].accessCount else 0) + if Records(last, prefix) then 1 else 0
    ensures prefix !in Run(cfg, es[..|es| - 1]).prefixes ==> Records(es[|es| - 1], prefix)
  {
    var s, last := Run(cfg, es[..|es| - 1]), es[|es| - 1];
    if Records(last, prefix) { RecordCounts(s, cfg, last); } else { ApplyLeavesOthers(s, cfg, last, prefix); }
  }

  /** The prefix is mapped after each event from `j` on. */
  predicate MappedThrough(cfg: Config, es: seq<Event>, prefix: string, j: nat) {
    |es| <= j || (prefix in Run(cfg, es).prefixes && MappedThrough(cfg, es[..|es| - 1], prefix, j))
  }

  /** Event `j` mapped the prefix, and it has been mapped since. */
  predicate MappedFrom(cfg: Config, es: seq<Event>, prefix: string, j: nat) {
    && j < |es| && Records(es[j], prefix) && prefix !in Run(cfg, es[..j]).prefixes
    && MappedThrough(cfg, es, prefix, j)
  }

  /** Over every run the use count of a mapped prefix is the number of its records
      since the map last did not have it. */
  lemma {:induction false} UsesAreCounted(cfg: Config, es: seq<Event>, prefix: string) returns (j: nat)
    requires prefix in Run(cfg, es).prefixes
    ensures MappedFrom(cfg, es, prefix, j)
    ensures Run(cfg, es).prefixes[prefix].accessCount == CountRecords(es, prefix, j)
  {
    var n := |es| - 1;
    StepUses(cfg, es, prefix);
    if prefix in Run(cfg, es[..n]).prefixes {
      j := UsesAreCounted(cfg, es[..n], prefix);
      assert es[..n][..j] == es[..j];
    } else {
      j := n;
      assert CountRecords(es[..n], prefix, n) == 0;
    }
  }

  // ------------------------------------------------------- active requests

  /** The event ends what is known of an active request: it completes, it is
      recorded again, or some record's cleanup comes after its estimated end. */
  predicate EndsRequest(e: Event, id: string, estimate: real) {
    match e
    case Record(i, _, _, _, _, end) => i == id || estimate < end
    case Complete(i, _) => i == id
  }

  ghost predicate Active(s: State, id: string, e: Event) {
    e.Record? && id in s.active && s.active[id] == ActiveRequest(e.prefix, e.node, e.start, e.estimate)
  }

  /** What one event does to an active request. */
  ghost predicate ActiveNext(s: State, s': State, e: Event, id: string) {
    if e.Record? && e.id == id then
      && (id in s'.active <==> e.end <= e.estimate)
      && (id in s'.active ==> Active(s', id, e))
    else
      && (id in s'.active <==> id in s.active && !EndsRequest(e, id, s.active[id].estimatedCompletion))
      && (id in s'.active ==> s'.active[id] == s.active[id])
  }

  lemma RecordActive(s: State, cfg: Config, e: Event, id: string)
    requires e.Record?
    ensures ActiveNext(s, BeforeEviction(s, cfg, e), e, id)
  {
  }

  lemma StepActive(s: State, cfg: Config, e: Event, id: string)
    requires OrderMatches(s)
    ensures ActiveNext(s, Apply(s, cfg, e), e, id)
  {
    if e.Record? {
      BeforeEvictionOrder(s, cfg, e);
      RecordActive(s, cfg, e, id);
      EvictionKeepsRest(BeforeEviction(s, cfg, e), cfg.maxEntries);
    }
  }

  lemma RunActiveNext(cfg: Config, es: seq<Event>, id: string)
    requires es != []
    ensures ActiveNext(Run(cfg, es[..|es| - 1]), Run(cfg, es), es[|es| - 1], id)
  {
    StepActive(Run(cfg, es[..|es| - 1]), cfg, es[|es| - 1], id);
  }

  ghost predicate ActiveSince(es: seq<Event>, id: string, j: nat) {
    && j < |es| && es[j].Record? && es[j].id == id && es[j].end <= es[j].estimate
    && forall m :: j < m < |es| ==> !EndsRequest(es[m], id, es[j].estimate)
  }

  lemma ActiveSinceFront(es: seq<Event>, id: string, j: nat)
    requires es != [] && j < |es| - 1
    ensures ActiveSince(es, id, j) <==>
              ActiveSince(es[..|es| - 1], id, j) && !EndsRequest(es[|es| - 1], id, es[j].estimate)
  {
  }

  ghost predicate ActiveExactly(s: State, es: seq<Event>, id: string) {
    && (id in s.active <==> exists j: nat :: ActiveSince(es, id, j))
    && forall j: nat :: ActiveSince(es, id, j) ==> Active(s, id, es[j])
  }

  lemma ActiveLonger(s: State, s': State, es: seq<Event>, id: string)
    requires es != [] && ActiveExactly(s, es[..|es| - 1], id) && ActiveNext(s, s', es[|es| - 1], id)
    ensures ActiveExactly(s', es, id)
  {
    var n := |es| - 1;
    forall j: nat | j < n
      ensures ActiveSince(es, id, j) <==> ActiveSince(es[..n], id, j) && !EndsRequest(es[n], id, es[j].estimate) {
      ActiveSinceFront(es, id, j);
    }
    if es[n].Record? && es[n].id == id && es[n].end <= es[n].estimate { assert ActiveSince(es, id, n); }
  }

  /** Over every run a request is active, as recorded, exactly if it was recorded
      and has neither completed nor outlived its estimate at a cleanup since. */
  lemma {:induction false} RunActiveExactly(cfg: Config, es: seq<Event>, id: string)
    ensures ActiveExactly(Run(cfg, es), es, id)
  {
    if es != [] {
      RunActiveExactly(cfg, es[..|es| - 1], id);
      RunActiveNext(cfg, es, id);
      ActiveLonger(Run(cfg, es[..|es| - 1]), Run(cfg, es), es, id);
    }
  }
}
