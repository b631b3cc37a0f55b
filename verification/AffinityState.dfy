/** The two indexes the affinity tracker keeps over the same stream of requests,
    as values, and what each call does to them. Times are reals read from one
    clock that never runs backwards; a record reads that clock twice. */
module AffinityState {
  import opened StableSorting

  const DEQUE_LIMIT := 1000
  const EVICTION_SLACK := 1000

  /** A prefix and the time of one use of it. */
  type Stamp = (string, real)

  datatype Location = Location(node: string, lastSeen: real, accessCount: int)

  datatype ActiveRequest = ActiveRequest(prefix: string, node: string, startTime: real, estimatedCompletion: real)

  /** `order` is the insertion order of the keys of `prefixes`. */
  datatype State = State(
    prefixes: map<string, Location>,
    order: seq<string>,
    recent: map<string, seq<Stamp>>,
    active: map<string, ActiveRequest>)

  datatype Config = Config(window: real, maxEntries: int)

  datatype Event =
    | Record(id: string, prefix: string, node: string, estimate: real, start: real, end: real)
    | Complete(id: string, at: real)

  const EMPTY := State(map[], [], map[], map[])

  // ---------------------------------------------------------------- steps

  function KeepIn(order: seq<string>, keys: set<string>): seq<string> {
    if order == [] then []
    else
      var last := order[|order| - 1];
      KeepIn(order[..|order| - 1], keys) + if last in keys then [last] else []
  }

  /** A deque with a length limit drops its oldest entry when it overflows. */
  function Append(d: seq<Stamp>, x: Stamp): seq<Stamp> {
    var e := d + [x];
    if |e| > DEQUE_LIMIT then e[1..] else e
  }

  function DropOld(d: seq<Stamp>, cutoff: real): seq<Stamp> {
    if d != [] && d[0].1 < cutoff then DropOld(d[1..], cutoff) else d
  }

  function RecentOf(s: State, node: string): seq<Stamp> {
    if node in s.recent then s.recent[node] else []
  }

  function Touched(s: State, id: string, prefix: string, node: string, estimate: real, now: real): State {
    var count := if prefix in s.prefixes then s.prefixes[prefix].accessCount + 1 else 1;
    State(
      s.prefixes[prefix := Location(node, now, count)],
      if prefix in s.prefixes then s.order else s.order + [prefix],
      s.recent[node := Append(RecentOf(s, node), (prefix, now))],
      s.active[id := ActiveRequest(prefix, node, now, estimate)])
  }

  function FreshPrefixes(s: State, cutoff: real): map<string, Location> {
    map p | p in s.prefixes && s.prefixes[p].lastSeen >= cutoff :: s.prefixes[p]
  }

  function Purged(s: State, now: real, window: real): State {
    var cutoff := now - window;
    var prefixes := FreshPrefixes(s, cutoff);
    State(
      prefixes,
      KeepIn(s.order, prefixes.Keys),
      map n | n in s.recent :: DropOld(s.recent[n], cutoff),
      map r | r in s.active && s.active[r].estimatedCompletion >= now :: s.active[r])
  }

  ghost predicate Distinct(order: seq<string>) {
    forall i, j :: 0 <= i < j < |order| ==> order[i] != order[j]
  }

  ghost predicate OrderMatches(s: State) {
    && Distinct(s.order)
    && (forall p :: p in s.order <==> p in s.prefixes)
  }

  /** The last use of each mapped prefix, in insertion order. */
  function LastUses(s: State): seq<real>
    requires forall p :: p in s.order ==> p in s.prefixes
  {
    seq(|s.order|, i requires 0 <= i < |s.order| => s.prefixes[s.order[i]].lastSeen)
  }

  /** The mapped prefixes, least recently used first. */
  function ByAge(s: State): (names: seq<string>)
    requires forall p :: p in s.order ==> p in s.prefixes
    ensures |names| == |s.order|
  {
    var r := Ranking(LastUses(s));
    assert forall i :: 0 <= i < |r| ==> r[i] in r;
    seq(|r|, i requires 0 <= i < |r| => s.order[r[i]])
  }

  function Members(names: seq<string>): set<string> {
    set p | p in names
  }

  function Excess(s: State, maxEntries: int): int {
    |s.order| - maxEntries + EVICTION_SLACK
  }

  /** What is left when all of `gone` is deleted. */
  function WithoutPrefixes(s: State, gone: set<string>): State {
    s.(prefixes := s.prefixes - gone, order := KeepIn(s.order, (s.prefixes - gone).Keys))
  }

  /** The first `n` names, or all of them if there are fewer. */
  function FirstNames(names: seq<string>, n: int): seq<string> {
    if 0 <= n <= |names| then names[..n] else names
  }

  /** The least recently used entries that an overflowing map loses. */
  function Victims(s: State, maxEntries: int): set<string>
    requires forall p :: p in s.order ==> p in s.prefixes
  {
    Members(FirstNames(ByAge(s), Excess(s, maxEntries)))
  }

  function Evicted(s: State, maxEntries: int): State
    requires forall p :: p in s.order ==> p in s.prefixes
  {
    if |s.prefixes| <= maxEntries then s else WithoutPrefixes(s, Victims(s, maxEntries))
  }

  /** The eviction loop runs past the end of the sorted list. */
  predicate EvictionOverruns(s: State, maxEntries: int) {
    |s.prefixes| > maxEntries && Excess(s, maxEntries) > |s.order|
  }

  function BeforeEviction(s: State, cfg: Config, e: Event): State
    requires e.Record?
  {
    Purged(Touched(s, e.id, e.prefix, e.node, e.estimate, e.start), e.end, cfg.window)
  }

  function Apply(s: State, cfg: Config, e: Event): State
    requires OrderMatches(s)
  {
    match e
    case Record(_, _, _, _, _, _) =>
      TouchedOrder(s, e.id, e.prefix, e.node, e.estimate, e.start);
      PurgedOrder(Touched(s, e.id, e.prefix, e.node, e.estimate, e.start), e.end, cfg.window);
      Evicted(BeforeEviction(s, cfg, e), cfg.maxEntries)
    case Complete(id, _) => s.(active := s.active - {id})
  }

  // ------------------------------------------------- insertion order facts

  lemma {:induction false} KeepInMembers(order: seq<string>, keys: set<string>)
    ensures forall p :: p in KeepIn(order, keys) <==> p in order && p in keys
    ensures Distinct(order) ==> Distinct(KeepIn(order, keys))
  {
    if order != [] {
      var front, last := order[..|order| - 1], order[|order| - 1];
      KeepInMembers(front, keys);
      assert order == front + [last];
      if Distinct(order) { assert last !in front; }
    }
  }

  lemma {:induction false} KeepInTwice(order: seq<string>, a: set<string>, b: set<string>)
    requires b <= a
    ensures KeepIn(KeepIn(order, a), b) == KeepIn(order, b)
  {
    if order != [] {
      var front, last := order[..|order| - 1], order[|order| - 1];
      KeepInTwice(front, a, b);
      if last in a {
        var kept := KeepIn(order, a);
        assert kept[..|kept| - 1] == KeepIn(front, a);
      } else {
        assert KeepIn(order, a) == KeepIn(front, a);
      }
    }
  }

  lemma {:induction false} KeepInAll(order: seq<string>, keys: set<string>)
    requires forall p :: p in order ==> p in keys
    ensures KeepIn(order, keys) == order
  {
    if order != [] {
      KeepInAll(order[..|order| - 1], keys);
      assert order == order[..|order| - 1] + [order[|order| - 1]];
    }
  }

  lemma TouchedOrder(s: State, id: string, prefix: string, node: string, estimate: real, now: real)
    requires OrderMatches(s)
    ensures OrderMatches(Touched(s, id, prefix, node, estimate, now))
  {
  }

  lemma PurgedOrder(s: State, now: real, window: real)
    requires OrderMatches(s)
    ensures OrderMatches(Purged(s, now, window))
  {
    KeepInMembers(s.order, FreshPrefixes(s, now - window).Keys);
  }

  lemma EvictedOrder(s: State, maxEntries: int)
    requires OrderMatches(s)
    ensures OrderMatches(Evicted(s, maxEntries))
  {
    if |s.prefixes| > maxEntries {
      KeepInMembers(s.order, (s.prefixes - Victims(s, maxEntries)).Keys);
    }
  }

  /** A list without repetitions has as many members as places. */
  lemma {:induction false} DistinctCount(order: seq<string>, keys: set<string>)
    requires Distinct(order)
    requires forall p :: p in order <==> p in keys
    ensures |order| == |keys|
  {
    if order == [] {
      assert keys == {};
    } else {
      var rest := order[1..];
      assert forall p :: p in rest <==> p in order && p != order[0];
      DistinctCount(rest, keys - {order[0]});
    }
  }
}
