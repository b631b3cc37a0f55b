/** The score a node gets for a prefix, and what it means. */
module AffinityScoring {
  import opened RealArithmetic
  import opened AffinityState
  import opened AffinityInvariants

  /** Python's float division raises when the window is zero. */
  datatype Score = Score(value: real) | ZeroDivision

  function Min(a: real, b: real): real { if a <= b then a else b }
  function Max(a: real, b: real): real { if a >= b then a else b }

  function CommonPrefix(a: string, b: string): nat {
    if a == [] || b == [] || a[0] != b[0] then 0 else 1 + CommonPrefix(a[1..], b[1..])
  }

  function Similarity(a: string, b: string): real {
    if a == b then 1.0 else Min(1.0, CommonPrefix(a, b) as real / 16.0)
  }

  /** The value of a mapped prefix on its own node, by age and use count. */
  function ExactMatch(age: real, accessCount: int): real {
    if age < 300.0 then 0.9 + Min(0.1, accessCount as real * 0.02)
    else if age < 1800.0 then 0.7 * (1.0 - age / 1800.0)
    else 0.3 * (1.0 - Min(1.0, age / 3600.0))
  }

  /** Similarity counts less the older it is. */
  function Weight(similarity: real, age: real, window: real): real
    requires window != 0.0
  {
    similarity * (1.0 - age / window) * 0.6
  }

  function Weighed(x: Stamp, prefix: string, now: real, window: real): real
    requires window != 0.0
  {
    Weight(Similarity(prefix, x.0), now - x.1, window)
  }

  /** The scan over a node's deque, oldest entry first. */
  function BestSimilar(d: seq<Stamp>, prefix: string, now: real, window: real): Score {
    if d == [] then Score(0.0)
    else
      var best := BestSimilar(d[..|d| - 1], prefix, now, window);
      var x := d[|d| - 1];
      if best.ZeroDivision? || now - x.1 > window then best
      else if window == 0.0 then ZeroDivision
      else Score(Max(best.value, Weighed(x, prefix, now, window)))
  }

  function AffinityScore(s: State, window: real, prefix: string, node: string, now: real): Score {
    if prefix in s.prefixes then
      var here := s.prefixes[prefix];
      if here.node == node then Score(ExactMatch(now - here.lastSeen, here.accessCount)) else Score(0.1)
    else if node in s.recent then BestSimilar(s.recent[node], prefix, now, window)
    else Score(0.2)
  }

  // ------------------------------------------------------------- the scores

  lemma SimilarityInUnit(a: string, b: string)
    ensures 0.0 <= Similarity(a, b) <= 1.0
  {
  }

  lemma WeighedBound(x: Stamp, prefix: string, now: real, window: real)
    requires window > 0.0 && 0.0 <= now - x.1 <= window
    ensures 0.0 <= Weighed(x, prefix, now, window) <= 0.6
  {
    SimilarityInUnit(prefix, x.0);
    var share := FractionInUnit(now - x.1, window);
    var p := ProductInUnit(Similarity(prefix, x.0), 1.0 - share);
    assert Weighed(x, prefix, now, window) == p * 0.6;
  }

  /** The common prefix is the longest one: it agrees throughout and the next
      characters, if both texts have one, differ. */
  lemma {:induction false} CommonPrefixIsLongest(a: string, b: string)
    ensures var k := CommonPrefix(a, b);
            && k <= |a| && k <= |b| && a[..k] == b[..k]
            && (k < |a| && k < |b| ==> a[k] != b[k])
  {
    if a != [] && b != [] && a[0] == b[0] {
      CommonPrefixIsLongest(a[1..], b[1..]);
      var k := CommonPrefix(a[1..], b[1..]);
      assert a[..k + 1] == [a[0]] + a[1..][..k];
      assert b[..k + 1] == [b[0]] + b[1..][..k];
    }
  }

  /** What the scan returns: the best value of the entries inside the window, 0
      without any; it raises exactly for a zero window and an entry not older
      than now. */
  lemma {:induction false} ScanFindsBest(d: seq<Stamp>, prefix: string, now: real, window: real)
    requires forall x :: x in d ==> x.1 <= now
    ensures var r := BestSimilar(d, prefix, now, window);
            && (r.ZeroDivision? <==> window == 0.0 && exists x :: x in d && x.1 == now)
            && (r.Score? && window != 0.0 ==>
                  && (forall x :: x in d && now - x.1 <= window ==> Weighed(x, prefix, now, window) <= r.value)
                  && (r.value == 0.0
                      || exists x :: x in d && now - x.1 <= window && Weighed(x, prefix, now, window) == r.value))
            && (r.Score? ==> 0.0 <= r.value <= 0.6)
  {
    if d != [] {
      var front, x := d[..|d| - 1], d[|d| - 1];
      assert d == front + [x];
      ScanFindsBest(front, prefix, now, window);
      if window > 0.0 && now - x.1 <= window { WeighedBound(x, prefix, now, window); }
    }
  }

  /** Every score is a probability; the only other outcome is the zero window. */
  lemma ScoreInUnit(s: State, window: real, prefix: string, node: string, now: real)
    requires Inv(s, now)
    ensures var r := AffinityScore(s, window, prefix, node, now);
            && (r.Score? ==> 0.0 <= r.value <= 1.0)
            && (window != 0.0 ==> r.Score?)
  {
    if prefix in s.prefixes {
    } else if node in s.recent {
      assert DequeOk(s.recent[node], now);
      ScanFindsBest(s.recent[node], prefix, now, window);
    }
  }

  /** A prefix seen on `node` less than five minutes ago scores at least 0.92
      there and exactly 0.1 on any other node. */
  lemma FreshMatchScores(s: State, window: real, prefix: string, node: string, other: string, now: real)
    requires Inv(s, now) && prefix in s.prefixes && s.prefixes[prefix].node == node
    requires now - s.prefixes[prefix].lastSeen < 300.0 && other != node
    ensures var r := AffinityScore(s, window, prefix, node, now); r.Score? && r.value >= 0.92
    ensures AffinityScore(s, window, prefix, other, now) == Score(0.1)
  {
  }

  /** In every run: once `prefix` was recorded on a node, and until it is
      recorded again, that node scores at least 0.92 and every other node 0.1,
      for as long as the prefix stays mapped and is under five minutes old. */
  lemma RecordedNodeScores(cfg: Config, es: seq<Event>, j: nat, prefix: string, other: string, now: real)
    requires Monotone(es) && es != [] && EndTime(es[|es| - 1]) <= now
    requires LastRecord(es, prefix, j)
    requires now - es[j].start < 300.0 && other != es[j].node
    ensures var s := Run(cfg, es);
            var r := AffinityScore(s, cfg.window, prefix, es[j].node, now);
            prefix in s.prefixes ==>
              r.Score? && r.value >= 0.92 && AffinityScore(s, cfg.window, prefix, other, now) == Score(0.1)
  {
    RunKeepsInv(cfg, es, now);
    MappedAsRecorded(cfg, es, j, prefix);
    if prefix in Run(cfg, es).prefixes { FreshMatchScores(Run(cfg, es), cfg.window, prefix, es[j].node, other, now); }
  }

  /** Age never helps an exact match except across the 30 minute mark, where the
      formula restarts: there the older match scores higher exactly if the
      younger one is past a line that starts at about 23.6 minutes. */
  lemma OlderScoresHigherExactly(young: real, old_: real, count: int)
    requires 0.0 <= young <= old_ && count >= 1
    ensures ExactMatch(old_, count) > ExactMatch(young, count)
            <==> 300.0 <= young < 1800.0 <= old_ && 14.0 * young > 3.0 * Min(old_, 3600.0) + 14400.0
  {
  }

  /** What the three stretches of an exact match are worth: up to five minutes
      0.9 and a fiftieth for each use, at most five; then a share that falls
      evenly to nothing at half an hour; then, from 0.15, to nothing at an hour. */
  lemma ExactMatchFades(age: real, count: int)
    requires age >= 0.0 && count >= 0
    ensures age < 300.0 ==> 50.0 * ExactMatch(age, count) == 45.0 + (if count < 5 then count as real else 5.0)
    ensures 300.0 <= age < 1800.0 ==> 18000.0 * ExactMatch(age, count) == 7.0 * (1800.0 - age)
    ensures 1800.0 <= age < 3600.0 ==> 36000.0 * ExactMatch(age, count) == 3.0 * (3600.0 - age)
    ensures 3600.0 <= age ==> ExactMatch(age, count) == 0.0
  {
  }

  /** Texts are alike as far as they agree, a sixteenth for each character; 16
      characters are as good as the whole text. */
  lemma SimilarityCounts(a: string, b: string)
    ensures Similarity(a, b) == 1.0 <==> a == b || CommonPrefix(a, b) >= 16
    ensures a != b && CommonPrefix(a, b) <= 16 ==> 16.0 * Similarity(a, b) == CommonPrefix(a, b) as real
  {
  }

  /** An earlier prefix is worth at most 0.6 of its similarity, evenly less with
      age, and nothing at the end of the window. */
  lemma WeightFades(similarity: real, age: real, window: real)
    requires window > 0.0
    ensures Weight(similarity, 0.0, window) == 0.6 * similarity && Weight(similarity, window, window) == 0.0
    ensures 10.0 * Weight(similarity, age, window) * window == 6.0 * similarity * (window - age)
  {
    var share := age / window;
    assert share * window == age;
    assert window / window == 1.0 && 0.0 / window == 0.0;
    Spread(similarity, share, window);
  }

  lemma Spread(similarity: real, share: real, window: real)
    ensures similarity * (1.0 - share) * window == similarity * (window - share * window)
  {
    var t := 1.0 - share;
    assert t * window == window - share * window;
    Regroup(similarity, t, window);
  }

  lemma Regroup(a: real, b: real, c: real)
    ensures a * b * c == a * (b * c)
  {
  }

  predicate UsesNode(e: Event, node: string) {
    e.Record? && e.node == node
  }

  lemma {:induction false} DequesOfUsedNodes(cfg: Config, es: seq<Event>, node: string)
    ensures node in Run(cfg, es).recent <==> exists e :: e in es && UsesNode(e, node)
  {
    if es != [] {
      var front, last := es[..|es| - 1], es[|es| - 1];
      assert es == front + [last];
      DequesOfUsedNodes(cfg, front, node);
      StepDeques(Run(cfg, front), cfg, last, node);
    }
  }

  lemma StepDeques(s: State, cfg: Config, e: Event, node: string)
    requires OrderMatches(s)
    ensures node in Apply(s, cfg, e).recent <==> node in s.recent || UsesNode(e, node)
  {
  }

  lemma {:induction false} MappedWasRecorded(cfg: Config, es: seq<Event>, prefix: string)
    requires forall e :: e in es ==> !Records(e, prefix)
    ensures prefix !in Run(cfg, es).prefixes
  {
    if es != [] {
      var front, last := es[..|es| - 1], es[|es| - 1];
      assert es == front + [last];
      MappedWasRecorded(cfg, front, prefix);
      ApplyLeavesOthers(Run(cfg, front), cfg, last, prefix);
    }
  }

  /** In every run a node that was never used scores 0.2 for a prefix never seen:
      more than any node but its own for a prefix that is mapped. */
  lemma UnknownScores(cfg: Config, es: seq<Event>, prefix: string, node: string, now: real)
    requires forall e :: e in es ==> !Records(e, prefix) && !UsesNode(e, node)
    ensures AffinityScore(Run(cfg, es), cfg.window, prefix, node, now) == Score(0.2)
  {
    DequesOfUsedNodes(cfg, es, node);
    MappedWasRecorded(cfg, es, prefix);
  }
}
