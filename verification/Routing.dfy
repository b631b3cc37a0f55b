/** Scoring of all healthy nodes, selection of the best, and the decision that
    is handed back, with the exceptions the scorers can raise. */
module Routing {
  import opened RealArithmetic
  import opened StableSorting
  import opened AffinityState
  import opened AffinityInvariants
  import opened AffinityScoring

  datatype NodeLoadMetrics = NodeLoadMetrics(
    activeSequences: int, pendingSequences: int, kvCachePercent: real, gpuMemoryPercent: real,
    throughput: real, maxConcurrent: int, maxSequenceLength: int, lastHeartbeat: real, errorPercent: real)

  datatype NodeInfo = NodeInfo(nodeId: string, currentLoad: real, avgLatencyMs: real)

  /** `words` is the number of blank-separated words in the prompt. */
  datatype Request = Request(id: string, prefix: string, words: nat, maxTokens: int)

  datatype Weights = Weights(cacheHit: real, latency: real, load: real, capacity: real)

  datatype Breakdown = Breakdown(cacheHit: real, load: real, latency: real, capacity: real)

  datatype Scored = Scored(node: string, total: real, parts: Breakdown)

  datatype Decision = Decision(
    target: string, confidence: real, parts: Breakdown,
    estimatedLatencyMs: real, cacheHitProbability: real, fallbacks: seq<string>)

  datatype Result<T> = Ok(value: T) | Raised

  const DEFAULT_WEIGHTS := Weights(0.4, 0.3, 0.2, 0.1)

  predicate InUnit(x: real) { 0.0 <= x <= 1.0 }

  predicate PartsInUnit(b: Breakdown) {
    InUnit(b.cacheHit) && InUnit(b.load) && InUnit(b.latency) && InUnit(b.capacity)
  }

  /** The field validators of a decision. */
  predicate InBounds(d: Decision) {
    InUnit(d.confidence) && PartsInUnit(d.parts) && d.estimatedLatencyMs >= 0.0 && InUnit(d.cacheHitProbability)
  }

  // --------------------------------------------------------- component scores

  function CapacityFraction(m: NodeLoadMetrics): Score {
    if m.maxConcurrent == 0 then ZeroDivision
    else Score((1.0 - m.activeSequences as real / m.maxConcurrent as real) * 0.3
               + (1.0 - m.gpuMemoryPercent / 100.0) * 0.4
               + (1.0 - m.kvCachePercent / 100.0) * 0.3)
  }

  function Suitability(m: NodeLoadMetrics, req: Request): Score {
    var estimated := req.words as real * 1.3 + req.maxTokens as real;
    if estimated > m.maxSequenceLength as real then Score(0.0)
    else if m.maxSequenceLength == 0 then ZeroDivision
    else
      var share := estimated / m.maxSequenceLength as real;
      Score(if share < 0.3 then 0.7 else if share < 0.7 then 1.0 else 0.8)
  }

  function QueuePenalty(m: NodeLoadMetrics): real {
    if m.pendingSequences > 10 then Max(0.3, 1.0 - (m.pendingSequences - 10) as real / 50.0) else 1.0
  }

  function LoadScore(metrics: map<string, NodeLoadMetrics>, node: string, req: Request, now: real): Score {
    if node !in metrics then Score(0.1)
    else
      var m := metrics[node];
      if now - m.lastHeartbeat > 30.0 then Score(0.0)
      else if m.errorPercent > 10.0 then Score(0.1)
      else
        var capacity, fit := CapacityFraction(m), Suitability(m, req);
        if capacity.ZeroDivision? || fit.ZeroDivision? then ZeroDivision
        else
          var total := capacity.value * 0.4 + Min(1.0, m.throughput / 100.0) * 0.3
                       + fit.value * 0.2 + QueuePenalty(m) * 0.1;
          Score(Max(0.0, Min(1.0, total)))
  }

  /** `half` stands for the power function with base one half. */
  function LatencyScore(n: NodeInfo, half: real -> real): real {
    if n.avgLatencyMs <= 100.0 then 1.0 else Max(0.1, half((n.avgLatencyMs - 100.0) / 100.0))
  }

  ghost predicate HalvingPower(half: real -> real) {
    forall x :: x > 0.0 ==> 0.0 < half(x) <= 1.0
  }

  function CapacityScore(n: NodeInfo): real {
    if n.currentLoad > 0.9 then 0.1
    else if n.currentLoad > 0.8 then 0.5
    else if n.currentLoad > 0.6 then 0.8
    else 1.0
  }

  function Total(w: Weights, b: Breakdown): real {
    b.cacheHit * w.cacheHit + b.load * w.load + b.latency * w.latency + b.capacity * w.capacity
  }

  /** All that scoring reads. */
  datatype View = View(
    affinity: State, window: real, metrics: map<string, NodeLoadMetrics>, weights: Weights, half: real -> real)

  function ScoreNode(v: View, req: Request, n: NodeInfo, now: real): Result<Scored> {
    var cacheHit := AffinityScore(v.affinity, v.window, req.prefix, n.nodeId, now);
    var load := LoadScore(v.metrics, n.nodeId, req, now);
    if cacheHit.ZeroDivision? || load.ZeroDivision? then Raised
    else
      var parts := Breakdown(cacheHit.value, load.value, LatencyScore(n, v.half), CapacityScore(n));
      Ok(Scored(n.nodeId, Total(v.weights, parts), parts))
  }

  /** The scores in the order of the nodes; one that raises ends the scan. */
  function ScoreAll(v: View, req: Request, nodes: seq<NodeInfo>, now: real): (r: Result<seq<Scored>>)
    ensures r.Ok? ==> |r.value| == |nodes|
    ensures r.Ok? ==> forall i :: 0 <= i < |nodes| ==> ScoreNode(v, req, nodes[i], now) == Ok(r.value[i])
    ensures r.Raised? ==> exists i :: 0 <= i < |nodes| && ScoreNode(v, req, nodes[i], now).Raised?
  {
    if nodes == [] then Ok([])
    else
      var front := ScoreAll(v, req, nodes[..|nodes| - 1], now);
      var last := ScoreNode(v, req, nodes[|nodes| - 1], now);
      if front.Raised? then Raised
      else if last.Raised? then
        assert ScoreNode(v, req, nodes[|nodes| - 1], now).Raised?;
        Raised
      else Ok(front.value + [last.value])
  }

  // ---------------------------------------------------------------- selection

  function Keys(scored: seq<Scored>): seq<real> {
    seq(|scored|, i requires 0 <= i < |scored| => -scored[i].total)
  }

  /** Best first; equal totals stay in node order. */
  function Ranked(scored: seq<Scored>): (r: seq<Scored>)
    ensures |r| == |scored|
  {
    var order := Ranking(Keys(scored));
    assert forall i :: 0 <= i < |order| ==> order[i] in order;
    seq(|order|, i requires 0 <= i < |order| => scored[order[i]])
  }

  function EstimatedLatency(hit: real): real {
    if hit > 0.7 then 200.0 * 0.3 else if hit > 0.4 then 200.0 * 0.6 else 200.0
  }

  function Fallbacks(ranked: seq<Scored>): seq<string>
    requires ranked != []
  {
    var stop := if |ranked| < 4 then |ranked| else 4;
    seq(stop - 1, i requires 0 <= i < stop - 1 => ranked[i + 1].node)
  }

  function Select(ranked: seq<Scored>): Result<Decision> {
    if ranked == [] then Raised
    else
      var best := ranked[0];
      var confidence := if |ranked| > 1 then Min(1.0, best.total - ranked[1].total + 0.5) else best.total;
      var hit := best.parts.cacheHit;
      var d := Decision(best.node, confidence, best.parts, EstimatedLatency(hit), hit, Fallbacks(ranked));
      if InBounds(d) then Ok(d) else Raised
  }

  function Emergency(node: string): Decision {
    Decision(node, 0.1, Breakdown(0.0, 0.1, 0.0, 0.0), 5000.0, 0.0, [])
  }

  /** The decision before it is recorded: `Ok` on the normal path. */
  function Decide(v: View, req: Request, nodes: seq<NodeInfo>, now: real): Result<Decision> {
    var scored := ScoreAll(v, req, nodes, now);
    if scored.Raised? then Raised else Select(Ranked(scored.value))
  }

  // --------------------------------------------------------------- properties

  /** Never less idle, less full, shorter of queue or faster. */
  predicate AtLeastAsBusy(m: NodeLoadMetrics, than: NodeLoadMetrics) {
    && m.activeSequences >= than.activeSequences && m.pendingSequences >= than.pendingSequences
    && m.kvCachePercent >= than.kvCachePercent && m.gpuMemoryPercent >= than.gpuMemoryPercent
    && m.throughput <= than.throughput
    && m.maxConcurrent == than.maxConcurrent && m.maxSequenceLength == than.maxSequenceLength
    && m.lastHeartbeat == than.lastHeartbeat && m.errorPercent == than.errorPercent
  }

  /** More load never raises the load score, and load alone never makes scoring
      raise. Only with a negative limit on concurrent sequences, which nothing
      rules out, does more of them help. */
  lemma LoadNeverHelps(metrics: map<string, NodeLoadMetrics>, busy: string, idle: string, req: Request, now: real)
    requires busy in metrics && idle in metrics && AtLeastAsBusy(metrics[busy], metrics[idle])
    ensures var m, n := metrics[busy], metrics[idle];
            var b, i := LoadScore(metrics, busy, req, now), LoadScore(metrics, idle, req, now);
            && (b.ZeroDivision? <==> i.ZeroDivision?)
            && (b.Score? ==> 0.0 <= b.value <= 1.0 && 0.0 <= i.value <= 1.0)
            && (b.Score? && (n.maxConcurrent >= 0 || m.activeSequences == n.activeSequences) ==> b.value <= i.value)
            && (b.Score? && n.maxConcurrent < 0 && m == n.(activeSequences := m.activeSequences) ==> b.value >= i.value)
  {
    var m, n := metrics[busy], metrics[idle];
    if n.maxConcurrent > 0 {
      QuotientMonotone(n.activeSequences as real, m.activeSequences as real, n.maxConcurrent as real);
    } else if n.maxConcurrent < 0 {
      QuotientAntitone(n.activeSequences as real, m.activeSequences as real, n.maxConcurrent as real);
    }
    assert QueuePenalty(m) <= QueuePenalty(n);
  }

  datatype Report = Report(node: string, metrics: NodeLoadMetrics, at: real)

  /** The metrics known after a sequence of reports. */
  function Reported(reports: seq<Report>): map<string, NodeLoadMetrics> {
    if reports == [] then map[]
    else
      var last := reports[|reports| - 1];
      Reported(reports[..|reports| - 1])[last.node := last.metrics.(lastHeartbeat := last.at)]
  }

  /** Fresh for 30 seconds, then worth nothing. */
  function ScoreOfReport(r: Report, req: Request, now: real): Score {
    if now - r.at > 30.0 then Score(0.0)
    else LoadScore(map[r.node := r.metrics.(lastHeartbeat := now)], r.node, req, now)
  }

  ghost predicate LastReport(reports: seq<Report>, node: string, j: nat) {
    j < |reports| && reports[j].node == node && forall i :: j < i < |reports| ==> reports[i].node != node
  }

  lemma {:induction false} ReportedIsLast(reports: seq<Report>, node: string)
    ensures node in Reported(reports) <==> exists r :: r in reports && r.node == node
    ensures forall j: nat :: LastReport(reports, node, j) ==>
              node in Reported(reports)
              && Reported(reports)[node] == reports[j].metrics.(lastHeartbeat := reports[j].at)
  {
    if reports != [] {
      var front, last := reports[..|reports| - 1], reports[|reports| - 1];
      assert reports == front + [last];
      ReportedIsLast(front, node);
      if last.node != node { assert forall j: nat :: LastReport(reports, node, j) ==> LastReport(front, node, j); }
    }
  }

  /** A node's load score depends on its last report alone: for 30 seconds it is
      scored as if it had reported just now, and then it gets nothing, which is
      less than a node that never reported. */
  lemma LastReportDecides(reports: seq<Report>, node: string, req: Request, now: real)
    ensures forall j: nat :: LastReport(reports, node, j) ==>
              LoadScore(Reported(reports), node, req, now) == ScoreOfReport(reports[j], req, now)
    ensures (forall r :: r in reports ==> r.node != node) ==> LoadScore(Reported(reports), node, req, now) == Score(0.1)
  {
    ReportedIsLast(reports, node);
    forall j: nat | LastReport(reports, node, j)
      ensures LoadScore(Reported(reports), node, req, now) == ScoreOfReport(reports[j], req, now)
    {
      AsReported(Reported(reports), reports[j], req, now);
    }
  }

  lemma AsReported(metrics: map<string, NodeLoadMetrics>, r: Report, req: Request, now: real)
    requires r.node in metrics && metrics[r.node] == r.metrics.(lastHeartbeat := r.at)
    ensures LoadScore(metrics, r.node, req, now) == ScoreOfReport(r, req, now)
  {
  }

  lemma TotalInUnit(w: Weights, b: Breakdown)
    requires w.cacheHit >= 0.0 && w.load >= 0.0 && w.latency >= 0.0 && w.capacity >= 0.0
    requires w.cacheHit + w.load + w.latency + w.capacity <= 1.0
    requires PartsInUnit(b)
    ensures InUnit(Total(w, b))
  {
    WeightedSumInUnit(b.cacheHit, w.cacheHit, b.load, w.load, b.latency, w.latency, b.capacity, w.capacity);
  }

  lemma PartsAreInUnit(v: View, req: Request, n: NodeInfo, now: real)
    requires Inv(v.affinity, now) && HalvingPower(v.half)
    ensures var r := ScoreNode(v, req, n, now); r.Ok? ==> PartsInUnit(r.value.parts)
  {
    ScoreInUnit(v.affinity, v.window, req.prefix, n.nodeId, now);
    if n.avgLatencyMs > 100.0 { assert v.half((n.avgLatencyMs - 100.0) / 100.0) <= 1.0; }
  }

  /** The ranking lists the scored nodes with falling totals, ties in node
      order; each place of the input appears at one place of the ranking. */
  lemma RankedIsDescending(scored: seq<Scored>)
    ensures var r, order := Ranked(scored), Ranking(Keys(scored));
            && (forall i :: 0 <= i < |r| ==> order[i] < |scored| && r[i] == scored[order[i]])
            && (forall x :: x in r <==> x in scored)
            && (forall i, j :: 0 <= i < j < |r| ==> r[i].total >= r[j].total)
            && (forall i, j :: 0 <= i < j < |r| && r[i].total == r[j].total ==> order[i] < order[j])
  {
    var keys, r := Keys(scored), Ranked(scored);
    var order := Ranking(keys);
    RankingOrdered(keys);
    forall x | x in scored ensures x in r {
      var k: nat :| k < |scored| && scored[k] == x;
      assert k in order;
      var i :| 0 <= i < |order| && order[i] == k;
      assert r[i] == x;
    }
    forall i, j | 0 <= i < j < |r|
      ensures r[i].total >= r[j].total && (r[i].total == r[j].total ==> order[i] < order[j])
    {
      assert Before(keys, order[i], order[j]);
    }
  }

  /** With all parts in range, building the decision is rejected in one case
      only: a single candidate whose weighted total is out of range. */
  lemma SelectRejectsExactly(scored: seq<Scored>)
    requires scored != [] && forall x :: x in scored ==> PartsInUnit(x.parts)
    ensures Select(Ranked(scored)).Raised? <==> |scored| == 1 && !InUnit(scored[0].total)
  {
    RankedIsDescending(scored);
    var r := Ranked(scored);
    assert r[0] in r;
    if |scored| > 1 { assert r[0].total >= r[1].total; }
  }

  /** For non-negative weights summing to at most 1 a decision is reached unless
      some score raises; the totals it ranks and the decision's own weighted
      total are in range, and so is every field. */
  lemma DecisionInBounds(v: View, req: Request, nodes: seq<NodeInfo>, now: real)
    requires Inv(v.affinity, now) && HalvingPower(v.half) && nodes != []
    requires var w := v.weights;
             w.cacheHit >= 0.0 && w.load >= 0.0 && w.latency >= 0.0 && w.capacity >= 0.0
             && w.cacheHit + w.load + w.latency + w.capacity <= 1.0
    ensures var r := Decide(v, req, nodes, now);
            && (r.Raised? <==> exists i :: 0 <= i < |nodes| && ScoreNode(v, req, nodes[i], now).Raised?)
            && (r.Ok? ==> InBounds(r.value) && InUnit(Total(DEFAULT_WEIGHTS, r.value.parts))
                          && InUnit(Total(v.weights, r.value.parts)))
  {
    var scored := ScoreAll(v, req, nodes, now);
    if scored.Ok? {
      forall x | x in scored.value ensures PartsInUnit(x.parts) && InUnit(x.total) {
        var i :| 0 <= i < |nodes| && scored.value[i] == x;
        assert ScoreNode(v, req, nodes[i], now) == Ok(x);
        PartsAreInUnit(v, req, nodes[i], now);
        TotalInUnit(v.weights, x.parts);
      }
      assert scored.value[0] in scored.value;
      SelectRejectsExactly(scored.value);
      RankedIsDescending(scored.value);
      var best := Ranked(scored.value)[0];
      assert best in Ranked(scored.value);
      TotalInUnit(DEFAULT_WEIGHTS, best.parts);
      TotalInUnit(v.weights, best.parts);
    }
  }

  /** The target has the greatest total of all scored nodes, the first such
      node on a tie; the fallbacks are the next at most three of `ranked`. */
  ghost predicate BestChoice(d: Decision, scored: seq<Scored>, ranked: seq<Scored>) {
    && |ranked| == |scored| > 0
    && |d.fallbacks| == (if |scored| < 4 then |scored| - 1 else 3)
    && (forall i :: 0 <= i < |d.fallbacks| ==> d.fallbacks[i] == ranked[i + 1].node)
    && (forall i, j :: 0 <= i < j < |ranked| ==> ranked[i].total >= ranked[j].total)
    && (exists k :: 0 <= k < |scored| && scored[k] == ranked[0] && d.target == scored[k].node && d.parts == scored[k].parts
                    && (forall i :: 0 <= i < |scored| ==> scored[i].total <= scored[k].total)
                    && (forall i :: 0 <= i < k ==> scored[i].total < scored[k].total))
    && Estimates(d, if |ranked| == 1 then ranked[0].total else 0.5 + ranked[0].total - ranked[1].total)
  }

  /** The confidence is half the scale plus the lead over the second, at most 1,
      or the total of an only candidate; the expected latency of 200 ms falls to
      60% with a cache hit above 0.4, and to 30% above 0.7. */
  predicate Estimates(d: Decision, confidence: real) {
    && d.confidence == (if d.fallbacks != [] && confidence > 1.0 then 1.0 else confidence)
    && d.cacheHitProbability == d.parts.cacheHit
    && d.estimatedLatencyMs ==
         if d.parts.cacheHit > 0.7 then 60.0 else if d.parts.cacheHit > 0.4 then 120.0 else 200.0
  }

  lemma SelectedIsBest(scored: seq<Scored>)
    requires Select(Ranked(scored)).Ok?
    ensures BestChoice(Select(Ranked(scored)).value, scored, Ranked(scored))
  {
    RankedIsDescending(scored);
    var r, order := Ranked(scored), Ranking(Keys(scored));
    forall i: nat | i < |scored|
      ensures scored[i].total <= r[0].total && (i < order[0] ==> scored[i].total < r[0].total)
    {
      assert i in order;
      var k :| 0 <= k < |order| && order[k] == i;
      assert r[k] == scored[i];
    }
    assert scored[order[0]] == r[0];
  }

  lemma ChosenIsBest(v: View, req: Request, nodes: seq<NodeInfo>, now: real)
    requires Decide(v, req, nodes, now).Ok?
    ensures var scored := ScoreAll(v, req, nodes, now);
            scored.Ok? && |scored.value| == |nodes|
            && BestChoice(Decide(v, req, nodes, now).value, scored.value, Ranked(scored.value))
  {
    SelectedIsBest(ScoreAll(v, req, nodes, now).value);
  }

  /** A node with a smaller total than another is not the target. */
  lemma SmallerTotalLoses(v: View, req: Request, nodes: seq<NodeInfo>, now: real, i: nat, j: nat)
    requires i < |nodes| && j < |nodes| && forall k, l :: 0 <= k < l < |nodes| ==> nodes[k].nodeId != nodes[l].nodeId
    requires Decide(v, req, nodes, now).Ok?
    requires ScoreNode(v, req, nodes[i], now).Ok? && ScoreNode(v, req, nodes[j], now).Ok?
    requires ScoreNode(v, req, nodes[j], now).value.total < ScoreNode(v, req, nodes[i], now).value.total
    ensures Decide(v, req, nodes, now).value.target != nodes[j].nodeId
  {
    var scored := ScoreAll(v, req, nodes, now).value;
    var k := TargetOf(scored);
    assert ScoreNode(v, req, nodes[k], now) == Ok(scored[k]);
    assert ScoreNode(v, req, nodes[i], now) == Ok(scored[i]) && ScoreNode(v, req, nodes[j], now) == Ok(scored[j]);
  }

  lemma TargetOf(scored: seq<Scored>) returns (k: nat)
    requires Select(Ranked(scored)).Ok?
    ensures k < |scored| && Select(Ranked(scored)).value.target == scored[k].node
    ensures forall i :: 0 <= i < |scored| ==> scored[i].total <= scored[k].total
  {
    SelectedIsBest(scored);
    var d := Select(Ranked(scored)).value;
    k :| k < |scored| && d.target == scored[k].node && forall i :: 0 <= i < |scored| ==> scored[i].total <= scored[k].total;
  }

  /** How full a node is, by the limits of 60, 80 and 90 percent. */
  function Band(load: real): nat {
    if load <= 0.6 then 0 else if load <= 0.8 then 1 else if load <= 0.9 then 2 else 3
  }

  /** What going up from band `b` costs in capacity. */
  function BandGap(b: nat): real {
    if b == 0 then 0.2 else if b == 1 then 0.3 else 0.4
  }

  function BandDrop(from: nat, to: nat): real
    decreases to - from
  {
    if from >= to then 0.0 else BandGap(from) + BandDrop(from + 1, to)
  }

  /** From no gap at all to 0.9 from the lowest band to the highest. */
  lemma CapacityDrops(n: NodeInfo, m: NodeInfo)
    requires Band(n.currentLoad) <= Band(m.currentLoad)
    ensures CapacityScore(n) - CapacityScore(m) == BandDrop(Band(n.currentLoad), Band(m.currentLoad))
    ensures Band(n.currentLoad) < Band(m.currentLoad) ==> BandDrop(Band(n.currentLoad), Band(m.currentLoad)) > 0.0
  {
    assert BandDrop(3, 3) == 0.0 && BandDrop(2, 2) == 0.0 && BandDrop(1, 1) == 0.0 && BandDrop(0, 0) == 0.0;
    assert BandDrop(2, 3) == 0.4 && BandDrop(1, 2) == 0.3 && BandDrop(0, 1) == 0.2;
    assert BandDrop(1, 3) == 0.7 && BandDrop(0, 2) == 0.5;
    assert BandDrop(0, 3) == 0.9;
  }

  /** Each part counts with its own weight. */
  lemma TotalGaps(w: Weights, a: Breakdown, b: Breakdown)
    ensures b == a.(cacheHit := b.cacheHit) ==> Total(w, a) - Total(w, b) == (a.cacheHit - b.cacheHit) * w.cacheHit
    ensures b == a.(load := b.load) ==> Total(w, a) - Total(w, b) == (a.load - b.load) * w.load
    ensures b == a.(latency := b.latency) ==> Total(w, a) - Total(w, b) == (a.latency - b.latency) * w.latency
    ensures b == a.(capacity := b.capacity) ==> Total(w, a) - Total(w, b) == (a.capacity - b.capacity) * w.capacity
  {
  }

  /** Both nodes are scored, and alike in all but the capacity. */
  predicate AlikeButCapacity(v: View, req: Request, n: NodeInfo, m: NodeInfo, now: real) {
    var x, y := ScoreNode(v, req, n, now), ScoreNode(v, req, m, now);
    x.Ok? && y.Ok? && y.value.parts == x.value.parts.(capacity := y.value.parts.capacity)
  }

  /** Then the totals differ by the gaps between their bands times the weight. */
  lemma CapacityDecides(v: View, req: Request, n: NodeInfo, m: NodeInfo, now: real)
    requires AlikeButCapacity(v, req, n, m, now) && Band(n.currentLoad) <= Band(m.currentLoad)
    ensures ScoreNode(v, req, n, now).value.total - ScoreNode(v, req, m, now).value.total
            == BandDrop(Band(n.currentLoad), Band(m.currentLoad)) * v.weights.capacity
    ensures Band(n.currentLoad) < Band(m.currentLoad) && v.weights.capacity > 0.0 ==>
              ScoreNode(v, req, n, now).value.total > ScoreNode(v, req, m, now).value.total
  {
    CapacityDrops(n, m);
    TotalGaps(v.weights, ScoreNode(v, req, n, now).value.parts, ScoreNode(v, req, m, now).value.parts);
    if Band(n.currentLoad) < Band(m.currentLoad) && v.weights.capacity > 0.0 {
      PositiveProduct(BandDrop(Band(n.currentLoad), Band(m.currentLoad)), v.weights.capacity);
    }
  }

  /** And the node in the higher band is never the target beside the other. */
  lemma FullerNodeLoses(v: View, req: Request, nodes: seq<NodeInfo>, now: real, i: nat, j: nat)
    requires i < |nodes| && j < |nodes| && forall k, l :: 0 <= k < l < |nodes| ==> nodes[k].nodeId != nodes[l].nodeId
    requires AlikeButCapacity(v, req, nodes[i], nodes[j], now) && Decide(v, req, nodes, now).Ok?
    requires Band(nodes[i].currentLoad) < Band(nodes[j].currentLoad) && v.weights.capacity > 0.0
    ensures Decide(v, req, nodes, now).value.target != nodes[j].nodeId
  {
    CapacityDecides(v, req, nodes[i], nodes[j], now);
    SmallerTotalLoses(v, req, nodes, now, i, j);
  }

  /** One half to the power of `x`, as far as whole steps tell. */
  ghost predicate HalvesEachStep(half: real -> real) {
    && half(0.0) == 1.0
    && (forall x :: x >= 0.0 ==> 2.0 * half(x + 1.0) == half(x))
    && (forall x, y :: 0.0 <= x < y ==> half(y) < half(x))
  }

  /** Up to 100 ms latency costs nothing; every 100 ms more halve the score until
      it is down to 0.1, and a slower node never scores more. */
  lemma LatencyHalves(n: NodeInfo, slower: NodeInfo, half: real -> real)
    requires HalvesEachStep(half) && n.avgLatencyMs <= slower.avgLatencyMs
    ensures n.avgLatencyMs <= 100.0 ==> LatencyScore(n, half) == 1.0
    ensures LatencyScore(slower, half) <= LatencyScore(n, half)
    ensures n.avgLatencyMs >= 100.0 && slower.avgLatencyMs == n.avgLatencyMs + 100.0 ==>
              LatencyScore(slower, half) == Max(0.1, LatencyScore(n, half) / 2.0)
  {
    if n.avgLatencyMs >= 100.0 {
      var x, y := (n.avgLatencyMs - 100.0) / 100.0, (slower.avgLatencyMs - 100.0) / 100.0;
      assert 0.0 <= x <= y;
      assert x == y || half(y) < half(x);
      assert 2.0 * half(x + 1.0) == half(x);
    } else if slower.avgLatencyMs > 100.0 {
      var y := (slower.avgLatencyMs - 100.0) / 100.0;
      assert half(y) < half(0.0);
    }
  }

  predicate AlikeButLatency(v: View, req: Request, n: NodeInfo, m: NodeInfo, now: real) {
    var x, y := ScoreNode(v, req, n, now), ScoreNode(v, req, m, now);
    x.Ok? && y.Ok? && y.value.parts == x.value.parts.(latency := y.value.parts.latency)
  }

  lemma LatencyDecides(v: View, req: Request, n: NodeInfo, slower: NodeInfo, now: real)
    requires AlikeButLatency(v, req, n, slower, now) && HalvesEachStep(v.half) && v.weights.latency > 0.0
    requires n.avgLatencyMs < slower.avgLatencyMs && slower.avgLatencyMs > 100.0
    requires n.avgLatencyMs <= 100.0 || LatencyScore(n, v.half) > 0.1
    ensures ScoreNode(v, req, slower, now).value.total < ScoreNode(v, req, n, now).value.total
  {
    StrictlySlower(n, slower, v.half);
    LowerLatencyTotal(v.weights, ScoreNode(v, req, n, now).value.parts, ScoreNode(v, req, slower, now).value.parts);
  }

  lemma LowerLatencyTotal(w: Weights, a: Breakdown, b: Breakdown)
    requires b == a.(latency := b.latency) && b.latency < a.latency && w.latency > 0.0
    ensures Total(w, b) < Total(w, a)
  {
    TotalGaps(w, a, b);
    PositiveProduct(a.latency - b.latency, w.latency);
  }

  /** Of nodes alike in all but latency, one that has to wait beyond 100 ms is
      never the target beside one that does not, or, above a tenth of the scale,
      beside a faster one. */
  lemma SlowerNodeLoses(v: View, req: Request, nodes: seq<NodeInfo>, now: real, i: nat, j: nat)
    requires i < |nodes| && j < |nodes| && forall k, l :: 0 <= k < l < |nodes| ==> nodes[k].nodeId != nodes[l].nodeId
    requires AlikeButLatency(v, req, nodes[i], nodes[j], now) && Decide(v, req, nodes, now).Ok?
    requires HalvesEachStep(v.half) && v.weights.latency > 0.0
    requires nodes[i].avgLatencyMs < nodes[j].avgLatencyMs && nodes[j].avgLatencyMs > 100.0
    requires nodes[i].avgLatencyMs <= 100.0 || LatencyScore(nodes[i], v.half) > 0.1
    ensures Decide(v, req, nodes, now).value.target != nodes[j].nodeId
  {
    LatencyDecides(v, req, nodes[i], nodes[j], now);
    SmallerTotalLoses(v, req, nodes, now, i, j);
  }

  lemma StrictlySlower(n: NodeInfo, slower: NodeInfo, half: real -> real)
    requires HalvesEachStep(half) && n.avgLatencyMs < slower.avgLatencyMs && slower.avgLatencyMs > 100.0
    requires n.avgLatencyMs <= 100.0 || LatencyScore(n, half) > 0.1
    ensures LatencyScore(slower, half) < LatencyScore(n, half)
  {
    var x := if n.avgLatencyMs <= 100.0 then 0.0 else (n.avgLatencyMs - 100.0) / 100.0;
    var y := (slower.avgLatencyMs - 100.0) / 100.0;
    assert 0.0 <= x < y;
    assert half(y) < half(x);
  }

  predicate AlikeButLoad(v: View, req: Request, n: NodeInfo, m: NodeInfo, now: real) {
    var x, y := ScoreNode(v, req, n, now), ScoreNode(v, req, m, now);
    x.Ok? && y.Ok? && y.value.parts == x.value.parts.(load := y.value.parts.load)
  }

  /** `m` has not reported for 30 seconds; `n` has some load score. */
  predicate SilentBeside(v: View, req: Request, n: NodeInfo, m: NodeInfo, now: real) {
    && m.nodeId in v.metrics && now - v.metrics[m.nodeId].lastHeartbeat > 30.0
    && (n.nodeId in v.metrics ==> LoadScore(v.metrics, n.nodeId, req, now) != Score(0.0))
  }

  lemma LoadDecides(v: View, req: Request, n: NodeInfo, m: NodeInfo, now: real)
    requires AlikeButLoad(v, req, n, m, now) && SilentBeside(v, req, n, m, now) && v.weights.load > 0.0
    ensures ScoreNode(v, req, m, now).value.total < ScoreNode(v, req, n, now).value.total
  {
    LoadInUnit(v.metrics, n.nodeId, req, now);
    LowerLoadTotal(v.weights, ScoreNode(v, req, n, now).value.parts, ScoreNode(v, req, m, now).value.parts);
  }

  lemma LowerLoadTotal(w: Weights, a: Breakdown, b: Breakdown)
    requires b == a.(load := b.load) && b.load < a.load && w.load > 0.0
    ensures Total(w, b) < Total(w, a)
  {
    TotalGaps(w, a, b);
    PositiveProduct(a.load - b.load, w.load);
  }

  lemma LoadInUnit(metrics: map<string, NodeLoadMetrics>, node: string, req: Request, now: real)
    ensures var r := LoadScore(metrics, node, req, now); r.Score? ==> InUnit(r.value)
  {
  }

  /** Of nodes alike in all but load, one that has not reported for 30 seconds is
      never the target beside one with any load score, or beside one that has
      never reported. */
  lemma SilentNodeLoses(v: View, req: Request, nodes: seq<NodeInfo>, now: real, i: nat, j: nat)
    requires i < |nodes| && j < |nodes| && forall k, l :: 0 <= k < l < |nodes| ==> nodes[k].nodeId != nodes[l].nodeId
    requires AlikeButLoad(v, req, nodes[i], nodes[j], now) && SilentBeside(v, req, nodes[i], nodes[j], now)
    requires Decide(v, req, nodes, now).Ok? && v.weights.load > 0.0
    ensures Decide(v, req, nodes, now).value.target != nodes[j].nodeId
  {
    LoadDecides(v, req, nodes[i], nodes[j], now);
    SmallerTotalLoses(v, req, nodes, now, i, j);
  }

  // ------------------------------------------------ what load is made of

  /** The load score of a node that has just reported. */
  function FreshLoad(m: NodeLoadMetrics, req: Request): Score {
    LoadScore(map["" := m], "", req, m.lastHeartbeat)
  }

  /** The score was not cut off at either end. */
  predicate Inside(m: NodeLoadMetrics, req: Request) {
    m.errorPercent <= 10.0 && FreshLoad(m, req).Score? && 0.0 < FreshLoad(m, req).value < 1.0
  }

  /** What each figure is worth between the ends of the scale: 0.12 for the
      sequences a node may take, 0.16 for its memory, 0.12 for its cache, 0.3 for
      its throughput up to 100 tokens a second. */
  lemma LoadGaps(m: NodeLoadMetrics, n: NodeLoadMetrics, req: Request)
    requires Inside(m, req) && Inside(n, req)
    ensures n == m.(kvCachePercent := n.kvCachePercent) ==>
              10000.0 * (FreshLoad(m, req).value - FreshLoad(n, req).value) == 12.0 * (n.kvCachePercent - m.kvCachePercent)
    ensures n == m.(gpuMemoryPercent := n.gpuMemoryPercent) ==>
              10000.0 * (FreshLoad(m, req).value - FreshLoad(n, req).value) == 16.0 * (n.gpuMemoryPercent - m.gpuMemoryPercent)
    ensures n == m.(throughput := n.throughput) && m.throughput <= 100.0 && n.throughput <= 100.0 ==>
              1000.0 * (FreshLoad(m, req).value - FreshLoad(n, req).value) == 3.0 * (m.throughput - n.throughput)
    ensures n == m.(throughput := n.throughput) && m.throughput >= 100.0 && n.throughput >= 100.0 ==>
              FreshLoad(m, req).value == FreshLoad(n, req).value
  {
  }

  /** Per sequence taken, the twelve hundredths are shared out over the limit. */
  lemma SequenceGap(m: NodeLoadMetrics, n: NodeLoadMetrics, req: Request)
    requires Inside(m, req) && Inside(n, req) && m.maxConcurrent > 0
    requires n == m.(activeSequences := n.activeSequences)
    ensures 100.0 * (FreshLoad(m, req).value - FreshLoad(n, req).value) * m.maxConcurrent as real
            == 12.0 * (n.activeSequences - m.activeSequences) as real
  {
    var k := m.maxConcurrent as real;
    var p, q := m.activeSequences as real / k, n.activeSequences as real / k;
    SharesTaken(m, n, req);
    ShareTimes(m.activeSequences as real, n.activeSequences as real, k);
    TimesTwelve(FreshLoad(m, req).value - FreshLoad(n, req).value, q - p, k);
  }

  lemma SharesTaken(m: NodeLoadMetrics, n: NodeLoadMetrics, req: Request)
    requires Inside(m, req) && Inside(n, req) && m.maxConcurrent > 0
    requires n == m.(activeSequences := n.activeSequences)
    ensures FreshLoad(m, req).value - FreshLoad(n, req).value
            == 0.12 * (n.activeSequences as real / m.maxConcurrent as real - m.activeSequences as real / m.maxConcurrent as real)
  {
  }

  lemma ShareTimes(a: real, b: real, k: real)
    requires k > 0.0
    ensures (b / k - a / k) * k == b - a
  {
    var p, q := a / k, b / k;
    assert p * k == a && q * k == b;
  }

  lemma TimesTwelve(gap: real, d: real, k: real)
    requires gap == 0.12 * d
    ensures 100.0 * gap * k == 12.0 * (d * k)
  {
  }

  /** Up to ten queued sequences cost nothing, each further one 0.002, until the
      queue's tenth of the score is down to 0.03 at 45. */
  lemma QueueGap(m: NodeLoadMetrics, n: NodeLoadMetrics, req: Request)
    requires Inside(m, req) && Inside(n, req) && n == m.(pendingSequences := n.pendingSequences)
    ensures m.pendingSequences <= 10 && n.pendingSequences <= 10 ==> FreshLoad(m, req).value == FreshLoad(n, req).value
    ensures 10 <= m.pendingSequences <= n.pendingSequences <= 45 ==>
              500.0 * (FreshLoad(m, req).value - FreshLoad(n, req).value) == (n.pendingSequences - m.pendingSequences) as real
    ensures 45 <= m.pendingSequences && 45 <= n.pendingSequences ==> FreshLoad(m, req).value == FreshLoad(n, req).value
  {
  }

  /** Ten times the tokens a request is expected to take: 1.3 for a word, and what
      it may generate. */
  function TenfoldTokens(req: Request): int {
    13 * req.words + 10 * req.maxTokens
  }

  /** A request that takes from three to under seven tenths of a node's length
      suits it best, one that takes less costs 0.06, one that takes more 0.04, one
      that does not fit 0.2. */
  lemma SuitabilityGap(m: NodeLoadMetrics, fit: Request, other: Request)
    requires Inside(m, fit) && Inside(m, other) && m.maxSequenceLength > 0
    requires 3 * m.maxSequenceLength <= TenfoldTokens(fit) < 7 * m.maxSequenceLength
    ensures var gap := FreshLoad(m, fit).value - FreshLoad(m, other).value;
            gap == if TenfoldTokens(other) < 3 * m.maxSequenceLength then 0.06
                   else if TenfoldTokens(other) < 7 * m.maxSequenceLength then 0.0
                   else if TenfoldTokens(other) <= 10 * m.maxSequenceLength then 0.04 else 0.2
  {
    ShareOfLength(m, fit);
    ShareOfLength(m, other);
    assert FreshLoad(m, fit).value - FreshLoad(m, other).value == 0.2 * (Suitability(m, fit).value - Suitability(m, other).value);
  }

  lemma ShareOfLength(m: NodeLoadMetrics, req: Request)
    requires m.maxSequenceLength > 0
    ensures Suitability(m, req) ==
            Score(if TenfoldTokens(req) > 10 * m.maxSequenceLength then 0.0
                  else if TenfoldTokens(req) < 3 * m.maxSequenceLength then 0.7
                  else if TenfoldTokens(req) < 7 * m.maxSequenceLength then 1.0 else 0.8)
  {
    var tokens, length := req.words as real * 1.3 + req.maxTokens as real, m.maxSequenceLength as real;
    assert 10.0 * tokens == TenfoldTokens(req) as real;
    Shares(tokens, length, 0.3);
    Shares(tokens, length, 0.7);
  }

  lemma Shares(x: real, whole: real, share: real)
    requires whole > 0.0
    ensures x / whole < share <==> x < share * whole
  {
    var q := x / whole;
    assert q * whole == x;
    if q < share { PositiveProduct(share - q, whole); }
    if q >= share { ProductNonNegative(q - share, whole); }
  }

  /** An idle node with a request that suits it scores 1 with full throughput and
      0.7 with none; a node with more than a tenth of errors 0.1. */
  lemma LoadEnds(m: NodeLoadMetrics, req: Request)
    ensures m.errorPercent > 10.0 ==> FreshLoad(m, req) == Score(0.1)
    ensures m.errorPercent <= 10.0 && m.activeSequences == 0 && m.maxConcurrent > 0 && m.gpuMemoryPercent == 0.0
              && m.kvCachePercent == 0.0 && m.throughput >= 100.0 && m.pendingSequences <= 10
              && m.maxSequenceLength > 0 && 3 * m.maxSequenceLength <= TenfoldTokens(req) < 7 * m.maxSequenceLength ==>
              FreshLoad(m, req) == Score(1.0) && FreshLoad(m.(throughput := 0.0), req) == Score(0.7)
  {
    if m.maxSequenceLength > 0 { ShareOfLength(m, req); }
  }

  /** The decision of last resort: no other gives so little confidence, expects
      so long a latency, or leaves nothing to fall back on among several nodes. */
  lemma EmergencyStandsOut(node: string, d: Decision, scored: seq<Scored>)
    requires scored != [] && Select(Ranked(scored)) == Ok(d)
    ensures var e := Emergency(node);
            && e.target == node && e.confidence == 0.1 && e.fallbacks == [] && e.cacheHitProbability == 0.0 && InBounds(e)
            && e.parts == Breakdown(0.0, 0.1, 0.0, 0.0)
            && e.estimatedLatencyMs == 5000.0 > d.estimatedLatencyMs
            && (|scored| > 1 ==> d.confidence >= 0.5 > e.confidence && d.fallbacks != [])
  {
    SelectedIsBest(scored);
    RankedIsDescending(scored);
  }

  /** What does not come from the cache affinity, with the default weights. */
  function OtherTotal(b: Breakdown): real {
    0.3 * b.latency + 0.2 * b.load + 0.1 * b.capacity
  }

  lemma LeadNeeded(home: Breakdown, other: Breakdown)
    requires home.cacheHit >= 0.92 && other.cacheHit == 0.1
    requires Total(DEFAULT_WEIGHTS, home) <= Total(DEFAULT_WEIGHTS, other)
    ensures OtherTotal(other) >= OtherTotal(home) + 0.328
  {
  }

  /** A node that saw the prefix less than five minutes ago is chosen unless
      some other node leads by at least 0.328 on everything but the cache. */
  lemma RecentNodeWins(v: View, req: Request, nodes: seq<NodeInfo>, now: real, home: nat)
    requires Inv(v.affinity, now) && v.weights == DEFAULT_WEIGHTS
    requires home < |nodes| && forall i, j :: 0 <= i < j < |nodes| ==> nodes[i].nodeId != nodes[j].nodeId
    requires req.prefix in v.affinity.prefixes
    requires v.affinity.prefixes[req.prefix].node == nodes[home].nodeId
    requires now - v.affinity.prefixes[req.prefix].lastSeen < 300.0
    requires Decide(v, req, nodes, now).Ok?
    ensures var d, scored := Decide(v, req, nodes, now).value, ScoreAll(v, req, nodes, now).value;
            || d.target == nodes[home].nodeId
            || exists i :: 0 <= i < |nodes| && d.target == nodes[i].nodeId
                           && OtherTotal(scored[i].parts)
                              >= OtherTotal(scored[home].parts) + 0.328
  {
    var scored := ScoreAll(v, req, nodes, now).value;
    SelectedIsBest(scored);
    var d := Decide(v, req, nodes, now).value;
    var i :| 0 <= i < |scored| && d.target == scored[i].node && scored[home].total <= scored[i].total;
    assert ScoreNode(v, req, nodes[i], now) == Ok(scored[i]);
    assert ScoreNode(v, req, nodes[home], now) == Ok(scored[home]);
    if i != home {
      FreshMatchScores(v.affinity, v.window, req.prefix, nodes[home].nodeId, nodes[i].nodeId, now);
      LeadNeeded(scored[home].parts, scored[i].parts);
    }
  }
}
