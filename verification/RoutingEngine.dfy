/** The routing engine: the objects that hold its state, and the route call with
    its emergency path. */
module RoutingEngine {
  import opened AffinityState
  import opened AffinityInvariants
  import opened AffinityScoring
  import opened AffinityTracker
  import opened Routing

  class LoadBalancingAlgorithm {
    var nodeMetrics: map<string, NodeLoadMetrics>

    constructor ()
      ensures nodeMetrics == map[]
    {
      nodeMetrics := map[];
    }

    method UpdateNodeMetrics(node: string, metrics: NodeLoadMetrics, now: real)
      modifies this
      ensures nodeMetrics == old(nodeMetrics)[node := metrics.(lastHeartbeat := now)]
      ensures forall rs :: old(nodeMetrics) == Reported(rs) ==> nodeMetrics == Reported(rs + [Report(node, metrics, now)])
    {
      forall rs ensures Reported(rs + [Report(node, metrics, now)])
                        == Reported(rs)[node := metrics.(lastHeartbeat := now)] {
        assert (rs + [Report(node, metrics, now)])[..|rs|] == rs;
      }
      nodeMetrics := nodeMetrics[node := metrics.(lastHeartbeat := now)];
    }
  }

  class RoutingDecisionEngine {
    const weights: Weights
    const affinityTracker: KVCacheAffinityTracker
    const loadBalancer: LoadBalancingAlgorithm
    var totalRequests: nat
    var cacheHitRoutes: nat
    var loadBalancedRoutes: nat
    var fallbackRoutes: nat

    constructor (weights: Weights)
      ensures forall now :: Valid(now)
      ensures this.weights == weights && fresh(affinityTracker) && fresh(loadBalancer)
    {
      this.weights := weights;
      affinityTracker := new KVCacheAffinityTracker();
      loadBalancer := new LoadBalancingAlgorithm();
      totalRequests, cacheHitRoutes, loadBalancedRoutes, fallbackRoutes := 0, 0, 0, 0;
    }

    ghost predicate Valid(now: real)
      reads this, affinityTracker, loadBalancer
    {
      && affinityTracker.maxEntries == 10000 && affinityTracker.memoryWindowSeconds == 1800.0
      && Inv(affinityTracker.Value(), now)
      && |affinityTracker.prefixToNode| <= affinityTracker.maxEntries
      && totalRequests == cacheHitRoutes + loadBalancedRoutes + fallbackRoutes
    }

    ghost function Sees(half: real -> real): View
      reads affinityTracker, loadBalancer
    {
      View(affinityTracker.Value(), affinityTracker.memoryWindowSeconds, loadBalancer.nodeMetrics, weights, half)
    }

    method ScoreNodes(req: Request, nodes: seq<NodeInfo>, now: real, half: real -> real)
      returns (r: Result<seq<Scored>>)
      ensures r == ScoreAll(Sees(half), req, nodes, now)
    {
      var scored: seq<Scored> := [];
      for i := 0 to |nodes|
        invariant ScoreAll(Sees(half), req, nodes[..i], now) == Ok(scored)
      {
        var n := nodes[i];
        var cacheHit := affinityTracker.GetCacheAffinityScore(req.prefix, n.nodeId, now);
        var load := LoadScore(loadBalancer.nodeMetrics, n.nodeId, req, now);
        if cacheHit.ZeroDivision? || load.ZeroDivision? {
          assert ScoreNode(Sees(half), req, nodes[i], now).Raised?;
          RaisingNodeRaises(Sees(half), req, nodes, now, i);
          return Raised;
        }
        var parts := Breakdown(cacheHit.value, load.value, LatencyScore(n, half), CapacityScore(n));
        scored := scored + [Scored(n.nodeId, Total(weights, parts), parts)];
        assert nodes[..i + 1][..i] == nodes[..i];
      }
      assert nodes[..|nodes|] == nodes;
      r := Ok(scored);
    }

    /** Scoring and selection; raises for no nodes, a division by zero in a
        score, or a decision that fails validation. */
    method ChooseNode(req: Request, nodes: seq<NodeInfo>, now: real, half: real -> real) returns (r: Result<Decision>)
      ensures r == Decide(Sees(half), req, nodes, now)
      ensures r.Ok? ==> InBounds(r.value) && exists i :: 0 <= i < |nodes| && nodes[i].nodeId == r.value.target
    {
      var scored := ScoreNodes(req, nodes, now, half);
      if scored.Raised? { return Raised; }
      r := Select(Ranked(scored.value));
      if r.Ok? {
        SelectedIsBest(scored.value);
        var k :| 0 <= k < |nodes| && r.value.target == scored.value[k].node;
        assert ScoreNode(Sees(half), req, nodes[k], now) == Ok(scored.value[k]);
      }
    }

    /** `now` is the clock while scoring; recording reads it at `start` and `end`. */
    method RouteRequest(req: Request, nodes: seq<NodeInfo>, now: real, start: real, end: real, half: real -> real)
      returns (r: Result<Decision>)
      requires Valid(now) && now <= start <= end
      modifies this`totalRequests, this`cacheHitRoutes, this`loadBalancedRoutes, this`fallbackRoutes, affinityTracker
      ensures Valid(end)
      ensures r.Ok? <==> nodes != []
      ensures r.Ok? ==> InBounds(r.value) && exists i :: 0 <= i < |nodes| && nodes[i].nodeId == r.value.target
      ensures var decided := old(Decide(Sees(half), req, nodes, now));
              && (decided.Ok? ==> r == decided)
              && (decided.Raised? && nodes != [] ==> r == Ok(Emergency(nodes[0].nodeId)))
              && totalRequests == old(totalRequests) + (if decided.Ok? then 1 else 0)
              && affinityTracker.Value() ==
                   (if decided.Raised? then old(affinityTracker.Value())
                    else Apply(old(affinityTracker.Value()), affinityTracker.Settings(),
                               RouteEvent(req, decided.value, start, end)))
      ensures old(Decide(Sees(half), req, nodes, now)).Ok? ==>
                && Remembered(affinityTracker.Value(), req, r.value, start, end)
                && forall node: string, later: real :: end <= later < start + 300.0 ==>
                     Favours(affinityTracker.Value(), req.prefix, node, r.value.target, later)
    {
      var decision := ChooseNode(req, nodes, now, half);
      if decision.Raised? {
        InvLater(affinityTracker.Value(), now, end);
        return if nodes == [] then Raised else Ok(Emergency(nodes[0].nodeId));
      }
      RecordRoutingDecision(req, decision.value, now, start, end);
      totalRequests := totalRequests + 1;
      r := decision;
      NextRouteSees(affinityTracker.Value(), req, decision.value, start, end);
    }

    method RecordRoutingDecision(req: Request, d: Decision, ghost now: real, start: real, end: real)
      requires Valid(now) && now <= start <= end
      modifies this`cacheHitRoutes, this`loadBalancedRoutes, this`fallbackRoutes, affinityTracker
      ensures Inv(affinityTracker.Value(), end) && |affinityTracker.Value().prefixes| <= affinityTracker.maxEntries
      ensures affinityTracker.Value() ==
                Apply(old(affinityTracker.Value()), affinityTracker.Settings(), RouteEvent(req, d, start, end))
      ensures Remembered(affinityTracker.Value(), req, d, start, end)
      ensures cacheHitRoutes + loadBalancedRoutes + fallbackRoutes
              == old(cacheHitRoutes) + old(loadBalancedRoutes) + old(fallbackRoutes) + 1
      ensures cacheHitRoutes == old(cacheHitRoutes) + (if d.cacheHitProbability > 0.7 then 1 else 0)
      ensures loadBalancedRoutes == old(loadBalancedRoutes) + if d.cacheHitProbability <= 0.7 && LoadIsGreatest(d.parts) then 1 else 0
    {
      CountRoute(d);
      var e := RouteEvent(req, d, start, end);
      ghost var s, cfg := affinityTracker.Value(), affinityTracker.Settings();
      RecordIsSafe(s, cfg, e, now);
      RouteIsRemembered(s, cfg, req, d, now, start, end);
      ghost var s' := Apply(s, cfg, e);
      var outcome := affinityTracker.RecordRequest(e.id, e.prefix, e.node, e.estimate, start, end);
      assert affinityTracker.Value() == s';
    }

    method CountRoute(d: Decision)
      modifies this`cacheHitRoutes, this`loadBalancedRoutes, this`fallbackRoutes
      ensures cacheHitRoutes + loadBalancedRoutes + fallbackRoutes
              == old(cacheHitRoutes) + old(loadBalancedRoutes) + old(fallbackRoutes) + 1
      ensures cacheHitRoutes == old(cacheHitRoutes) + (if d.cacheHitProbability > 0.7 then 1 else 0)
      ensures loadBalancedRoutes == old(loadBalancedRoutes) + if d.cacheHitProbability <= 0.7 && LoadIsGreatest(d.parts) then 1 else 0
    {
      var p := d.parts;
      if d.cacheHitProbability > 0.7 {
        cacheHitRoutes := cacheHitRoutes + 1;
      } else if p.load == Max(Max(p.cacheHit, p.load), Max(p.latency, p.capacity)) {
        loadBalancedRoutes := loadBalancedRoutes + 1;
      } else {
        fallbackRoutes := fallbackRoutes + 1;
      }
    }
  }

  predicate LoadIsGreatest(b: Breakdown) {
    b.load >= b.cacheHit && b.load >= b.latency && b.load >= b.capacity
  }

  /** The tracker has the decision: exactly if recording took no longer than half
      an hour, the request's prefix is mapped to the target as of `start` and the
      target's deque ends in it; and exactly if it took no longer than the
      latency expected, the request is active there. */
  ghost predicate Remembered(s: State, req: Request, d: Decision, start: real, end: real) {
    && (req.prefix in s.prefixes <==> end - start <= 1800.0)
    && (req.prefix in s.prefixes ==>
          s.prefixes[req.prefix].node == d.target && s.prefixes[req.prefix].lastSeen == start)
    && (end - start <= 1800.0 <==> EndsIn(s, d.target, (req.prefix, start)))
    && (req.id in s.active <==> 1000.0 * (end - start) <= d.estimatedLatencyMs)
    && (req.id in s.active ==>
          s.active[req.id] == ActiveRequest(req.prefix, d.target, start, start + d.estimatedLatencyMs / 1000.0))
  }

  /** A request for the prefix scores the target 0.92 or more on affinity, and any
      other node 0.1. */
  ghost predicate Favours(s: State, prefix: string, node: string, target: string, now: real) {
    var score := AffinityScore(s, 1800.0, prefix, node, now);
    if node == target then score.Score? && score.value >= 0.92 else score == Score(0.1)
  }

  lemma RouteIsRemembered(s: State, cfg: Config, req: Request, d: Decision, now: real, start: real, end: real)
    requires Inv(s, now) && now <= start <= end && cfg == Config(1800.0, 10000) && |s.prefixes| <= cfg.maxEntries
    ensures Remembered(Apply(s, cfg, RouteEvent(req, d, start, end)), req, d, start, end)
  {
    var e := RouteEvent(req, d, start, end);
    RecordedSurvives(s, cfg, e, now);
    RecordedShows(s, cfg, e, now);
    StepActive(s, cfg, e, req.id);
    MemoryOf(Apply(s, cfg, e), s, cfg, req, d, start, end);
  }

  lemma MemoryOf(s': State, s: State, cfg: Config, req: Request, d: Decision, start: real, end: real)
    requires cfg.window == 1800.0
    requires var e := RouteEvent(req, d, start, end);
             && ActiveNext(s, s', e, req.id)
             && (e.end - e.start <= cfg.window <==> EndsIn(s', e.node, (e.prefix, e.start)))
             && (e.prefix in s'.prefixes <==> e.end - e.start <= cfg.window)
             && (e.prefix in s'.prefixes ==> s'.prefixes[e.prefix].node == e.node && s'.prefixes[e.prefix].lastSeen == e.start)
    ensures Remembered(s', req, d, start, end)
  {
  }

  /** So, for five minutes, the next request for the prefix finds it there. */
  lemma NextRouteSees(s: State, req: Request, d: Decision, start: real, end: real)
    requires Inv(s, end) && Remembered(s, req, d, start, end)
    ensures forall node: string, later: real :: end <= later < start + 300.0 ==>
              Favours(s, req.prefix, node, d.target, later)
  {
    forall node: string, later: real | end <= later < start + 300.0 ensures Favours(s, req.prefix, node, d.target, later) {
      InvLater(s, end, later);
      FreshMatchScores(s, 1800.0, req.prefix, d.target, if node == d.target then node + "'" else node, later);
    }
  }

  /** The record a routed request makes in the tracker. */
  function RouteEvent(req: Request, d: Decision, start: real, end: real): Event {
    Record(req.id, req.prefix, d.target, start + d.estimatedLatencyMs / 1000.0, start, end)
  }

  lemma {:induction false} RaisingNodeRaises(v: View, req: Request, nodes: seq<NodeInfo>, now: real, i: nat)
    requires i < |nodes| && ScoreNode(v, req, nodes[i], now).Raised?
    ensures ScoreAll(v, req, nodes, now).Raised?
  {
    if i < |nodes| - 1 { RaisingNodeRaises(v, req, nodes[..|nodes| - 1], now, i); }
  }
}
