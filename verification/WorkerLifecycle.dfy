/** Worker processes as the manager sees them: who holds which port and GPU, and
    what health checks and restarts do to a worker. */
module WorkerLifecycle {

  import opened Common

  datatype Life = Starting | Running | Stopping | Stopped | Failed

  datatype Proc = Proc(
    port: int, gpu: Option<int>, life: Life, restarts: int, failures: int, healthy: bool)

  datatype State = State(workers: map<string, Proc>, ports: set<int>, gpus: map<int, string>)

  const PORT_POOL: set<int> := set p | 8001 <= p < 8100

  function Initial(): State { State(map[], PORT_POOL, map[]) }

  // --------------------------------------------------------------- resources

  /** A start request; `chosen` is the port the pool gives out if none is asked
      for, `spawns` whether the process can be created. */
  datatype Request = Request(id: string, port: Option<int>, gpu: Option<int>, chosen: int, spawns: bool)

  /** How a start goes up to that point, and, for the whole call, that the process
      never became healthy. */
  datatype Launched = Launched | AlreadyExists | NoPorts | GpuTaken | SpawnFailed | NeverHealthy

  function PortOf(r: Request): int {
    if r.port.Some? then r.port.value else r.chosen
  }

  /** The pool chooses among what it has. */
  predicate Possible(s: State, r: Request) {
    r.port.None? && s.ports != {} ==> r.chosen in s.ports
  }

  /** Up to the point where the new process is waited for. */
  function Launch(s: State, r: Request): (State, Launched) {
    if r.id in s.workers then (s, AlreadyExists)
    else if r.port.None? && s.ports == {} then (s, NoPorts)
    else
      var port := PortOf(r);
      if r.gpu.Some? && r.gpu.value in s.gpus then
        (s.(ports := s.ports - {port}), GpuTaken)
      else
        var life := if r.spawns then Running else Failed;
        (State(
           s.workers[r.id := Proc(port, r.gpu, life, 0, 0, false)],
           s.ports - {port},
           if r.gpu.Some? then s.gpus[r.gpu.value := r.id] else s.gpus),
         if r.spawns then Launched else SpawnFailed)
  }

  predicate CanStop(s: State, id: string) {
    id in s.workers && !s.workers[id].life.Stopped? && !s.workers[id].life.Stopping?
  }

  function StopBegun(s: State, id: string): State {
    if CanStop(s, id) then s.(workers := s.workers[id := s.workers[id].(life := Stopping)]) else s
  }

  function WithoutGpu(gpus: map<int, string>, gpu: Option<int>): map<int, string> {
    if gpu.Some? then gpus - {gpu.value} else gpus
  }

  /** The end of a stop: `exits` tells whether the process could be brought down;
      if not, the worker keeps what it holds. */
  function StopEnded(s: State, id: string, exits: bool): State
    requires id in s.workers
  {
    var p := s.workers[id];
    if !exits then s.(workers := s.workers[id := p.(life := Failed)])
    else s.(workers := s.workers[id := p.(life := Stopped, healthy := false)],
            ports := s.ports + {p.port},
            gpus := WithoutGpu(s.gpus, p.gpu))
  }

  datatype Event =
    | Start(request: Request)
    | StopBegin(id: string)
    | StopEnd(id: string, exits: bool)
    | BecomeHealthy(id: string)

  predicate Enabled(s: State, e: Event) {
    match e
    case Start(r) => Possible(s, r)
    case StopEnd(id, _) => id in s.workers && s.workers[id].life.Stopping?
    case BecomeHealthy(id) => id in s.workers
    case StopBegin(_) => true
  }

  function Apply(s: State, e: Event): State
    requires Enabled(s, e)
  {
    match e
    case Start(r) => Launch(s, r).0
    case StopBegin(id) => StopBegun(s, id)
    case StopEnd(id, exits) => StopEnded(s, id, exits)
    case BecomeHealthy(id) => s.(workers := s.workers[id := s.workers[id].(healthy := true, failures := 0)])
  }

  predicate Holds(s: State, id: string) {
    id in s.workers && !s.workers[id].life.Stopped?
  }

  predicate HoldsPort(s: State, id: string, port: int) {
    Holds(s, id) && s.workers[id].port == port
  }

  ghost predicate PortHeld(s: State, port: int) {
    exists id :: HoldsPort(s, id, port)
  }

  /** No port is held twice or held and available; a GPU is listed exactly for
      the one worker that holds it. */
  ghost predicate Exclusive(s: State) {
    && (forall i, j :: Holds(s, i) && Holds(s, j) && s.workers[i].port == s.workers[j].port ==> i == j)
    && (forall id :: Holds(s, id) ==> s.workers[id].port !in s.ports)
    && (forall id :: Holds(s, id) && s.workers[id].gpu.Some? ==>
          s.workers[id].gpu.value in s.gpus && s.gpus[s.workers[id].gpu.value] == id)
    && (forall g :: g in s.gpus ==> Holds(s, s.gpus[g]) && s.workers[s.gpus[g]].gpu == Some(g))
  }

  lemma StartOnHeldPort(s: State, r: Request, id: string)
    requires HoldsPort(s, id, PortOf(r)) && (Launch(s, r).1.Launched? || Launch(s, r).1.SpawnFailed?)
    ensures !Exclusive(Launch(s, r).0)
  {
    var s' := Launch(s, r).0;
    assert Holds(s', id) && Holds(s', r.id) && s'.workers[id].port == s'.workers[r.id].port;
  }

  lemma StartOnFreePort(s: State, r: Request)
    requires Exclusive(s) && Possible(s, r)
    requires Launch(s, r).1.Launched? || Launch(s, r).1.SpawnFailed? ==> !PortHeld(s, PortOf(r))
    ensures Exclusive(Launch(s, r).0)
  {
    var s', l := Launch(s, r).0, Launch(s, r).1;
    if l.Launched? || l.SpawnFailed? {
      forall id | Holds(s, id) ensures s.workers[id].port != PortOf(r) {
        assert !HoldsPort(s, id, PortOf(r));
      }
      assert forall id :: Holds(s', id) <==> id == r.id || Holds(s, id);
    } else {
      assert forall id :: Holds(s', id) <==> Holds(s, id);
    }
  }

  /** What starting with a port costs: exclusiveness survives a start exactly if
      the port asked for is not held already (one from the pool never is). */
  lemma StartKeepsExclusiveExactly(s: State, r: Request)
    requires Exclusive(s) && Possible(s, r)
    ensures Exclusive(Launch(s, r).0)
            <==> !(Launch(s, r).1.Launched? || Launch(s, r).1.SpawnFailed?) || !PortHeld(s, PortOf(r))
    ensures PortOf(r) in s.ports ==> !PortHeld(s, PortOf(r))
  {
    if (Launch(s, r).1.Launched? || Launch(s, r).1.SpawnFailed?) && PortHeld(s, PortOf(r)) {
      var id :| HoldsPort(s, id, PortOf(r));
      StartOnHeldPort(s, r, id);
    } else {
      StartOnFreePort(s, r);
    }
  }

  lemma StopBegunKeepsExclusive(s: State, id: string)
    requires Exclusive(s)
    ensures Exclusive(StopBegun(s, id))
  {
    assert forall i :: Holds(StopBegun(s, id), i) <==> Holds(s, i);
  }

  lemma StopEndedKeepsExclusive(s: State, id: string, exits: bool)
    requires Exclusive(s) && Holds(s, id)
    ensures Exclusive(StopEnded(s, id, exits))
  {
    assert forall i :: Holds(StopEnded(s, id, exits), i) <==> Holds(s, i) && (i != id || !exits);
  }

  /** Starts that let the pool choose, or ask for a port no worker holds. */
  ghost predicate Careful(s: State, e: Event) {
    e.Start? && e.request.port.Some? ==> !PortHeld(s, e.request.port.value)
  }

  lemma ApplyKeepsExclusive(s: State, e: Event)
    requires Exclusive(s) && Enabled(s, e) && Careful(s, e)
    ensures Exclusive(Apply(s, e))
  {
    match e
    case Start(r) => StartKeepsExclusiveExactly(s, r);
    case StopBegin(id) => StopBegunKeepsExclusive(s, id);
    case StopEnd(id, exits) => StopEndedKeepsExclusive(s, id, exits);
    case BecomeHealthy(id) => assert forall i :: Holds(Apply(s, e), i) <==> Holds(s, i);
  }

  /** Every port of the pool is available or held. */
  ghost predicate NoPortMissing(s: State) {
    forall p :: 8001 <= p < 8100 ==> p in s.ports || PortHeld(s, p)
  }

  /** A start that takes a port of the pool and is then rejected for its GPU. */
  predicate LosesPort(s: State, e: Event) {
    && e.Start? && Launch(s, e.request).1.GpuTaken?
    && PortOf(e.request) in s.ports && PortOf(e.request) in PORT_POOL
  }

  lemma LostPortIsMissing(s: State, e: Event)
    requires Exclusive(s) && LosesPort(s, e) && Enabled(s, e)
    ensures !NoPortMissing(Apply(s, e))
  {
    var s', p := Apply(s, e), PortOf(e.request);
    assert s'.workers == s.workers;
    assert forall id :: HoldsPort(s', id, p) ==> Holds(s, id);
    assert p !in s'.ports;
  }

  lemma PortStays(s: State, e: Event, p: int)
    requires Enabled(s, e) && !LosesPort(s, e) && p in PORT_POOL
    requires p in s.ports || PortHeld(s, p)
    ensures p in Apply(s, e).ports || PortHeld(Apply(s, e), p)
  {
    var s' := Apply(s, e);
    if id :| HoldsPort(s, id, p) {
      assert HoldsPort(s', id, p) || p in s'.ports;
    } else if e.Start? && p !in s'.ports {
      assert HoldsPort(s', e.request.id, p);
    }
  }

  /** A step loses a port exactly if it is a start that is rejected for its GPU
      after a port of the pool was taken for it. */
  lemma ApplyKeepsPortsExactly(s: State, e: Event)
    requires Exclusive(s) && NoPortMissing(s) && Enabled(s, e)
    ensures NoPortMissing(Apply(s, e)) <==> !LosesPort(s, e)
  {
    if LosesPort(s, e) {
      LostPortIsMissing(s, e);
    } else {
      forall p | p in PORT_POOL ensures p in Apply(s, e).ports || PortHeld(Apply(s, e), p) { PortStays(s, e, p); }
    }
  }

  // ------------------------------------------------------------- whole runs

  ghost predicate Trace(states: seq<State>, es: seq<Event>) {
    && |states| == |es| + 1 && states[0] == Initial()
    && forall k :: 0 <= k < |es| ==>
         Enabled(states[k], es[k]) && Careful(states[k], es[k]) && states[k + 1] == Apply(states[k], es[k])
  }

  /** Over every run of starts and stops, interleaved at will: distinct ports
      outside the pool, and distinct GPUs. */
  lemma {:induction false} RunIsExclusive(states: seq<State>, es: seq<Event>, k: nat)
    requires Trace(states, es) && k <= |es|
    ensures Exclusive(states[k])
    ensures forall i, j :: Holds(states[k], i) && Holds(states[k], j) && i != j ==>
              states[k].workers[i].port != states[k].workers[j].port
              && (states[k].workers[i].gpu.Some? ==> states[k].workers[i].gpu != states[k].workers[j].gpu)
  {
    if k > 0 {
      RunIsExclusive(states, es, k - 1);
      ApplyKeepsExclusive(states[k - 1], es[k - 1]);
    }
  }

  lemma {:induction false} NoLossKeepsPorts(states: seq<State>, es: seq<Event>, k: nat)
    requires Trace(states, es) && k <= |es| && forall j :: 0 <= j < k ==> !LosesPort(states[j], es[j])
    ensures NoPortMissing(states[k])
  {
    if k > 0 {
      NoLossKeepsPorts(states, es, k - 1);
      RunIsExclusive(states, es, k - 1);
      ApplyKeepsPortsExactly(states[k - 1], es[k - 1]);
    }
  }

  /** Up to any point of such a run every port of the pool is available or held
      exactly if no start was rejected for its GPU after taking one. */
  lemma RunKeepsPortsExactly(states: seq<State>, es: seq<Event>, k: nat)
    requires Trace(states, es) && k <= |es|
    ensures (forall j :: 0 <= j <= k ==> NoPortMissing(states[j]))
            <==> (forall j :: 0 <= j < k ==> !LosesPort(states[j], es[j]))
  {
    if j: nat :| j < k && LosesPort(states[j], es[j]) {
      RunIsExclusive(states, es, j);
      LostPortIsMissing(states[j], es[j]);
      assert !NoPortMissing(states[j + 1]);
    } else {
      forall j: nat | j <= k ensures NoPortMissing(states[j]) { NoLossKeepsPorts(states, es, j); }
    }
  }

  predicate InPool(s: State) {
    && (forall p :: p in s.ports ==> 8001 <= p < 8100)
    && (forall id :: id in s.workers ==> 8001 <= s.workers[id].port < 8100)
  }

  /** Over every run in which no start asks for a port, all ports are from 8001 to
      8099. */
  lemma {:induction false} RunStaysInPool(states: seq<State>, es: seq<Event>, k: nat)
    requires Trace(states, es) && k <= |es|
    requires forall j :: 0 <= j < k && es[j].Start? ==> es[j].request.port.None?
    ensures InPool(states[k])
  {
    if k > 0 {
      RunStaysInPool(states, es, k - 1);
      assert Enabled(states[k - 1], es[k - 1]);
    }
  }

  /** Such a run: two starts ask for one GPU, and the second loses port 8002. */
  lemma SharedGpuLosesPort(a: string, b: string, gpu: int) returns (states: seq<State>, es: seq<Event>)
    requires a != b
    ensures Trace(states, es) && |es| == 2 && NoPortMissing(states[1])
    ensures 8002 !in states[2].ports && !PortHeld(states[2], 8002) && !NoPortMissing(states[2])
  {
    var first, second := Start(Request(a, None, Some(gpu), 8001, true)), Start(Request(b, None, Some(gpu), 8002, true));
    var s0 := Initial();
    var s1 := Apply(s0, first);
    var s2 := Apply(s1, second);
    states, es := [s0, s1, s2], [first, second];
    assert Trace(states, es);
    RunIsExclusive(states, es, 0);
    RunIsExclusive(states, es, 1);
    ApplyKeepsPortsExactly(s0, first);
    ApplyKeepsPortsExactly(s1, second);
    assert forall id :: HoldsPort(s2, id, 8002) ==> HoldsPort(s1, id, 8002);
  }

  /** The event gives back the port and GPU of `id`. */
  predicate Releases(e: Event, id: string) {
    e.StopEnd? && e.id == id && e.exits
  }

  function ReleaseCount(es: seq<Event>, id: string): nat {
    if es == [] then 0
    else ReleaseCount(es[..|es| - 1], id) + if Releases(es[|es| - 1], id) then 1 else 0
  }

  /** A worker gives its resources back at most once in a run: when it stops. */
  lemma {:induction false} ReleasedAtMostOnce(states: seq<State>, es: seq<Event>, id: string)
    requires Trace(states, es)
    ensures var last := states[|es|];
            ReleaseCount(es, id) == if id in last.workers && last.workers[id].life.Stopped? then 1 else 0
  {
    if es != [] {
      var n := |es| - 1;
      assert Trace(states[..|states| - 1], es[..n]);
      ReleasedAtMostOnce(states[..|states| - 1], es[..n], id);
      assert states[|es|] == Apply(states[n], es[n]);
    }
  }

  /** A start that fails and whose cleanup brings the process down leaves ports
      and GPUs as they were; a port that was not in the pool ends up in it. */
  lemma FailedStartReturnsResources(s: State, r: Request)
    requires Exclusive(s) && Possible(s, r) && (Launch(s, r).1.Launched? || Launch(s, r).1.SpawnFailed?)
    ensures var s' := StartWhole(s, r, false, true);
            && s'.ports == s.ports + {PortOf(r)} && s'.gpus == s.gpus
            && (r.port.None? ==> s'.ports == s.ports)
            && s'.workers.Keys == s.workers.Keys + {r.id}
  {
    var s' := StartWhole(s, r, false, true);
    PutBack(s.ports, PortOf(r));
    assert s'.ports == s.ports - {PortOf(r)} + {PortOf(r)};
    if r.gpu.Some? { TakenOut(s.gpus, r.gpu.value, r.id); }
  }

  lemma PutBack(ports: set<int>, p: int)
    ensures ports - {p} + {p} == ports + {p}
  {
  }

  lemma TakenOut(gpus: map<int, string>, g: int, id: string)
    requires g !in gpus
    ensures gpus[g := id] - {g} == gpus
  {
  }

  /** A whole call of the stop method. */
  function StopWhole(s: State, id: string, exits: bool): State {
    if CanStop(s, id) then StopEnded(StopBegun(s, id), id, exits) else s
  }

  /** A whole call of the start method, with its cleanup. */
  function StartWhole(s: State, r: Request, becomesHealthy: bool, exits: bool): State {
    var (s', l) := Launch(s, r);
    if l.Launched? && becomesHealthy then
      s'.(workers := s'.workers[r.id := s'.workers[r.id].(healthy := true, failures := 0)])
    else if l.Launched? || l.SpawnFailed? then StopWhole(s', r.id, exits)
    else s'
  }

  /** A whole call is a launch followed by the worker becoming healthy, or by the
      two halves of a stop. */
  lemma StartIsItsSteps(s: State, r: Request, exits: bool)
    requires Possible(s, r) && Launch(s, r).1.Launched?
    ensures var launched := Apply(s, Start(r));
            && Enabled(launched, BecomeHealthy(r.id)) && Enabled(launched, StopBegin(r.id))
            && StartWhole(s, r, true, exits) == Apply(launched, BecomeHealthy(r.id))
            && var stopping := Apply(launched, StopBegin(r.id));
               && Enabled(stopping, StopEnd(r.id, exits))
               && StartWhole(s, r, false, exits) == Apply(stopping, StopEnd(r.id, exits))
  {
  }

  /** Stopping a worker that started cleanly gives everything back: ports and GPUs
      are as before the start. */
  lemma StopUndoesStart(s: State, r: Request)
    requires Exclusive(s) && Possible(s, r) && PortOf(r) in s.ports && Launch(s, r).1.Launched?
    ensures var t := StopWhole(StartWhole(s, r, true, true), r.id, true);
            t.ports == s.ports && t.gpus == s.gpus && t.workers[r.id].life.Stopped?
  {
    PutBack(s.ports, PortOf(r));
    if r.gpu.Some? { TakenOut(s.gpus, r.gpu.value, r.id); }
  }

  /** What a stop does: nothing to a worker that is stopped or being stopped;
      otherwise the worker is stopped and gives back its port and GPU, or, if its
      process does not exit, has failed and keeps them. */
  lemma StopDecides(s: State, id: string, exits: bool)
    ensures var s' := StopWhole(s, id, exits);
            if id !in s.workers || s.workers[id].life.Stopped? || s.workers[id].life.Stopping? then s' == s
            else
              var p := s.workers[id];
              && s'.workers[id] == p.(life := if exits then Stopped else Failed, healthy := !exits && p.healthy)
              && s'.ports == (if exits then s.ports + {p.port} else s.ports)
              && s'.gpus.Keys == (if exits && p.gpu.Some? then s.gpus.Keys - {p.gpu.value} else s.gpus.Keys)
              && s'.workers.Keys == s.workers.Keys && forall i :: i in s.workers && i != id ==> s'.workers[i] == s.workers[i]
  {
  }

  /** What the call reports: anything but `Launched` is raised. */
  function StartOutcome(s: State, r: Request, becomesHealthy: bool): Launched {
    var l := Launch(s, r).1;
    if l.Launched? && !becomesHealthy then NeverHealthy else l
  }

  /** The call returns exactly if the worker is new, runs and is healthy after it;
      whatever it raises, it leaves no new worker that is running. */
  lemma StartReturnsExactly(s: State, r: Request, becomesHealthy: bool, exits: bool)
    ensures var s', o := StartWhole(s, r, becomesHealthy, exits), StartOutcome(s, r, becomesHealthy);
            && (o.Launched? <==> r.id !in s.workers && r.id in s'.workers
                                 && s'.workers[r.id].life.Running? && s'.workers[r.id].healthy)
            && (r.id !in s.workers && r.id in s'.workers ==>
                  var p := s'.workers[r.id];
                  && p.restarts == 0 && p.failures == 0 && p.gpu == r.gpu
                  && p.port == if r.port.Some? then r.port.value else r.chosen)
            && (o.AlreadyExists? <==> r.id in s.workers)
            && (r.id !in s.workers && r.id in Launch(s, r).0.workers ==>
                  var p := Launch(s, r).0.workers[r.id]; !p.healthy && p.life == if r.spawns then Running else Failed)
            && (!o.Launched? && r.id !in s.workers && r.id in s'.workers ==>
                  s'.workers[r.id].life == if exits then Stopped else Failed)
            && (o.AlreadyExists? || o.NoPorts? ==> s' == s)
            && (forall id :: id in s.workers ==> id in s'.workers && s'.workers[id] == s.workers[id])
  {
  }

  // ---------------------------------------------------------------- restarts

  datatype Policy = Policy(autoRestart: bool, maxRestarts: int)

  /** What the environment answers a health check with, and how a restart that
      the check triggers turns out. */
  datatype Reply = Reply(healthy: bool, exits: bool, spawns: bool)

  /** The new process after a restart, whatever became of the old one. */
  function Respawned(p: Proc, spawns: bool): Proc {
    var q := p.(restarts := p.restarts + 1);
    if spawns then q.(life := Running, failures := 0)
    else q.(life := Failed, failures := q.failures + 1)
  }

  /** Stop, then start again: the resources released by the stop are not taken
      back. */
  function Restarted(s: State, id: string, exits: bool, spawns: bool): State
    requires id in s.workers
  {
    var stopped := StopWhole(s, id, exits);
    stopped.(workers := stopped.workers[id := Respawned(stopped.workers[id], spawns)])
  }

  /** A clean restart leaves a running worker whose port is available to others
      and whose GPU is listed for nobody. */
  lemma RestartGivesUpResources(s: State, id: string)
    requires Exclusive(s) && id in s.workers && s.workers[id].life.Running?
    ensures var s' := Restarted(s, id, true, true);
            && s'.workers[id].life.Running? && s'.workers[id].port in s'.ports
            && (s.workers[id].gpu.Some? ==> s.workers[id].gpu.value !in s'.gpus)
            && !Exclusive(s')
            && forall r: Request :: r.id !in s.workers && r.port.None? && r.gpu.None? && r.chosen == s.workers[id].port ==>
                 Possible(s', r) && Launch(s', r).0.workers[r.id].port == Launch(s', r).0.workers[id].port
  {
    var s' := Restarted(s, id, true, true);
    assert Holds(s', id);
  }

  /** A restart is counted whatever becomes of it; with a new process the failures
      start over, without one they go on. Port and GPU are still the worker's. */
  lemma RestartCounts(s: State, id: string, exits: bool, spawns: bool)
    requires id in s.workers
    ensures var p, p' := s.workers[id], Restarted(s, id, exits, spawns).workers[id];
            && p'.restarts == p.restarts + 1 && p'.port == p.port && p'.gpu == p.gpu
            && (if spawns then p'.life.Running? && p'.failures == 0 else p'.life.Failed? && p'.failures == p.failures + 1)
  {
  }

  function WithRecord(s: State, id: string, p: Proc): State {
    s.(workers := s.workers[id := p])
  }

  lemma StillHeld(s: State, id: string, q: Proc)
    requires Exclusive(s) && Holds(s, id) && !q.life.Stopped?
    requires q.port == s.workers[id].port && q.gpu == s.workers[id].gpu
    ensures Exclusive(WithRecord(s, id, q))
  {
    assert forall i :: Holds(WithRecord(s, id, q), i) <==> Holds(s, i);
  }

  lemma ListedForHolder(s: State, id: string, g: int)
    requires Exclusive(s) && !Holds(s, id)
    ensures !(g in s.gpus && s.gpus[g] == id)
  {
    assert g in s.gpus ==> Holds(s, s.gpus[g]);
  }

  /** A stopped worker that runs again takes nothing back. */
  lemma HeldAgain(s: State, id: string, q: Proc)
    requires Exclusive(s) && id in s.workers && !Holds(s, id) && !q.life.Stopped?
    ensures Exclusive(WithRecord(s, id, q)) <==> q.port !in s.ports && !PortHeld(s, q.port) && q.gpu.None?
  {
    var s' := WithRecord(s, id, q);
    assert forall i :: Holds(s', i) <==> i == id || Holds(s, i);
    if i :| HoldsPort(s, i, q.port) {
      assert Holds(s', i) && Holds(s', id) && s'.workers[i].port == s'.workers[id].port;
    } else if q.port !in s.ports && q.gpu.None? {
      forall i | Holds(s, i) ensures s.workers[i].port != q.port { assert !HoldsPort(s, i, q.port); }
      assert Exclusive(s');
    } else {
      assert Holds(s', id) && s'.workers[id] == q;
      if q.gpu.Some? { ListedForHolder(s, id, q.gpu.value); }
    }
  }

  /** A restart keeps ports and GPUs exclusive exactly if it runs no worker
      without its resources: for a worker that holds them, unless the stop went
      through; for a stopped one, if its old port is neither available nor held
      and it had no GPU. */
  lemma RestartKeepsExclusiveExactly(s: State, id: string, exits: bool, spawns: bool)
    requires Exclusive(s) && id in s.workers
    ensures var p := s.workers[id];
            Exclusive(Restarted(s, id, exits, spawns)) <==>
              if Holds(s, id) then !(CanStop(s, id) && exits)
              else p.port !in s.ports && !PortHeld(s, p.port) && p.gpu.None?
  {
    var stopped := StopWhole(s, id, exits);
    var q := Respawned(stopped.workers[id], spawns);
    assert Restarted(s, id, exits, spawns) == WithRecord(stopped, id, q);
    if !Holds(s, id) {
      HeldAgain(s, id, q);
    } else if CanStop(s, id) && exits {
      assert Holds(WithRecord(stopped, id, q), id) && q.port in stopped.ports;
    } else {
      StoppingKeepsExclusive(s, id);
      StillHeld(stopped, id, q);
    }
  }

  lemma StoppingKeepsExclusive(s: State, id: string)
    requires Exclusive(s) && Holds(s, id)
    ensures Exclusive(StopWhole(s, id, false)) && Holds(StopWhole(s, id, false), id)
    ensures !CanStop(s, id) ==> forall exits :: StopWhole(s, id, exits) == s
  {
    if CanStop(s, id) {
      StopBegunKeepsExclusive(s, id);
      StopEndedKeepsExclusive(StopBegun(s, id), id, false);
    }
  }

  predicate WantsRestart(p: Proc, policy: Policy) {
    policy.autoRestart && p.failures >= 3 && p.restarts < policy.maxRestarts
  }

  /** The counters after an unhealthy reply, before any restart. */
  function Unhealthy(p: Proc): Proc {
    p.(healthy := false, failures := p.failures + 1)
  }

  /** One health check of one worker. */
  function Checked(s: State, id: string, policy: Policy, reply: Reply): State
    requires id in s.workers
  {
    var p := s.workers[id];
    if !p.life.Running? then s
    else if reply.healthy then s.(workers := s.workers[id := p.(healthy := true, failures := 0)])
    else
      var q := Unhealthy(p);
      var s' := s.(workers := s.workers[id := q]);
      if WantsRestart(q, policy) then Restarted(s', id, reply.exits, reply.spawns)
      else if q.restarts >= policy.maxRestarts then s.(workers := s.workers[id := q.(life := Failed)])
      else s'
  }

  function CheckedMany(s: State, id: string, policy: Policy, replies: seq<Reply>): (r: State)
    requires id in s.workers
    ensures id in r.workers
  {
    if replies == [] then s
    else Checked(CheckedMany(s, id, policy, replies[..|replies| - 1]), id, policy, replies[|replies| - 1])
  }

  lemma CheckKeepsBound(s: State, id: string, policy: Policy, reply: Reply)
    requires id in s.workers && s.workers[id].restarts <= policy.maxRestarts
    ensures Checked(s, id, policy, reply).workers[id].restarts <= policy.maxRestarts
  {
  }

  /** No sequence of health checks takes a worker past the limit on restarts. */
  lemma {:induction false} RestartsAreBounded(s: State, id: string, policy: Policy, replies: seq<Reply>)
    requires id in s.workers && s.workers[id].restarts <= policy.maxRestarts
    ensures CheckedMany(s, id, policy, replies).workers[id].restarts <= policy.maxRestarts
  {
    if replies != [] {
      var before := replies[..|replies| - 1];
      RestartsAreBounded(s, id, policy, before);
      CheckKeepsBound(CheckedMany(s, id, policy, before), id, policy, replies[|replies| - 1]);
    }
  }

  /** Health checks in a row that a running worker survives at most by failing. */
  function Remaining(p: Proc, policy: Policy): int {
    if !p.life.Running? then 0
    else if p.restarts >= policy.maxRestarts then 1
    else 3 * (policy.maxRestarts - p.restarts) - p.failures + 1
  }

  predicate Countable(p: Proc, policy: Policy) {
    p.life.Running? ==> 0 <= p.failures && (p.restarts < policy.maxRestarts ==> p.failures < 3)
  }

  /** A failed check, with restarts that spawn, uses up exactly one; a healthy
      one gives back the failures so far, if a restart is left. */
  lemma CheckCountsDown(s: State, id: string, policy: Policy, reply: Reply)
    requires id in s.workers && policy.autoRestart && Countable(s.workers[id], policy)
    requires s.workers[id].life.Running? && (!reply.healthy ==> reply.spawns)
    ensures var p, p' := s.workers[id], Checked(s, id, policy, reply).workers[id];
            && Countable(p', policy)
            && (p'.life.Running? || p'.life.Failed?)
            && (!reply.healthy ==> Remaining(p', policy) == Remaining(p, policy) - 1)
            && (!reply.healthy ==> (p'.life.Failed? <==> Remaining(p', policy) == 0))
            && (reply.healthy ==> Remaining(p', policy)
                                  == Remaining(p, policy) + if p.restarts < policy.maxRestarts then p.failures else 0)
            && (p'.healthy <==> reply.healthy)
            && p'.restarts == p.restarts + (if !reply.healthy && p.failures >= 2 && p.restarts < policy.maxRestarts then 1 else 0)
  {
  }

  /** A running worker whose every check fails, with restarts that spawn, is
      FAILED after exactly as many checks as remain, and not before. */
  lemma {:induction false} FailsExactly(s: State, id: string, policy: Policy, replies: seq<Reply>)
    requires id in s.workers && policy.autoRestart && Countable(s.workers[id], policy) && s.workers[id].life.Running?
    requires forall i :: 0 <= i < |replies| ==> !replies[i].healthy && replies[i].spawns
    ensures var p := CheckedMany(s, id, policy, replies).workers[id];
            && Countable(p, policy)
            && (if |replies| < Remaining(s.workers[id], policy)
                then p.life.Running? && Remaining(p, policy) == Remaining(s.workers[id], policy) - |replies|
                else p.life.Failed?)
  {
    if replies != [] {
      var before := replies[..|replies| - 1];
      FailsExactly(s, id, policy, before);
      var s' := CheckedMany(s, id, policy, before);
      if s'.workers[id].life.Running? { CheckCountsDown(s', id, policy, replies[|replies| - 1]); }
    }
  }

  /** For a worker just started that is 3 * maxRestarts + 1 checks. */
  lemma NewWorkerFailsAfter(s: State, id: string, policy: Policy, replies: seq<Reply>)
    requires id in s.workers && policy.autoRestart && policy.maxRestarts >= 0
    requires var p := s.workers[id]; p.life.Running? && p.restarts == 0 && p.failures == 0
    requires forall i :: 0 <= i < |replies| ==> !replies[i].healthy && replies[i].spawns
    ensures CheckedMany(s, id, policy, replies).workers[id].life.Failed? <==> |replies| >= 3 * policy.maxRestarts + 1
  {
    FailsExactly(s, id, policy, replies);
  }

  /** Without auto-restart a check fails a worker at once if its restarts are
      used up, and otherwise never does. */
  lemma {:induction false} WithoutAutoRestart(s: State, id: string, policy: Policy, replies: seq<Reply>)
    requires id in s.workers && !policy.autoRestart && s.workers[id].life.Running?
    ensures var p := CheckedMany(s, id, policy, replies).workers[id];
            && p.restarts == s.workers[id].restarts && (p.life.Running? || p.life.Failed?)
            && (p.life.Failed? <==> s.workers[id].restarts >= policy.maxRestarts
                                    && exists i :: 0 <= i < |replies| && !replies[i].healthy)
  {
    if replies != [] { WithoutAutoRestart(s, id, policy, replies[..|replies| - 1]); }
  }
}
