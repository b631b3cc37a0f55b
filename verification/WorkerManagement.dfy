/** The worker manager: dictionaries of process records, free ports and GPUs
    updated in place, proved against the steps of `WorkerLifecycle`. */
module WorkerManagement {
  import opened WorkerLifecycle

  class WorkerManager {
    const policy: Policy
    var workers: map<string, Proc>
    var availablePorts: set<int>
    var allocatedGpus: map<int, string>

    constructor (policy: Policy)
      ensures Value() == Initial() && this.policy == policy
    {
      this.policy := policy;
      workers, availablePorts, allocatedGpus := map[], PORT_POOL, map[];
    }

    ghost function Value(): State
      reads this
    {
      State(workers, availablePorts, allocatedGpus)
    }

    /** Creates the subprocess; `spawns` tells whether that works. */
    method StartWorkerProcess(id: string, spawns: bool)
      requires id in workers
      modifies this`workers
      ensures workers == old(workers)[id :=
        old(workers)[id].(life := if spawns then Running else Failed)]
    {
      workers := workers[id := workers[id].(life := Starting)];
      if spawns {
        workers := workers[id := workers[id].(life := Running)];
      } else {
        workers := workers[id := workers[id].(life := Failed)];
      }
    }

    /** Takes a port and a GPU, starts the process and waits for it; cleans up if
        that fails. */
    method StartWorker(r: Request, becomesHealthy: bool, exits: bool) returns (outcome: Launched)
      requires Possible(Value(), r)
      modifies this
      ensures Value() == StartWhole(old(Value()), r, becomesHealthy, exits)
      ensures outcome == StartOutcome(old(Value()), r, becomesHealthy)
    {
      if r.id in workers { return AlreadyExists; }
      if r.port.None? && availablePorts == {} { return NoPorts; }
      var port := PortOf(r);
      if r.gpu.Some? && r.gpu.value in allocatedGpus {
        availablePorts := availablePorts - {port};
        return GpuTaken;
      }
      availablePorts := availablePorts - {port};
      workers := workers[r.id := Proc(port, r.gpu, Stopped, 0, 0, false)];
      if r.gpu.Some? { allocatedGpus := allocatedGpus[r.gpu.value := r.id]; }
      StartWorkerProcess(r.id, r.spawns);
      assert workers == old(workers)[r.id := workers[r.id]];
      if r.spawns && becomesHealthy {
        workers := workers[r.id := workers[r.id].(healthy := true, failures := 0)];
        return Launched;
      }
      StopWorker(r.id, exits);
      outcome := if r.spawns then NeverHealthy else SpawnFailed;
    }

    method StopWorker(id: string, exits: bool)
      modifies this`workers, this`availablePorts, this`allocatedGpus
      ensures Value() == StopWhole(old(Value()), id, exits)
    {
      if id !in workers { return; }
      if workers[id].life == Stopped || workers[id].life == Stopping { return; }
      workers := workers[id := workers[id].(life := Stopping)];
      if !exits {
        workers := workers[id := workers[id].(life := Failed)];
        return;
      }
      workers := workers[id := workers[id].(life := Stopped, healthy := false)];
      availablePorts := availablePorts + {workers[id].port};
      var gpu := workers[id].gpu;
      if gpu.Some? {
        assert gpu.value !in allocatedGpus ==> allocatedGpus - {gpu.value} == allocatedGpus;
        if gpu.value in allocatedGpus { allocatedGpus := allocatedGpus - {gpu.value}; }
      }
    }

    /** Raises for an unknown worker. */
    method RestartWorker(id: string, exits: bool, spawns: bool) returns (raised: bool)
      modifies this`workers, this`availablePorts, this`allocatedGpus
      ensures raised <==> id !in old(workers)
      ensures Value() == if raised then old(Value()) else Restarted(old(Value()), id, exits, spawns)
    {
      if id !in workers { return true; }
      StopWorker(id, exits);
      ghost var stopped, p := workers, workers[id];
      workers := workers[id := workers[id].(restarts := workers[id].restarts + 1)];
      StartWorkerProcess(id, spawns);
      if spawns {
        workers := workers[id := workers[id].(failures := 0)];
      } else {
        workers := workers[id := workers[id].(failures := workers[id].failures + 1, life := Failed)];
      }
      assert workers[id] == Respawned(p, spawns);
      assert workers == stopped[id := workers[id]];
      raised := false;
    }

    /** One worker's turn in the health monitor. */
    method CheckWorkerHealth(id: string, reply: Reply)
      requires id in workers
      modifies this`workers, this`availablePorts, this`allocatedGpus
      ensures Value() == Checked(old(Value()), id, policy, reply)
    {
      if workers[id].life != Running { return; }
      if reply.healthy {
        workers := workers[id := workers[id].(healthy := true, failures := 0)];
        return;
      }
      workers := workers[id := workers[id].(healthy := false, failures := workers[id].failures + 1)];
      var p := workers[id];
      if policy.autoRestart && p.failures >= 3 && p.restarts < policy.maxRestarts {
        var _ := RestartWorker(id, reply.exits, reply.spawns);
      } else if p.restarts >= policy.maxRestarts {
        workers := workers[id := workers[id].(life := Failed)];
      }
    }

    /** One round over the workers, in dictionary order `order`. */
    method CheckAllWorkersHealth(order: seq<string>, replies: map<string, Reply>)
      requires forall id :: id in order ==> id in workers && id in replies
      modifies this`workers, this`availablePorts, this`allocatedGpus
      ensures Value() == CheckedRound(old(Value()), order, policy, replies)
    {
      for i := 0 to |order|
        invariant Value() == CheckedRound(old(Value()), order[..i], policy, replies)
      {
        assert order[..i + 1][..i] == order[..i];
        CheckWorkerHealth(order[i], replies[order[i]]);
      }
      assert order[..|order|] == order;
    }
  }

  function CheckedRound(s: State, order: seq<string>, policy: Policy, replies: map<string, Reply>): (r: State)
    requires forall id :: id in order ==> id in s.workers && id in replies
    ensures r.workers.Keys == s.workers.Keys
  {
    if order == [] then s
    else
      var id := order[|order| - 1];
      Checked(CheckedRound(s, order[..|order| - 1], policy, replies), id, policy, replies[id])
  }

  predicate WithinLimit(s: State, policy: Policy) {
    forall id :: id in s.workers ==> s.workers[id].restarts <= policy.maxRestarts
  }

  /** A round of checks takes no worker past the limit on restarts and touches
      no worker that is not in it. */
  lemma {:induction false} RoundKeepsBound(s: State, order: seq<string>, policy: Policy, replies: map<string, Reply>)
    requires forall id :: id in order ==> id in s.workers && id in replies
    requires WithinLimit(s, policy)
    ensures var r := CheckedRound(s, order, policy, replies);
            && WithinLimit(r, policy)
            && (forall id :: id in s.workers && id !in order ==> r.workers[id] == s.workers[id])
  {
    if order != [] {
      var front, last := order[..|order| - 1], order[|order| - 1];
      assert order == front + [last] && last in order;
      RoundKeepsBound(s, front, policy, replies);
      var mid := CheckedRound(s, front, policy, replies);
      OthersUnchecked(mid, last, policy, replies[last]);
      CheckKeepsBound(mid, last, policy, replies[last]);
    }
  }

  lemma OthersUnchecked(s: State, id: string, policy: Policy, reply: Reply)
    requires id in s.workers
    ensures var r := Checked(s, id, policy, reply);
            r.workers.Keys == s.workers.Keys && forall i :: i in s.workers && i != id ==> r.workers[i] == s.workers[i]
  {
  }
}
