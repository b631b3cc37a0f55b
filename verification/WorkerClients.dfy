/** The client pool: a dictionary of connections and a set of healthy workers,
    updated in place, with the retry loop. */
module WorkerClients {
  import opened ClientPool

  datatype SendResult = Response | Failed | UnknownWorker

  class WorkerClientPool {
    const maxRetries: int
    var workers: map<string, Conn>
    var healthyWorkers: set<string>

    constructor (maxRetries: int := 2)
      ensures Value() == State(map[], {}) && this.maxRetries == maxRetries
    {
      this.maxRetries := maxRetries;
      workers, healthyWorkers := map[], {};
    }

    function Value(): State
      reads this
    {
      State(workers, healthyWorkers)
    }

    method AddWorker(id: string)
      modifies this`workers
      ensures Value() == Apply(old(Value()), Add(id))
    {
      workers := workers[id := NEW_CONN];
    }

    method RemoveWorker(id: string)
      modifies this
      ensures Value() == Apply(old(Value()), Remove(id))
    {
      if id in workers {
        workers := workers - {id};
        healthyWorkers := healthyWorkers - {id};
      }
    }

    /** Attempts in turn until one delivers; `replies` holds an answer for each. */
    method SendInferenceRequest(id: string, replies: seq<Reply>) returns (result: SendResult)
      requires |replies| == if maxRetries >= 0 then maxRetries + 1 else 0
      modifies this
      ensures Value() == Apply(old(Value()), Send(id, replies))
      ensures result == if id !in old(workers) then UnknownWorker else if Delivered(replies) then Response else Failed
    {
      if id !in workers { return UnknownWorker; }
      ghost var was := Value();
      SameEntry(was, id);
      for attempt := 0 to |replies|
        invariant id in workers && Value() == WithEntry(was, id, EntryOf(Value(), id))
        invariant Sent(EntryOf(was, id), replies) == Sent(EntryOf(Value(), id), replies[attempt..])
        invariant forall i :: 0 <= i < attempt ==> !replies[i].Accepted?
      {
        assert replies[attempt..][0] == replies[attempt] && replies[attempt..][1..] == replies[attempt + 1..];
        TwiceEntry(was, id, EntryOf(Value(), id), Attempted(EntryOf(Value(), id), replies[attempt]));
        Attempt(id, replies[attempt]);
        if replies[attempt].Accepted? { return Response; }
      }
      TwiceEntry(was, id, EntryOf(Value(), id), Strike(EntryOf(Value(), id)));
      CountFailure(id);
      result := Failed;
    }

    /** One attempt and what its outcome does to the counters. */
    method Attempt(id: string, reply: Reply)
      requires id in workers
      modifies this
      ensures Value() == WithEntry(old(Value()), id, Attempted(EntryOf(old(Value()), id), reply))
    {
      ghost var e := EntryOf(Value(), id);
      SameEntry(Value(), id);
      match reply {
        case Accepted(ms) =>
          UpdateMetrics(id, true, ms);
        case Malformed(ms) =>
          UpdateMetrics(id, true, ms);
          UpdateMetrics(id, false, ms);
        case Overloaded(ms) =>
          CountFailure(id);
          UpdateMetrics(id, false, ms);
        case Refused(ms) =>
          UpdateMetrics(id, false, ms);
      }
    }

    /** One more failure in a row, ejecting the worker at the third. */
    method CountFailure(id: string)
      requires id in workers
      modifies this
      ensures Value() == WithEntry(old(Value()), id, Strike(EntryOf(old(Value()), id)))
    {
      workers := workers[id := workers[id].(failures := workers[id].failures + 1)];
      if workers[id].failures >= EJECT_AT {
        workers := workers[id := workers[id].(status := Unhealthy)];
        healthyWorkers := healthyWorkers - {id};
      } else {
        assert healthyWorkers == if id in healthyWorkers then healthyWorkers + {id} else healthyWorkers - {id};
      }
    }

    method UpdateMetrics(id: string, success: bool, ms: real)
      requires id in workers
      modifies this`workers
      ensures workers == old(workers)[id := if success then Succeeded(old(workers)[id], ms) else Missed(old(workers)[id])]
    {
      var c := workers[id];
      c := c.(totalRequests := c.totalRequests + 1);
      if success {
        c := c.(successfulRequests := c.successfulRequests + 1, failures := 0, times := c.times + [ms]);
        if c.average == 0.0 {
          c := c.(average := ms);
        } else {
          c := c.(average := 0.9 * c.average + 0.1 * ms);
        }
      } else {
        c := c.(failures := c.failures + 1);
      }
      workers := workers[id := c];
    }

    method CheckWorkerHealth(id: string, health: Health)
      requires id in workers
      modifies this
      ensures Value() == Apply(old(Value()), Check(id, health))
    {
      match health {
        case Well =>
          workers := workers[id := workers[id].(status := Healthy, failures := 0)];
          healthyWorkers := healthyWorkers + {id};
        case Ill =>
          workers := workers[id := workers[id].(status := Unhealthy)];
          healthyWorkers := healthyWorkers - {id};
        case NoAnswer =>
          workers := workers[id := workers[id].(status := Unhealthy, failures := workers[id].failures + 1)];
          healthyWorkers := healthyWorkers - {id};
      }
    }
  }

  lemma SameEntry(s: State, id: string)
    requires id in s.workers
    ensures WithEntry(s, id, EntryOf(s, id)) == s
  {
    assert s.healthy == if id in s.healthy then s.healthy + {id} else s.healthy - {id};
  }

  lemma TwiceEntry(s: State, id: string, e: Entry, f: Entry)
    ensures WithEntry(WithEntry(s, id, e), id, f) == WithEntry(s, id, f)
    ensures EntryOf(WithEntry(s, id, e), id) == e
  {
  }
}
