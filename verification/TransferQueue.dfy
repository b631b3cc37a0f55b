/** The transfer queue: several workers drain one queue, step by step, in any
    interleaving. */
module TransferQueue {
  import opened TextKeys

  datatype Request = Request(hash: string, source: string, target: string, priority: int)

  /** The name under which a transfer is listed as active. */
  function Key(r: Request): string {
    r.source + ":" + r.target + ":" + r.hash
  }

  /** Between workers without a colon in their names, only requests for the same
      prefix, source and target share a listing. */
  lemma KeyTellsApart(r: Request, q: Request)
    requires ':' !in r.source && ':' !in r.target && ':' !in q.source && ':' !in q.target
    ensures Key(r) == Key(q) <==> r.source == q.source && r.target == q.target && r.hash == q.hash
  {
    if Key(r) == Key(q) {
      assert Key(r) == r.source + ":" + (r.target + ":" + r.hash) && Key(q) == q.source + ":" + (q.target + ":" + q.hash);
      FirstColon(r.source, r.target + ":" + r.hash, q.source, q.target + ":" + q.hash);
      FirstColon(r.target, r.hash, q.target, q.hash);
    }
  }

  /** With one, requests between other workers can share it too. */
  lemma ColonsConfuseKeys(a: string, b: string, c: string, hash: string)
    ensures Key(Request(hash, a + ":" + b, c, 0)) == Key(Request(hash, a, b + ":" + c, 0))
  {
    assert a + ":" + b + ":" + c == a + ":" + (b + ":" + c);
  }

  datatype Worker = Idle | Busy(request: Request) | Gone

  datatype Outcome = Success(bytes: nat) | Failure | Cancelled

  /** Workers are known by their place in `workers`, in the order in which they
      were created. `tracked` is the service's list of tasks, `doomed` those that
      will find themselves cancelled, and `stops` the stops that still wait, each
      for its tasks. The service itself keeps no `history`. */
  datatype State = State(
    queue: seq<Request>,
    active: map<string, Request>,
    total: nat, successful: nat, failed: nat, bytes: nat,
    urls: set<string>, running: bool, workers: seq<Worker>,
    tracked: set<nat>, doomed: set<nat>, stops: seq<set<nat>>,
    history: History)

  datatype History = History(submitted: seq<Request>, begun: seq<Request>, finished: seq<Request>, cancelled: nat)

  const NO_HISTORY := History([], [], [], 0)

  function Initial(): State {
    State([], map[], 0, 0, 0, 0, {}, false, [], {}, {}, [], NO_HISTORY)
  }

  datatype Step =
    | RegisterWorker(id: string)
    | DeregisterWorker(id: string)
    | Start(workers: nat)
    | Stop
    | StopDone(j: nat)
    | Submit(request: Request)
    | Begin(i: nat)
    | Finish(i: nat, outcome: Outcome)
    | Leave(i: nat)

  // ------------------------------------------------------------ the steps

  predicate CanSubmit(s: State, r: Request) {
    r.source in s.urls && r.target in s.urls
  }

  predicate AllGone(workers: seq<Worker>) {
    forall i :: 0 <= i < |workers| ==> workers[i].Gone?
  }

  /** A worker of a stopped service waits for requests only if the service has
      lost track of it; a task is cancelled only by a stop; and a stop is over
      when the tasks it waits for are. */
  predicate Enabled(s: State, step: Step) {
    match step
    case StopDone(j) => j < |s.stops| && forall i :: i in s.stops[j] ==> i < |s.workers| && s.workers[i].Gone?
    case Begin(i) =>
      i < |s.workers| && s.workers[i].Idle? && i !in s.doomed && s.queue != [] && (s.running || i !in s.tracked)
    case Finish(i, o) => i < |s.workers| && s.workers[i].Busy? && (o.Cancelled? ==> i in s.doomed)
    case Leave(i) => i < |s.workers| && s.workers[i].Idle? && (!s.running || i in s.doomed)
    case _ => true
  }

  /** The removal from the active list at the end of a transfer raises. */
  predicate RemovalRaises(s: State, r: Request) {
    Key(r) !in s.active
  }

  function Ended(h: History, r: Request, o: Outcome): History {
    h.(finished := h.finished + [r], cancelled := if o.Cancelled? then h.cancelled + 1 else h.cancelled)
  }

  /** What becomes of a worker after a transfer. A removal that raises replaces a
      cancellation, and the worker goes on. */
  function NextWorker(s: State, r: Request, o: Outcome): Worker {
    if RemovalRaises(s, r) then Idle else if o.Cancelled? || !s.running then Gone else Idle
  }

  function Finished(s: State, i: nat, o: Outcome): State
    requires i < |s.workers| && s.workers[i].Busy?
  {
    var r := s.workers[i].request;
    Counted(s, o).(
      active := s.active - {Key(r)},
      workers := s.workers[i := NextWorker(s, r, o)],
      doomed := if o.Cancelled? then s.doomed - {i} else s.doomed,
      history := Ended(s.history, r, o))
  }

  function Places(from: nat, n: nat): set<nat> {
    if n == 0 then {} else Places(from, n - 1) + {from + n - 1}
  }

  /** A start adds workers to those that a stop may still be waiting for. */
  function Started(s: State, n: nat): State {
    if s.running then s
    else s.(running := true, workers := s.workers + seq(n, _ => Idle), tracked := s.tracked + Places(|s.workers|, n))
  }

  function Stopped(s: State): State {
    if s.running then s.(running := false, doomed := s.doomed + s.tracked, stops := s.stops + [s.tracked]) else s
  }

  /** A stop that has waited for its tasks forgets all tasks. */
  function StopEnded(s: State, j: nat): State
    requires j < |s.stops|
  {
    s.(stops := s.stops[..j] + s.stops[j + 1..], tracked := {})
  }

  function Counted(s: State, o: Outcome): State {
    s.(
      total := s.total + 1,
      successful := if o.Success? then s.successful + 1 else s.successful,
      bytes := if o.Success? then s.bytes + o.bytes else s.bytes,
      failed := if o.Failure? then s.failed + 1 else s.failed)
  }

  function Apply(s: State, step: Step): State
    requires Enabled(s, step)
  {
    match step
    case RegisterWorker(id) => s.(urls := s.urls + {id})
    case DeregisterWorker(id) => s.(urls := s.urls - {id})
    case Start(n) => Started(s, n)
    case Stop => Stopped(s)
    case StopDone(j) => StopEnded(s, j)
    case Submit(r) =>
      if CanSubmit(s, r)
      then s.(queue := s.queue + [r], history := s.history.(submitted := s.history.submitted + [r]))
      else s
    case Begin(i) =>
      var r := s.queue[0];
      s.(queue := s.queue[1..], active := s.active[Key(r) := r], workers := s.workers[i := Busy(r)],
         history := s.history.(begun := s.history.begun + [r]))
    case Finish(i, o) => Finished(s, i, o)
    case Leave(i) => s.(workers := s.workers[i := Gone])
  }

  // ---------------------------------------------------------- conservation

  function InFlight(workers: seq<Worker>): multiset<Request> {
    if workers == [] then multiset{}
    else
      var last := workers[|workers| - 1];
      InFlight(workers[..|workers| - 1]) + if last.Busy? then multiset{last.request} else multiset{}
  }

  lemma Exchange(a: multiset<Request>, b: multiset<Request>, c: multiset<Request>)
    ensures a + b + c == a + c + b
  {
  }

  lemma Regroup(a: multiset<Request>, b: multiset<Request>, c: multiset<Request>)
    ensures a + b + c == a + (b + c)
  {
  }

  lemma InFlightStep(front: seq<Worker>, last: Worker)
    ensures InFlight(front + [last]) == InFlight(front) + if last.Busy? then multiset{last.request} else multiset{}
  {
    assert (front + [last])[..|front|] == front;
  }

  /** A worker taking up a request adds it to those in flight. */
  lemma {:induction false} InFlightFill(workers: seq<Worker>, i: nat, r: Request)
    requires i < |workers| && !workers[i].Busy?
    ensures InFlight(workers[i := Busy(r)]) == InFlight(workers) + multiset{r}
  {
    var n := |workers| - 1;
    var front, last := workers[..n], workers[n];
    assert workers == front + [last];
    InFlightStep(front, last);
    if i == n {
      assert workers[i := Busy(r)] == front + [Busy(r)];
      InFlightStep(front, Busy(r));
    } else {
      assert workers[i := Busy(r)] == front[i := Busy(r)] + [last];
      InFlightStep(front[i := Busy(r)], last);
      InFlightFill(front, i, r);
      Exchange(InFlight(front), multiset{r}, if last.Busy? then multiset{last.request} else multiset{});
    }
  }

  /** Workers without a request are all alike. */
  lemma {:induction false} InFlightIdle(workers: seq<Worker>, i: nat, w: Worker)
    requires i < |workers| && !workers[i].Busy? && !w.Busy?
    ensures InFlight(workers[i := w]) == InFlight(workers)
  {
    var n := |workers| - 1;
    assert workers[i := w][..n] == if i == n then workers[..n] else workers[..n][i := w];
    if i < n { InFlightIdle(workers[..n], i, w); }
  }

  lemma {:induction false} InFlightCount(workers: seq<Worker>)
    ensures |InFlight(workers)| <= |workers|
    ensures (forall i :: 0 <= i < |workers| ==> !workers[i].Busy?) ==> InFlight(workers) == multiset{}
    ensures forall r :: r in InFlight(workers) <==> exists i :: 0 <= i < |workers| && workers[i] == Busy(r)
  {
    if workers != [] {
      var front, last := workers[..|workers| - 1], workers[|workers| - 1];
      InFlightCount(front);
      forall r ensures r in InFlight(workers) <==> exists i :: 0 <= i < |workers| && workers[i] == Busy(r) {
        if r in InFlight(front) {
          var i :| 0 <= i < |front| && front[i] == Busy(r);
          assert workers[i] == Busy(r);
        }
        if i :| 0 <= i < |workers| && workers[i] == Busy(r) {
          if i < |front| { assert front[i] == Busy(r); }
        }
      }
    }
  }

  /** Every request ever accepted is waiting, in flight or finished, exactly
      once; the queue is served in order of arrival, whatever the priorities;
      and the counters agree with the history. */
  ghost predicate Conserved(s: State) {
    && s.history.submitted == s.history.begun + s.queue
    && multiset(s.history.begun) == InFlight(s.workers) + multiset(s.history.finished)
    && s.total == |s.history.finished|
    && s.total == s.successful + s.failed + s.history.cancelled
  }

  lemma {:induction false} StartIsIdle(workers: seq<Worker>, n: nat)
    ensures InFlight(workers + seq(n, _ => Idle)) == InFlight(workers)
  {
    if n == 0 {
      assert workers + seq(n, _ => Idle) == workers;
    } else {
      assert workers + seq(n, _ => Idle) == workers + seq(n - 1, _ => Idle) + [Idle];
      StartIsIdle(workers, n - 1);
      InFlightStep(workers + seq(n - 1, _ => Idle), Idle);
    }
  }

  lemma BeginConserves(s: State, i: nat)
    requires Conserved(s) && Enabled(s, Begin(i))
    ensures Conserved(Apply(s, Begin(i)))
  {
    var r := s.queue[0];
    InFlightFill(s.workers, i, r);
    Exchange(InFlight(s.workers), multiset{r}, multiset(s.history.finished));
    QueueShift(s.history.begun, s.queue);
  }

  lemma QueueShift(begun: seq<Request>, queue: seq<Request>)
    requires queue != []
    ensures begun + queue == begun + [queue[0]] + queue[1..]
    ensures multiset(begun + [queue[0]]) == multiset(begun) + multiset{queue[0]}
  {
  }

  lemma FinishConserves(s: State, i: nat, o: Outcome)
    requires Conserved(s) && Enabled(s, Finish(i, o))
    ensures Conserved(Apply(s, Finish(i, o)))
  {
    var r := s.workers[i].request;
    var w := NextWorker(s, r, o);
    InFlightFill(s.workers[i := w], i, r);
    assert s.workers[i := w][i := Busy(r)] == s.workers;
    assert multiset(s.history.finished + [r]) == multiset(s.history.finished) + multiset{r};
    Exchange(InFlight(s.workers[i := w]), multiset{r}, multiset(s.history.finished));
    Regroup(InFlight(s.workers[i := w]), multiset(s.history.finished), multiset{r});
  }

  lemma ApplyConserves(s: State, step: Step)
    requires Conserved(s) && Enabled(s, step)
    ensures Conserved(Apply(s, step))
  {
    match step
    case Start(n) => StartIsIdle(s.workers, n);
    case Begin(i) => BeginConserves(s, i);
    case Finish(i, o) => FinishConserves(s, i, o);
    case Leave(i) => InFlightIdle(s.workers, i, Gone);
    case Submit(r) => assert s.history.begun + (s.queue + [r]) == (s.history.begun + s.queue) + [r];
    case _ =>
  }

  // ------------------------------------------------------------ active list

  ghost predicate KeyInFlight(s: State, key: string) {
    exists i :: 0 <= i < |s.workers| && Carries(s.workers[i], key)
  }

  /** Only transfers in flight are listed as active. */
  ghost predicate ActiveInFlight(s: State) {
    forall key :: key in s.active ==> KeyInFlight(s, key)
  }

  lemma ApplyKeepsActive(s: State, step: Step)
    requires ActiveInFlight(s) && Enabled(s, step)
    ensures ActiveInFlight(Apply(s, step))
  {
    match step
    case Begin(i) => OneWorkerChanges(s, Apply(s, step), i);
    case Finish(i, _) => OneWorkerChanges(s, Apply(s, step), i);
    case Leave(i) => OneWorkerChanges(s, Apply(s, step), i);
    case Start(n) => MoreWorkersCarry(s, Apply(s, step));
    case _ => MoreWorkersCarry(s, Apply(s, step));
  }

  predicate Carries(w: Worker, key: string) {
    w.Busy? && Key(w.request) == key
  }

  lemma MoreWorkersCarry(s: State, s': State)
    requires ActiveInFlight(s) && s.workers <= s'.workers && s'.active == s.active
    ensures ActiveInFlight(s')
  {
    forall key | key in s'.active ensures KeyInFlight(s', key) {
      assert KeyInFlight(s, key);
      var k :| 0 <= k < |s.workers| && Carries(s.workers[k], key);
      assert Carries(s'.workers[k], key);
    }
  }

  /** A change to worker `i` alone keeps the keys other workers carry. */
  lemma OneWorkerChanges(s: State, s': State, i: nat)
    requires ActiveInFlight(s) && i < |s.workers| == |s'.workers|
    requires forall k :: 0 <= k < |s.workers| && k != i ==> s'.workers[k] == s.workers[k]
    requires forall key :: key in s'.active ==> key in s.active || Carries(s'.workers[i], key)
    requires forall key :: key in s'.active && Carries(s.workers[i], key) ==> Carries(s'.workers[i], key)
    ensures ActiveInFlight(s')
  {
    forall key | key in s'.active ensures KeyInFlight(s', key) {
      if !Carries(s'.workers[i], key) {
        assert KeyInFlight(s, key);
        var k :| 0 <= k < |s.workers| && Carries(s.workers[k], key);
        assert Carries(s'.workers[k], key);
      }
    }
  }

  ghost predicate DistinctKeys(s: State) {
    forall i, j :: 0 <= i < j < |s.workers| && s.workers[i].Busy? && s.workers[j].Busy? ==>
      Key(s.workers[i].request) != Key(s.workers[j].request)
  }

  /** Each transfer in flight is listed. */
  ghost predicate InFlightActive(s: State) {
    forall i :: 0 <= i < |s.workers| && s.workers[i].Busy? ==> Key(s.workers[i].request) in s.active
  }

  /** As long as no two transfers in flight share a key, each of them is listed
      and no removal raises. */
  lemma ApplyKeepsListed(s: State, step: Step)
    requires InFlightActive(s) && DistinctKeys(s) && Enabled(s, step)
    ensures InFlightActive(Apply(s, step))
    ensures step.Finish? ==> !RemovalRaises(s, s.workers[step.i].request)
  {
  }

  // ------------------------------------------------------------- whole runs

  /** `states` are the states a run of `steps` goes through, with `limit`
      workers each time the service starts. */
  ghost predicate Trace(states: seq<State>, steps: seq<Step>, limit: nat) {
    && |states| == |steps| + 1 && states[0] == Initial()
    && forall k :: 0 <= k < |steps| ==>
         && Enabled(states[k], steps[k])
         && states[k + 1] == Apply(states[k], steps[k])
         && (steps[k].Start? ==> steps[k].workers == limit)
  }

  ghost predicate Good(s: State) {
    Conserved(s) && ActiveInFlight(s)
  }

  lemma ApplyKeepsGood(s: State, step: Step)
    requires Good(s) && Enabled(s, step)
    ensures Good(Apply(s, step))
  {
    ApplyConserves(s, step);
    ApplyKeepsActive(s, step);
  }

  lemma {:induction false} TraceIsGood(states: seq<State>, steps: seq<Step>, limit: nat, k: nat)
    requires Trace(states, steps, limit) && k <= |steps|
    ensures Good(states[k])
  {
    if k > 0 {
      TraceIsGood(states, steps, limit, k - 1);
      ApplyKeepsGood(states[k - 1], steps[k - 1]);
    }
  }

  // ------------------------------------------------- how many at a time

  function LiveCount(workers: seq<Worker>): nat {
    if workers == [] then 0
    else LiveCount(workers[..|workers| - 1]) + if workers[|workers| - 1].Gone? then 0 else 1
  }

  lemma {:induction false} LiveUpdate(workers: seq<Worker>, i: nat, w: Worker)
    requires i < |workers|
    ensures LiveCount(workers[i := w]) ==
            LiveCount(workers) - (if workers[i].Gone? then 0 else 1) + if w.Gone? then 0 else 1
  {
    var n := |workers| - 1;
    assert workers[i := w][..n] == if i == n then workers[..n] else workers[..n][i := w];
    if i < n { LiveUpdate(workers[..n], i, w); }
  }

  lemma {:induction false} LiveAppend(workers: seq<Worker>, n: nat)
    ensures LiveCount(workers + seq(n, _ => Idle)) == LiveCount(workers) + n
  {
    var more := workers + seq(n, _ => Idle);
    if n == 0 {
      assert more == workers;
    } else {
      assert more[..|more| - 1] == workers + seq(n - 1, _ => Idle);
      LiveAppend(workers, n - 1);
    }
  }

  lemma {:induction false} LiveCounts(workers: seq<Worker>)
    ensures |InFlight(workers)| <= LiveCount(workers)
    ensures LiveCount(workers) == 0 <==> AllGone(workers)
  {
    if workers != [] {
      var front, last := workers[..|workers| - 1], workers[|workers| - 1];
      LiveCounts(front);
      assert AllGone(workers) <==> AllGone(front) && last.Gone? by { assert workers == front + [last]; }
    }
  }

  /** A start takes effect while workers of an earlier one are still there. */
  predicate Overlaps(s: State, step: Step) {
    step.Start? && !s.running && !AllGone(s.workers)
  }

  /** Only a start makes more workers. */
  lemma LiveStep(s: State, step: Step)
    requires Enabled(s, step)
    ensures var live := LiveCount(s.workers);
            if step.Start? && !s.running then LiveCount(Apply(s, step).workers) == live + step.workers
            else LiveCount(Apply(s, step).workers) <= live
  {
    match step
    case Start(n) => LiveAppend(s.workers, n);
    case Begin(i) => LiveUpdate(s.workers, i, Busy(s.queue[0]));
    case Finish(i, o) => LiveUpdate(s.workers, i, NextWorker(s, s.workers[i].request, o));
    case Leave(i) => LiveUpdate(s.workers, i, Gone);
    case _ =>
  }

  lemma {:induction false} NoOverlapKeepsLimit(states: seq<State>, steps: seq<Step>, limit: nat, k: nat)
    requires Trace(states, steps, limit) && k <= |steps|
    requires forall j :: 0 <= j < k ==> !Overlaps(states[j], steps[j])
    ensures LiveCount(states[k].workers) <= limit
  {
    if k > 0 {
      NoOverlapKeepsLimit(states, steps, limit, k - 1);
      LiveStep(states[k - 1], steps[k - 1]);
      LiveCounts(states[k - 1].workers);
    }
  }

  /** Up to any point of any run there are no more than `limit` workers at a time
      exactly if no start took effect before all workers of earlier ones were
      gone. */
  lemma RunKeepsLimitExactly(states: seq<State>, steps: seq<Step>, limit: nat, k: nat)
    requires Trace(states, steps, limit) && k <= |steps|
    ensures (forall j :: 0 <= j <= k ==> LiveCount(states[j].workers) <= limit)
            <==> (forall j :: 0 <= j < k ==> !Overlaps(states[j], steps[j]))
  {
    if j: nat :| j < k && Overlaps(states[j], steps[j]) {
      LiveStep(states[j], steps[j]);
      LiveCounts(states[j].workers);
      assert LiveCount(states[j + 1].workers) > limit;
    } else {
      forall j: nat | j <= k ensures LiveCount(states[j].workers) <= limit {
        NoOverlapKeepsLimit(states, steps, limit, j);
      }
    }
  }

  // ----------------------------------------------------------- the queue law

  /** Over every interleaving, at every point: what was accepted is queued, in
      flight or finished; at most `limit` are in flight unless a start overlapped
      earlier workers; the totals add up; and everything listed as active is in
      flight. */
  lemma RunConserves(states: seq<State>, steps: seq<Step>, limit: nat, k: nat)
    requires Trace(states, steps, limit) && k <= |steps|
    ensures var s := states[k];
            && |s.history.submitted| == |s.queue| + |InFlight(s.workers)| + s.total
            && multiset(s.history.submitted) == multiset(s.queue) + InFlight(s.workers) + multiset(s.history.finished)
            && s.total == s.successful + s.failed + s.history.cancelled
            && ((forall j :: 0 <= j < k ==> !Overlaps(states[j], steps[j])) ==> |InFlight(s.workers)| <= limit)
            && (forall key :: key in s.active ==> KeyInFlight(s, key))
  {
    TraceIsGood(states, steps, limit, k);
    var s := states[k];
    LiveCounts(s.workers);
    if forall j :: 0 <= j < k ==> !Overlaps(states[j], steps[j]) { NoOverlapKeepsLimit(states, steps, limit, k); }
    assert |multiset(s.history.begun)| == |s.history.begun| && |multiset(s.history.finished)| == |s.history.finished|;
  }

  /** A transfer is begun while its key is listed already. */
  predicate Collides(s: State, step: Step) {
    step.Begin? && s.queue != [] && Key(s.queue[0]) in s.active
  }

  /** A transfer ends with a removal that raises. */
  predicate Raises(s: State, step: Step) {
    step.Finish? && step.i < |s.workers| && s.workers[step.i].Busy? && RemovalRaises(s, s.workers[step.i].request)
  }

  lemma {:induction false} NoCollisionKeepsListed(states: seq<State>, steps: seq<Step>, limit: nat, k: nat)
    requires Trace(states, steps, limit) && k <= |steps|
    requires forall j :: 0 <= j < k ==> !Collides(states[j], steps[j])
    ensures InFlightActive(states[k]) && DistinctKeys(states[k])
  {
    if k > 0 {
      NoCollisionKeepsListed(states, steps, limit, k - 1);
      ApplyKeepsListed(states[k - 1], steps[k - 1]);
    }
  }

  lemma CollisionSharesKey(s: State, step: Step)
    requires Enabled(s, step) && ActiveInFlight(s) && Collides(s, step)
    ensures !DistinctKeys(Apply(s, step))
  {
    var s', key := Apply(s, step), Key(s.queue[0]);
    assert KeyInFlight(s, key);
    var m :| 0 <= m < |s.workers| && Carries(s.workers[m], key);
    assert s'.workers[m] == s.workers[m] && s'.workers[step.i] == Busy(s.queue[0]);
  }

  /** Up to any point of any run, transfers in flight never share a key exactly
      if no transfer was begun while its key was listed; and then each transfer
      in flight is listed and no removal has raised. */
  lemma RunListsExactly(states: seq<State>, steps: seq<Step>, limit: nat, k: nat)
    requires Trace(states, steps, limit) && k <= |steps|
    ensures (forall j :: 0 <= j <= k ==> DistinctKeys(states[j]))
            <==> (forall j :: 0 <= j < k ==> !Collides(states[j], steps[j]))
    ensures (forall j :: 0 <= j < k ==> !Collides(states[j], steps[j])) ==>
              InFlightActive(states[k]) && forall j :: 0 <= j < k ==> !Raises(states[j], steps[j])
  {
    forall j: nat | j < k && Collides(states[j], steps[j]) ensures !DistinctKeys(states[j + 1]) {
      TraceIsGood(states, steps, limit, j);
      CollisionSharesKey(states[j], steps[j]);
    }
    if j: nat :| j < k && Collides(states[j], steps[j]) {
      assert !DistinctKeys(states[j + 1]);
    } else {
      forall j: nat | j <= k ensures DistinctKeys(states[j]) && InFlightActive(states[j]) {
        NoCollisionKeepsListed(states, steps, limit, j);
      }
    }
  }

  // ------------------------------------------------ when a removal raises

  /** The workers with a transfer of that key. */
  function Carriers(workers: seq<Worker>, key: string): set<nat> {
    set i: nat | i < |workers| && Carries(workers[i], key)
  }

  function Listed(s: State, key: string): nat { if key in s.active then 1 else 0 }

  /** How often, in the first `k` steps, a transfer of `key` met its key listed. */
  function Collisions(states: seq<State>, steps: seq<Step>, key: string, k: nat): nat
    requires k <= |steps| < |states|
  {
    if k == 0 then 0
    else Collisions(states, steps, key, k - 1)
         + if Collides(states[k - 1], steps[k - 1]) && Key(states[k - 1].queue[0]) == key then 1 else 0
  }

  /** How often the removal of `key` raised. */
  function RaisedCount(states: seq<State>, steps: seq<Step>, key: string, k: nat): nat
    requires k <= |steps| < |states|
  {
    if k == 0 then 0
    else RaisedCount(states, steps, key, k - 1)
         + if Raises(states[k - 1], steps[k - 1]) && Key(states[k - 1].workers[steps[k - 1].i].request) == key then 1 else 0
  }

  lemma CarriersAfter(workers: seq<Worker>, i: nat, w: Worker, key: string)
    requires i < |workers|
    ensures Carriers(workers[i := w], key) == if Carries(w, key) then Carriers(workers, key) + {i} else Carriers(workers, key) - {i}
  {
  }

  /** The transfers of `key` in flight beyond the one that is listed. */
  function Unlisted(s: State, key: string): int {
    |Carriers(s.workers, key)| - Listed(s, key)
  }

  lemma BeginBalance(s: State, i: nat, key: string)
    requires Enabled(s, Begin(i))
    ensures Unlisted(Apply(s, Begin(i)), key)
            == Unlisted(s, key) + if Collides(s, Begin(i)) && Key(s.queue[0]) == key then 1 else 0
  {
    CarriersAfter(s.workers, i, Busy(s.queue[0]), key);
    assert i !in Carriers(s.workers, key);
  }

  lemma FinishBalance(s: State, i: nat, o: Outcome, key: string)
    requires Enabled(s, Finish(i, o))
    ensures Unlisted(Apply(s, Finish(i, o)), key)
            == Unlisted(s, key) - if Raises(s, Finish(i, o)) && Key(s.workers[i].request) == key then 1 else 0
  {
    CarriersAfter(s.workers, i, NextWorker(s, s.workers[i].request, o), key);
    assert i in Carriers(s.workers, key) <==> Key(s.workers[i].request) == key;
  }

  lemma StepBalance(s: State, step: Step, key: string)
    requires Enabled(s, step)
    ensures Unlisted(Apply(s, step), key)
            == Unlisted(s, key)
               + (if Collides(s, step) && Key(s.queue[0]) == key then 1 else 0)
               - (if Raises(s, step) && Key(s.workers[step.i].request) == key then 1 else 0)
  {
    match step
    case Start(n) =>
      assert Carriers(s.workers + seq(n, _ => Idle), key) == Carriers(s.workers, key);
    case Begin(i) => BeginBalance(s, i, key);
    case Finish(i, o) => FinishBalance(s, i, o, key);
    case Leave(i) => CarriersAfter(s.workers, i, Gone, key);
    case _ =>
  }

  lemma ListedIsCarried(s: State, key: string)
    requires ActiveInFlight(s)
    ensures Listed(s, key) <= |Carriers(s.workers, key)|
    ensures !KeyInFlight(s, key) ==> Carriers(s.workers, key) == {}
  {
    if key in s.active {
      assert KeyInFlight(s, key);
      var i: nat :| i < |s.workers| && Carries(s.workers[i], key);
      assert i in Carriers(s.workers, key);
    }
  }

  lemma {:induction false} Balance(states: seq<State>, steps: seq<Step>, limit: nat, key: string, k: nat)
    requires Trace(states, steps, limit) && k <= |steps|
    ensures Unlisted(states[k], key) == Collisions(states, steps, key, k) - RaisedCount(states, steps, key, k)
  {
    if k == 0 {
      assert Carriers(states[0].workers, key) == {};
    } else {
      Balance(states, steps, limit, key, k - 1);
      StepBalance(states[k - 1], steps[k - 1], key);
    }
  }

  /** The law of the active list, for every key at every point of every run: the
      transfers in flight beyond the one that is listed are those that were begun
      while the key was listed, less those whose removal raised. */
  lemma ListingBalance(states: seq<State>, steps: seq<Step>, limit: nat, key: string, k: nat)
    requires Trace(states, steps, limit) && k <= |steps|
    ensures Unlisted(states[k], key) == Collisions(states, steps, key, k) - RaisedCount(states, steps, key, k)
    ensures RaisedCount(states, steps, key, k) <= Collisions(states, steps, key, k)
  {
    Balance(states, steps, limit, key, k);
    TraceIsGood(states, steps, limit, k);
    ListedIsCarried(states[k], key);
  }

  lemma {:induction false} CountsArePositive(states: seq<State>, steps: seq<Step>, key: string, k: nat)
    requires k <= |steps| < |states|
    ensures Collisions(states, steps, key, k) > 0 <==>
              exists j :: 0 <= j < k && Collides(states[j], steps[j]) && Key(states[j].queue[0]) == key
    ensures RaisedCount(states, steps, key, k) > 0 <==>
              exists j :: 0 <= j < k && Raises(states[j], steps[j]) && Key(states[j].workers[steps[j].i].request) == key
  {
    if k > 0 { CountsArePositive(states, steps, key, k - 1); }
  }

  /** Whenever no transfer of a key is in flight, as many of its removals have
      raised as transfers were begun while it was listed: some removal raised
      exactly if some transfer met its key listed, which shows before it begins. */
  lemma RaisesExactly(states: seq<State>, steps: seq<Step>, limit: nat, key: string, k: nat)
    requires Trace(states, steps, limit) && k <= |steps| && !KeyInFlight(states[k], key)
    ensures RaisedCount(states, steps, key, k) == Collisions(states, steps, key, k)
    ensures (exists j :: 0 <= j < k && Raises(states[j], steps[j]) && Key(states[j].workers[steps[j].i].request) == key)
            <==> (exists j :: 0 <= j < k && Collides(states[j], steps[j]) && Key(states[j].queue[0]) == key)
  {
    ListingBalance(states, steps, limit, key, k);
    CountsArePositive(states, steps, key, k);
    TraceIsGood(states, steps, limit, k);
    ListedIsCarried(states[k], key);
  }

  lemma Extend(states: seq<State>, steps: seq<Step>, limit: nat, step: Step)
    returns (longer: seq<State>, more: seq<Step>, last: State)
    requires Trace(states, steps, limit)
    requires Enabled(states[|steps|], step) && (step.Start? ==> step.workers == limit)
    ensures more == steps + [step] && longer == states + [last] && Trace(longer, more, limit)
    ensures last == Apply(states[|steps|], step)
  {
    last := Apply(states[|steps|], step);
    longer, more := states + [last], steps + [step];
  }

  /** Two or three requests of one key are queued for three idle workers. */
  lemma Queued(r: Request, third: bool) returns (states: seq<State>, steps: seq<Step>)
    ensures Trace(states, steps, 3) && states[|steps|].running && states[|steps|].doomed == {}
    ensures states[|steps|].workers == [Idle, Idle, Idle] && states[|steps|].active == map[]
    ensures states[|steps|].queue == if third then [r, r, r] else [r, r]
  {
    var s: State;
    states, steps := [Initial()], [];
    states, steps, s := Extend(states, steps, 3, RegisterWorker(r.source));
    states, steps, s := Extend(states, steps, 3, RegisterWorker(r.target));
    states, steps, s := Extend(states, steps, 3, Start(3));
    states, steps, s := Extend(states, steps, 3, Submit(r));
    states, steps, s := Extend(states, steps, 3, Submit(r));
    if third { states, steps, s := Extend(states, steps, 3, Submit(r)); }
  }

  lemma TwoInFlight(r: Request, third: bool) returns (states: seq<State>, steps: seq<Step>)
    ensures Trace(states, steps, 3) && states[|steps|].running && states[|steps|].doomed == {}
    ensures states[|steps|].workers == [Busy(r), Busy(r), Idle] && states[|steps|].active == map[Key(r) := r]
    ensures states[|steps|].queue == if third then [r] else []
  {
    var s: State;
    states, steps := Queued(r, third);
    states, steps, s := Extend(states, steps, 3, Begin(0));
    states, steps, s := Extend(states, steps, 3, Begin(1));
  }

  /** A run in which two transfers of one key overlap and the second removal
      raises. */
  lemma OverlapRaises(r: Request) returns (states: seq<State>, steps: seq<Step>)
    ensures Trace(states, steps, 3) && steps != []
    ensures states[|steps|].workers == [Idle, Idle, Idle]
    ensures Raises(states[|steps| - 1], steps[|steps| - 1])
  {
    var s: State;
    states, steps := TwoInFlight(r, false);
    states, steps, s := Extend(states, steps, 3, Finish(0, Success(0)));
    states, steps, s := Extend(states, steps, 3, Finish(1, Success(0)));
  }

  /** One in which a third begins in between and lists the key again: the second
      removal succeeds and the third raises. */
  lemma ThirdRaisesInstead(r: Request) returns (states: seq<State>, steps: seq<Step>)
    ensures Trace(states, steps, 3) && |steps| >= 2
    ensures states[|steps|].workers == [Idle, Idle, Idle]
    ensures steps[|steps| - 2] == Finish(1, Success(0)) && !Raises(states[|steps| - 2], steps[|steps| - 2])
    ensures steps[|steps| - 1] == Finish(2, Success(0)) && Raises(states[|steps| - 1], steps[|steps| - 1])
  {
    var s: State;
    states, steps := TwoInFlight(r, true);
    states, steps, s := Extend(states, steps, 3, Finish(0, Success(0)));
    states, steps, s := Extend(states, steps, 3, Begin(2));
    states, steps, s := Extend(states, steps, 3, Finish(1, Success(0)));
    states, steps, s := Extend(states, steps, 3, Finish(2, Success(0)));
  }

  /** What becomes of a worker at the end of a transfer: one whose removal raises
      goes on, even if it was cancelled; otherwise a cancelled one is gone, and
      the rest go on exactly while the service runs. */
  lemma FinishDecides(s: State, i: nat, o: Outcome)
    requires Enabled(s, Finish(i, o))
    ensures var s' := Apply(s, Finish(i, o));
            && !s'.workers[i].Busy?
            && (s'.workers[i].Idle? <==> Raises(s, Finish(i, o)) || (s.running && !o.Cancelled?))
            && (i in s'.doomed <==> i in s.doomed && !o.Cancelled?)
            && Key(s.workers[i].request) !in s'.active
  {
  }

  // ------------------------------------------------------ stops come to an end

  function Work(workers: seq<Worker>): nat {
    if workers == [] then 0
    else
      var last := workers[|workers| - 1];
      Work(workers[..|workers| - 1]) + if last.Busy? then 2 else if last.Idle? then 1 else 0
  }

  lemma {:induction false} WorkUpdate(workers: seq<Worker>, i: nat, w: Worker)
    requires i < |workers|
    ensures Work(workers[i := w]) - (if w.Busy? then 2 else if w.Idle? then 1 else 0)
            == Work(workers) - (if workers[i].Busy? then 2 else if workers[i].Idle? then 1 else 0)
  {
    var n := |workers| - 1;
    assert workers[i := w][..n] == if i == n then workers[..n] else workers[..n][i := w];
    if i < n { WorkUpdate(workers[..n], i, w); }
  }

  /** In a stopped service any worker that is not gone has a step of its own to
      take, and taking it gets closer to its end. */
  lemma StoppedWorkerGoes(s: State, i: nat) returns (step: Step)
    requires !s.running && i < |s.workers| && !s.workers[i].Gone?
    ensures step == if s.workers[i].Idle? then Leave(i) else Finish(i, Failure)
    ensures Enabled(s, step) && !Apply(s, step).running && Apply(s, step).stops == s.stops
    ensures |Apply(s, step).workers| == |s.workers| && Work(Apply(s, step).workers) < Work(s.workers)
  {
    step := if s.workers[i].Idle? then Leave(i) else Finish(i, Failure);
    WorkUpdate(s.workers, i, Apply(s, step).workers[i]);
    assert Apply(s, step).workers == s.workers[i := Apply(s, step).workers[i]];
  }

  /** And a cancelled worker that waits for requests leaves even while the service
      runs. */
  lemma DoomedWorkerGoes(s: State, i: nat)
    requires i < |s.workers| && s.workers[i].Idle? && i in s.doomed
    ensures Enabled(s, Leave(i)) && Apply(s, Leave(i)).workers[i].Gone?
    ensures !Enabled(s, Begin(i))
  {
  }

  /** So every stop can come to its end: from a stopped service, without any new
      start, a run of its own workers' steps leads to where each waiting stop is
      enabled to return. */
  lemma {:induction false} StopsCanEnd(s: State) returns (last: State, steps: seq<Step>)
    requires !s.running && forall j, i :: 0 <= j < |s.stops| && i in s.stops[j] ==> i < |s.workers|
    ensures Leads(s, steps, last) && last.stops == s.stops
    ensures forall j :: 0 <= j < |s.stops| ==> Enabled(last, StopDone(j))
    decreases Work(s.workers)
  {
    last, steps := s, [];
    if i: nat :| i < |s.workers| && !s.workers[i].Gone? {
      var step := StoppedWorkerGoes(s, i);
      var rest;
      last, rest := StopsCanEnd(Apply(s, step));
      steps := [step] + rest;
      assert steps[1..] == rest;
    }
  }

  predicate Leads(s: State, steps: seq<Step>, last: State)
    decreases |steps|
  {
    if steps == [] then s == last
    else
      var step := steps[0];
      && (step.Leave? || step.Finish?) && Enabled(s, step)
      && Leads(Apply(s, step), steps[1..], last)
  }

  // ------------------------------------------------------------ counters

  predicate Succeeds(step: Step) { step.Finish? && step.outcome.Success? }

  predicate Fails(step: Step) { step.Finish? && step.outcome.Failure? }

  function Successes(steps: seq<Step>, k: nat): nat
    requires k <= |steps|
  {
    if k == 0 then 0 else Successes(steps, k - 1) + if Succeeds(steps[k - 1]) then 1 else 0
  }

  function Failures(steps: seq<Step>, k: nat): nat
    requires k <= |steps|
  {
    if k == 0 then 0 else Failures(steps, k - 1) + if Fails(steps[k - 1]) then 1 else 0
  }

  function BytesMoved(steps: seq<Step>, k: nat): nat
    requires k <= |steps|
  {
    if k == 0 then 0 else BytesMoved(steps, k - 1) + if Succeeds(steps[k - 1]) then steps[k - 1].outcome.bytes else 0
  }

  lemma StepCounters(s: State, step: Step)
    requires Enabled(s, step)
    ensures var s' := Apply(s, step);
            && s'.successful == s.successful + (if Succeeds(step) then 1 else 0)
            && s'.failed == s.failed + (if Fails(step) then 1 else 0)
            && s'.bytes == s.bytes + (if Succeeds(step) then step.outcome.bytes else 0)
            && s'.urls == (match step
                 case RegisterWorker(id) => s.urls + {id}
                 case DeregisterWorker(id) => s.urls - {id}
                 case _ => s.urls)
            && s'.history.submitted == s.history.submitted
                 + if step.Submit? && step.request.source in s.urls && step.request.target in s.urls then [step.request] else []
  {
  }

  /** Over every interleaving the counters tell the transfers that succeeded and
      failed, and the bytes of those that succeeded. */
  lemma {:induction false} CountersAreExact(states: seq<State>, steps: seq<Step>, limit: nat, k: nat)
    requires Trace(states, steps, limit) && k <= |steps|
    ensures states[k].successful == Successes(steps, k) && states[k].failed == Failures(steps, k)
    ensures states[k].bytes == BytesMoved(steps, k)
  {
    if k > 0 {
      CountersAreExact(states, steps, limit, k - 1);
      StepCounters(states[k - 1], steps[k - 1]);
    }
  }

  /** The worker was registered at step `j` and not deregistered since. */
  ghost predicate RegisteredSince(steps: seq<Step>, id: string, k: nat, j: nat)
    requires k <= |steps|
  {
    j < k && steps[j] == RegisterWorker(id) && forall m :: j < m < k ==> steps[m] != DeregisterWorker(id)
  }

  lemma {:induction false} UrlsAreExact(states: seq<State>, steps: seq<Step>, limit: nat, k: nat, id: string)
    requires Trace(states, steps, limit) && k <= |steps|
    ensures id in states[k].urls <==> exists j: nat :: RegisteredSince(steps, id, k, j)
  {
    if k > 0 {
      UrlsAreExact(states, steps, limit, k - 1, id);
      StepCounters(states[k - 1], steps[k - 1]);
      var step := steps[k - 1];
      assert id in states[k].urls <==> step == RegisterWorker(id) || (id in states[k - 1].urls && step != DeregisterWorker(id));
      if step == RegisterWorker(id) {
        assert RegisteredSince(steps, id, k, k - 1);
      } else if id in states[k].urls {
        var j: nat :| RegisteredSince(steps, id, k - 1, j);
        assert RegisteredSince(steps, id, k, j);
      } else if j: nat :| RegisteredSince(steps, id, k, j) {
        assert j < k - 1 && (step != DeregisterWorker(id) ==> RegisteredSince(steps, id, k - 1, j));
      }
    }
  }

  ghost predicate Registered(steps: seq<Step>, id: string, k: nat)
    requires k <= |steps|
  {
    exists j: nat :: RegisteredSince(steps, id, k, j)
  }

  /** The requests between registered workers, in the order they came. */
  ghost function Accepted(steps: seq<Step>, k: nat): seq<Request>
    requires k <= |steps|
  {
    if k == 0 then []
    else
      var step := steps[k - 1];
      Accepted(steps, k - 1)
      + if step.Submit? && Registered(steps, step.request.source, k - 1) && Registered(steps, step.request.target, k - 1)
        then [step.request] else []
  }

  /** Over every interleaving exactly the requests between workers registered at
      the time are accepted; what has begun is the front of them. */
  lemma {:induction false} AcceptedInOrder(states: seq<State>, steps: seq<Step>, limit: nat, k: nat)
    requires Trace(states, steps, limit) && k <= |steps|
    ensures states[k].history.submitted == Accepted(steps, k)
    ensures states[k].history.begun + states[k].queue == Accepted(steps, k)
  {
    TraceIsGood(states, steps, limit, k);
    if k > 0 {
      AcceptedInOrder(states, steps, limit, k - 1);
      StepCounters(states[k - 1], steps[k - 1]);
      if steps[k - 1].Submit? {
        UrlsAreExact(states, steps, limit, k - 1, steps[k - 1].request.source);
        UrlsAreExact(states, steps, limit, k - 1, steps[k - 1].request.target);
      }
    }
  }

  // --------------------------------------- starting while a stop still waits

  lemma OneWorker(r: Request) returns (states: seq<State>, steps: seq<Step>)
    ensures Trace(states, steps, 1)
    ensures var s := states[|steps|];
            && s.workers == [Idle] && s.queue == [r, r] && s.running && s.active == map[]
            && s.doomed == {} && s.tracked == {0} && s.stops == [] && CanSubmit(s, r)
  {
    var s: State;
    states, steps := [Initial()], [];
    states, steps, s := Extend(states, steps, 1, RegisterWorker(r.source));
    states, steps, s := Extend(states, steps, 1, RegisterWorker(r.target));
    states, steps, s := Extend(states, steps, 1, Submit(r));
    states, steps, s := Extend(states, steps, 1, Submit(r));
    states, steps, s := Extend(states, steps, 1, Start(1));
  }

  /** One worker, busy with a request, is asked to stop, and the service is
      started again before it is gone. */
  lemma RestartedEarly(r: Request) returns (states: seq<State>, steps: seq<Step>)
    ensures Trace(states, steps, 1) && steps != [] && Overlaps(states[|steps| - 1], steps[|steps| - 1])
    ensures var s := states[|steps|];
            && s.workers == [Busy(r), Idle] && s.queue == [r] && s.running && Key(r) in s.active
            && s.doomed == {0} && s.tracked == {0, 1} && s.stops == [{0}] && CanSubmit(s, r)
  {
    var s: State;
    states, steps := OneWorker(r);
    states, steps, s := Extend(states, steps, 1, Begin(0));
    states, steps, s := Extend(states, steps, 1, Stop);
    assert s.workers[0] == Busy(r);
    states, steps, s := Extend(states, steps, 1, Start(1));
  }

  /** So two transfers can be in flight where one at a time is allowed. */
  lemma LimitExceeded(r: Request) returns (states: seq<State>, steps: seq<Step>)
    ensures Trace(states, steps, 1) && |InFlight(states[|steps|].workers)| == 2
  {
    var s: State;
    states, steps := RestartedEarly(r);
    states, steps, s := Extend(states, steps, 1, Begin(1));
    assert s.workers == [Busy(r), Busy(r)] && s.workers[..1] == [Busy(r)] && [Busy(r)][..0] == [];
    assert InFlight([Busy(r)]) == multiset{r};
  }

  lemma FirstStopOver(r: Request) returns (states: seq<State>, steps: seq<Step>)
    ensures Trace(states, steps, 1)
    ensures var s := states[|steps|];
            && s.workers == [Gone, Idle] && s.queue == [r] && s.running
            && s.doomed == {} && s.tracked == {} && s.stops == []
  {
    var s: State;
    states, steps := RestartedEarly(r);
    states, steps, s := Extend(states, steps, 1, Finish(0, Cancelled));
    states, steps, s := Extend(states, steps, 1, StopDone(0));
  }

  /** And when the first stop is over it forgets the new worker as well: a second
      stop neither cancels that worker nor waits for it. */
  lemma StopMissesWorker(r: Request) returns (states: seq<State>, steps: seq<Step>)
    ensures Trace(states, steps, 1) && steps != [] && steps[|steps| - 1].StopDone?
    ensures var s := states[|steps|];
            s.workers == [Gone, Busy(r)] && !s.running && s.tracked == {} && s.doomed == {} && s.stops == []
  {
    var s: State;
    states, steps := FirstStopOver(r);
    states, steps, s := Extend(states, steps, 1, Begin(1));
    states, steps, s := Extend(states, steps, 1, Stop);
    states, steps, s := Extend(states, steps, 1, StopDone(0));
  }

  /** After another start it works on beside the new worker, still out of reach. */
  lemma WorkerIsLost(r: Request) returns (states: seq<State>, steps: seq<Step>)
    ensures Trace(states, steps, 1)
    ensures var s := states[|steps|];
            s.workers == [Gone, Busy(r), Idle] && s.running && 1 !in s.tracked && s.doomed == {} && s.stops == []
  {
    var s: State;
    states, steps := StopMissesWorker(r);
    assert Places(2, 1) == {2};
    states, steps, s := Extend(states, steps, 1, Start(1));
  }
}
