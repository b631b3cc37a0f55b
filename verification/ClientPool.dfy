/** The gateway's view of its workers: failure counters, the set of healthy
    workers, and the moving average of response times. */
module ClientPool {

  datatype Status = Healthy | Unhealthy | Unknown

  /** `times` records the successful response times since the worker was added;
      the pool itself keeps only their average. */
  datatype Conn = Conn(
    status: Status, failures: int, totalRequests: nat, successfulRequests: nat, average: real, times: seq<real>)

  const NEW_CONN := Conn(Unknown, 0, 0, 0, 0.0, [])

  /** A connection together with its membership in the healthy set. */
  datatype Entry = Entry(conn: Conn, listed: bool)

  /** How one attempt ends: with a response; with a response whose body is not a
      valid result; with 503; or with any other error. */
  datatype Reply = Accepted(ms: real) | Malformed(ms: real) | Overloaded(ms: real) | Refused(ms: real)

  const EJECT_AT := 3

  // ------------------------------------------------------------ one request

  function NextAverage(average: real, ms: real): real {
    if average == 0.0 then ms else 0.9 * average + 0.1 * ms
  }

  function Succeeded(c: Conn, ms: real): Conn {
    Conn(c.status, 0, c.totalRequests + 1, c.successfulRequests + 1, NextAverage(c.average, ms), c.times + [ms])
  }

  function Missed(c: Conn): Conn {
    c.(totalRequests := c.totalRequests + 1, failures := c.failures + 1)
  }

  /** One more failure, with ejection at the third in a row. */
  function Strike(e: Entry): Entry {
    var c := e.conn.(failures := e.conn.failures + 1);
    if c.failures >= EJECT_AT then Entry(c.(status := Unhealthy), false) else Entry(c, e.listed)
  }

  function Attempted(e: Entry, r: Reply): Entry {
    match r
    case Accepted(ms) => e.(conn := Succeeded(e.conn, ms))
    case Malformed(ms) => e.(conn := Missed(Succeeded(e.conn, ms)))
    case Overloaded(_) => var s := Strike(e); s.(conn := Missed(s.conn))
    case Refused(_) => e.(conn := Missed(e.conn))
  }

  /** The whole retry loop over the replies the attempts would get. */
  function Sent(e: Entry, replies: seq<Reply>): Entry
    decreases |replies|
  {
    if replies == [] then Strike(e)
    else
      var e' := Attempted(e, replies[0]);
      if replies[0].Accepted? then e' else Sent(e', replies[1..])
  }

  function Delivered(replies: seq<Reply>): bool {
    exists i :: 0 <= i < |replies| && replies[i].Accepted?
  }

  function CountOverloaded(replies: seq<Reply>): nat {
    if replies == [] then 0 else (if replies[0].Overloaded? then 1 else 0) + CountOverloaded(replies[1..])
  }

  /** The failures a request adds when every attempt ends in an error response:
      one for each attempt, one more for each 503, and one at the end. */
  lemma {:induction false} FailedRequestCounts(e: Entry, replies: seq<Reply>)
    requires forall i :: 0 <= i < |replies| ==> replies[i].Overloaded? || replies[i].Refused?
    ensures var e' := Sent(e, replies);
            && e'.conn.failures == e.conn.failures + |replies| + CountOverloaded(replies) + 1
            && e'.conn.totalRequests == e.conn.totalRequests + |replies|
            && e'.conn.times == e.conn.times && e'.conn.average == e.conn.average
            && (e'.listed <==> e.listed && e'.conn.failures < EJECT_AT)
            && (e'.conn.failures >= EJECT_AT ==> e'.conn.status == Unhealthy)
    decreases |replies|
  {
    if replies != [] { FailedRequestCounts(Attempted(e, replies[0]), replies[1..]); }
  }

  /** With at least one retry that ejects the worker, whatever it had before. */
  lemma FailedRequestEjects(e: Entry, replies: seq<Reply>)
    requires e.conn.failures >= 0 && |replies| >= 2
    requires forall i :: 0 <= i < |replies| ==> replies[i].Overloaded? || replies[i].Refused?
    ensures var e' := Sent(e, replies); !e'.listed && e'.conn.status == Unhealthy
  {
    FailedRequestCounts(e, replies);
  }

  /** The failure counter after an attempt. */
  function CountAfter(failures: int, r: Reply): int {
    match r
    case Accepted(_) => 0
    case Malformed(_) => 1
    case Overloaded(_) => failures + 2
    case Refused(_) => failures + 1
  }

  /** A 503 arrives while the counter already stands at two or more. */
  predicate StruckOut(failures: int, replies: seq<Reply>)
    decreases |replies|
  {
    replies != [] &&
    ((replies[0].Overloaded? && failures >= EJECT_AT - 1) || StruckOut(CountAfter(failures, replies[0]), replies[1..]))
  }

  function Counted(failures: int, replies: seq<Reply>): int
    decreases |replies|
  {
    if replies == [] then failures else Counted(CountAfter(failures, replies[0]), replies[1..])
  }

  /** However many attempts there are, a request that fails on all of them
      leaves the worker listed exactly if no 503 struck it out on the way and
      the strike at the end is not its third failure. */
  lemma {:induction false} ListedAfterFailureExactly(e: Entry, replies: seq<Reply>)
    requires forall i :: 0 <= i < |replies| ==> !replies[i].Accepted?
    ensures var e' := Sent(e, replies);
            && e'.conn.failures == Counted(e.conn.failures, replies) + 1
            && (e'.listed <==> e.listed && !StruckOut(e.conn.failures, replies) && e'.conn.failures < EJECT_AT)
            && (e.listed && !e'.listed ==> e'.conn.status == Unhealthy)
    decreases |replies|
  {
    if replies != [] {
      var e1 := Attempted(e, replies[0]);
      assert e1.conn.failures == CountAfter(e.conn.failures, replies[0]);
      ListedAfterFailureExactly(e1, replies[1..]);
      if e.listed && !e1.listed { UnhealthyStays(e1, replies[1..]); }
    }
  }

  lemma {:induction false} UnhealthyStays(e: Entry, replies: seq<Reply>)
    requires e.conn.status == Unhealthy
    ensures Sent(e, replies).conn.status == Unhealthy
    decreases |replies|
  {
    if replies != [] && !replies[0].Accepted? { UnhealthyStays(Attempted(e, replies[0]), replies[1..]); }
  }

  lemma {:induction false} CountedBelow(failures: int, replies: seq<Reply>)
    requires failures >= 0 && replies != [] && forall i :: 0 <= i < |replies| ==> !replies[i].Accepted?
    ensures Counted(failures, replies) >= 1
    ensures replies[|replies| - 1].Malformed? ==> Counted(failures, replies) == 1
    ensures !replies[|replies| - 1].Malformed? && |replies| >= 2 ==> Counted(failures, replies) >= 2
    ensures !replies[|replies| - 1].Malformed? && failures >= 1 ==> Counted(failures, replies) >= 2
    decreases |replies|
  {
    if |replies| > 1 { CountedBelow(CountAfter(failures, replies[0]), replies[1..]); }
  }

  lemma {:induction false} SentTail(e: Entry, replies: seq<Reply>, j: nat) returns (e1: Entry)
    requires j <= |replies| && forall i :: 0 <= i < j ==> !replies[i].Accepted?
    ensures Sent(e, replies) == Sent(e1, replies[j..])
    decreases |replies|
  {
    if j == 0 {
      e1 := e;
      assert replies[0..] == replies;
    } else {
      e1 := SentTail(Attempted(e, replies[0]), replies[1..], j - 1);
      assert replies[1..][j - 1..] == replies[j..];
    }
  }

  /** A body that is not a valid result counts as a success and then as a
      failure, so only what comes after the last such reply adds up: the count
      starts again from zero there. The worker then stays listed exactly if
      nothing comes after it and no 503 struck the worker out before. */
  lemma MalformedRestartsCount(e: Entry, replies: seq<Reply>, j: nat)
    requires j < |replies| && replies[j].Malformed? && forall i :: 0 <= i < |replies| ==> !replies[i].Accepted?
    requires forall i :: j < i < |replies| ==> !replies[i].Malformed?
    ensures Sent(e, replies).conn.failures == (|replies| - j) + CountOverloaded(replies[j + 1..]) + 1
    ensures Sent(e, replies).listed <==> e.listed && j == |replies| - 1 && !StruckOut(e.conn.failures, replies)
  {
    var e1 := SentTail(e, replies, j);
    assert replies[j..][1..] == replies[j + 1..];
    FailedRequestCounts(Attempted(e1, replies[j]), replies[j + 1..]);
    ListedAfterFailureExactly(e, replies);
  }

  /** With at least one retry, a request that fails on every attempt leaves a
      listed worker listed exactly if its last reply was a success with an
      invalid body and no 503 came while two failures or more were counted. */
  lemma FailedRequestEjectsExactly(e: Entry, replies: seq<Reply>)
    requires e.conn.failures >= 0 && |replies| >= 2
    requires forall i :: 0 <= i < |replies| ==> !replies[i].Accepted?
    ensures Sent(e, replies).listed <==>
              e.listed && replies[|replies| - 1].Malformed? && !StruckOut(e.conn.failures, replies)
    ensures e.listed && !Sent(e, replies).listed ==> Sent(e, replies).conn.status == Unhealthy
  {
    ListedAfterFailureExactly(e, replies);
    CountedBelow(e.conn.failures, replies);
  }

  /** So only an invalid body in the last reply can save the worker. */
  lemma OnlyInvalidBodySaves(e: Entry, replies: seq<Reply>)
    requires e.conn.failures >= 0 && |replies| >= 2
    requires forall i :: 0 <= i < |replies| ==> !replies[i].Accepted?
    requires !replies[|replies| - 1].Malformed?
    ensures !Sent(e, replies).listed
  {
    FailedRequestEjectsExactly(e, replies);
  }

  /** It can: a request fails on every attempt and leaves its worker healthy. */
  lemma AllFailedButStillListed(first: real, second: real)
    ensures var e := Entry(NEW_CONN.(status := Healthy), true);
            var replies := [Refused(first), Malformed(second)];
            && !Delivered(replies)
            && Sent(e, replies).listed && Sent(e, replies).conn.failures == 2
  {
    var replies := [Refused(first), Malformed(second)];
    var e := Entry(NEW_CONN.(status := Healthy), true);
    assert !StruckOut(CountAfter(0, replies[0]), replies[1..]);
    FailedRequestEjectsExactly(e, replies);
    ListedAfterFailureExactly(e, replies);
    CountedBelow(0, replies);
  }

  // ------------------------------------------------- requests of every kind

  /** The request takes its worker off the list: a 503 at two failures or more on
      the way, or, if no attempt delivers, a third failure at the end. */
  predicate Ejects(failures: int, replies: seq<Reply>)
    decreases |replies|
  {
    if replies == [] then failures + 1 >= 3
    else
      || (replies[0].Overloaded? && failures >= 2)
      || (!replies[0].Accepted? && Ejects(CountAfter(failures, replies[0]), replies[1..]))
  }

  /** A worker is listed after a request exactly if it was and is not ejected, and
      Unhealthy if it is ejected, whatever it was before. */
  lemma {:induction false} SentListedExactly(e: Entry, replies: seq<Reply>)
    ensures Sent(e, replies).listed <==> e.listed && !Ejects(e.conn.failures, replies)
    ensures Sent(e, replies).conn.status == if Ejects(e.conn.failures, replies) then Unhealthy else e.conn.status
    decreases |replies|
  {
    if replies != [] && !replies[0].Accepted? {
      var e1 := Attempted(e, replies[0]);
      SentListedExactly(e1, replies[1..]);
      if replies[0].Overloaded? && e.conn.failures >= 2 { UnhealthyStays(e1, replies[1..]); }
    }
  }

  /** What the attempts add to the request counter, up to the first that
      delivers: one each, and two for a response with an invalid body. */
  function Counts(replies: seq<Reply>): nat {
    if replies == [] then 0
    else if replies[0].Accepted? then 1
    else (if replies[0].Malformed? then 2 else 1) + Counts(replies[1..])
  }

  /** The times of the responses, up to the first that delivers. */
  function Timed(replies: seq<Reply>): seq<real> {
    if replies == [] then []
    else if replies[0].Accepted? then [replies[0].ms]
    else (if replies[0].Malformed? then [replies[0].ms] else []) + Timed(replies[1..])
  }

  /** Every attempt is counted, and every response with its time, in order. */
  lemma {:induction false} SentCounts(e: Entry, replies: seq<Reply>)
    ensures var c := Sent(e, replies).conn;
            && c.totalRequests == e.conn.totalRequests + Counts(replies)
            && c.successfulRequests == e.conn.successfulRequests + |Timed(replies)|
    decreases |replies|
  {
    if replies != [] && !replies[0].Accepted? { SentCounts(Attempted(e, replies[0]), replies[1..]); }
  }

  lemma {:induction false} SentTimes(e: Entry, replies: seq<Reply>)
    ensures Sent(e, replies).conn.times == e.conn.times + Timed(replies)
    decreases |replies|
  {
    if replies != [] && !replies[0].Accepted? { SentTimes(Attempted(e, replies[0]), replies[1..]); }
  }

  /** A delivered request leaves no failures. */
  lemma {:induction false} DeliveredResets(e: Entry, replies: seq<Reply>)
    requires Delivered(replies)
    ensures Sent(e, replies).conn.failures == 0
    decreases |replies|
  {
    if !replies[0].Accepted? {
      var i :| 0 <= i < |replies| && replies[i].Accepted?;
      assert replies[1..][i - 1].Accepted?;
      DeliveredResets(Attempted(e, replies[0]), replies[1..]);
    }
  }

  // ------------------------------------------------------------------- pool

  datatype State = State(workers: map<string, Conn>, healthy: set<string>)

  datatype Health = Well | Ill | NoAnswer

  datatype Step =
    | Add(id: string)
    | Remove(id: string)
    | Check(id: string, health: Health)
    | Send(id: string, replies: seq<Reply>)
    | Stream(id: string, completes: bool, ms: real)

  function EntryOf(s: State, id: string): Entry
    requires id in s.workers
  {
    Entry(s.workers[id], id in s.healthy)
  }

  function WithEntry(s: State, id: string, e: Entry): State {
    State(s.workers[id := e.conn], if e.listed then s.healthy + {id} else s.healthy - {id})
  }

  function CheckedEntry(e: Entry, h: Health): Entry {
    match h
    case Well => Entry(e.conn.(status := Healthy, failures := 0), true)
    case Ill => Entry(e.conn.(status := Unhealthy), false)
    case NoAnswer => Entry(e.conn.(status := Unhealthy, failures := e.conn.failures + 1), false)
  }

  /** A stream is tried once and never ejects. */
  function Streamed(e: Entry, completes: bool, ms: real): Entry {
    e.(conn := if completes then Succeeded(e.conn, ms) else Missed(e.conn))
  }

  /** Steps on a worker that is not registered raise or do nothing. */
  function Apply(s: State, step: Step): State {
    match step
    case Add(id) => s.(workers := s.workers[id := NEW_CONN])
    case Remove(id) => if id in s.workers then State(s.workers - {id}, s.healthy - {id}) else s
    case Check(id, h) => if id in s.workers then WithEntry(s, id, CheckedEntry(EntryOf(s, id), h)) else s
    case Send(id, replies) => if id in s.workers then WithEntry(s, id, Sent(EntryOf(s, id), replies)) else s
    case Stream(id, ok, ms) => if id in s.workers then WithEntry(s, id, Streamed(EntryOf(s, id), ok, ms)) else s
  }

  // ------------------------------------------------------------- the average

  function MovingAverage(times: seq<real>): real {
    if times == [] then 0.0 else NextAverage(MovingAverage(times[..|times| - 1]), times[|times| - 1])
  }

  /** A new time moves the average a tenth of the way, or, from zero, all of it. */
  lemma AverageMoves(average: real, ms: real)
    ensures average != 0.0 ==> 10.0 * (NextAverage(average, ms) - average) == ms - average
    ensures average == 0.0 ==> NextAverage(average, ms) == ms
  {
  }

  /** A distance cut by a tenth, `k` times over. */
  function Shrunk(distance: real, k: nat): real {
    if k == 0 then distance else 0.9 * Shrunk(distance, k - 1)
  }

  function Repeated(times: seq<real>, ms: real, k: nat): seq<real> {
    if k == 0 then times else Repeated(times, ms, k - 1) + [ms]
  }

  /** With `k` more responses of the same time the distance to it shrinks by a
      tenth `k` times. */
  lemma {:induction false} AverageApproaches(times: seq<real>, ms: real, k: nat)
    requires MovingAverage(times) > 0.0 && ms > 0.0
    ensures MovingAverage(Repeated(times, ms, k)) > 0.0
    ensures MovingAverage(Repeated(times, ms, k)) - ms == Shrunk(MovingAverage(times) - ms, k)
  {
    if k > 0 {
      AverageApproaches(times, ms, k - 1);
      AverageOfLonger(Repeated(times, ms, k - 1), ms);
    }
  }

  lemma AverageOfLonger(times: seq<real>, ms: real)
    ensures MovingAverage(times + [ms]) == NextAverage(MovingAverage(times), ms)
  {
    assert (times + [ms])[..|times|] == times;
  }

  /** The moving average lies between any bounds on the successful times, even
      when it passes through zero and starts over. */
  lemma {:induction false} AverageInRange(times: seq<real>, least: real, greatest: real)
    requires times != [] && forall t :: t in times ==> least <= t <= greatest
    ensures least <= MovingAverage(times) <= greatest
  {
    var front, last := times[..|times| - 1], times[|times| - 1];
    assert last in times;
    if front != [] {
      assert forall t :: t in front ==> t in times;
      AverageInRange(front, least, greatest);
    }
  }

  function Run(steps: seq<Step>): State {
    if steps == [] then State(map[], {}) else Apply(Run(steps[..|steps| - 1]), steps[|steps| - 1])
  }

  // ------------------------------------------------------ who is listed

  /** What a health check does to a registered worker; one that is not
      registered is not made one. */
  lemma CheckDecides(s: State, id: string, h: Health)
    ensures var s' := Apply(s, Check(id, h));
            if id !in s.workers then s' == s
            else
              && s'.workers.Keys == s.workers.Keys
              && (id in s'.healthy <==> h.Well?)
              && s'.workers[id].status == (if h.Well? then Healthy else Unhealthy)
              && s'.workers[id].failures == (if h.Well? then 0 else s.workers[id].failures + if h.NoAnswer? then 1 else 0)
              && forall i :: i != id ==> (i in s'.healthy <==> i in s.healthy)
  {
  }

  /** A stream counts once, resets or adds to the failures, and leaves the lists
      alone; so does not a new connection, which starts from nothing. */
  lemma StreamAndAddCount(s: State, id: string, completes: bool, ms: real)
    ensures var t := Apply(s, Add(id));
            && id in t.workers && t.healthy == s.healthy
            && t.workers[id].status == Unknown && t.workers[id].failures == 0 && t.workers[id].totalRequests == 0
            && t.workers[id].times == []
    ensures id in s.workers ==>
              var c, d := s.workers[id], Apply(s, Stream(id, completes, ms)).workers[id];
              && Apply(s, Stream(id, completes, ms)).healthy == s.healthy
              && d.totalRequests == c.totalRequests + 1 && d.status == c.status
              && d.failures == (if completes then 0 else c.failures + 1)
              && d.times == if completes then c.times + [ms] else c.times
  {
  }

  /** The step takes the worker off the list: an unfavourable check, a request
      that ejects it, or its removal. */
  predicate Delists(s: State, step: Step, id: string) {
    id in s.workers &&
    match step
    case Remove(i) => i == id
    case Check(i, h) => i == id && !h.Well?
    case Send(i, replies) => i == id && Ejects(s.workers[id].failures, replies)
    case _ => false
  }

  predicate Lists(s: State, step: Step, id: string) {
    step == Check(id, Well) && id in s.workers
  }

  lemma StepLists(s: State, step: Step, id: string)
    requires s.healthy <= s.workers.Keys
    ensures Apply(s, step).healthy <= Apply(s, step).workers.Keys
    ensures id in Apply(s, step).healthy <==> Lists(s, step, id) || (id in s.healthy && !Delists(s, step, id))
  {
    match step
    case Send(i, replies) => if i in s.workers { SentListedExactly(EntryOf(s, i), replies); }
    case _ =>
  }

  ghost predicate ListedSince(steps: seq<Step>, id: string, j: nat) {
    && j < |steps| && Lists(Run(steps[..j]), steps[j], id)
    && forall m :: j < m < |steps| ==> !Delists(Run(steps[..m]), steps[m], id)
  }

  lemma ListedSinceFront(steps: seq<Step>, id: string, j: nat)
    requires steps != [] && j < |steps| - 1
    ensures var n := |steps| - 1;
            ListedSince(steps, id, j) <==> ListedSince(steps[..n], id, j) && !Delists(Run(steps[..n]), steps[n], id)
  {
    var n := |steps| - 1;
    assert forall m :: 0 <= m < n ==> steps[..n][..m] == steps[..m] && steps[..n][m] == steps[m];
  }

  /** Over every run a worker is listed exactly if some check found it well while
      it was registered, and since then no check, request or removal took it off
      the list. */
  lemma {:induction false} RunListsExactly(steps: seq<Step>, id: string)
    ensures Run(steps).healthy <= Run(steps).workers.Keys
    ensures id in Run(steps).healthy <==> exists j :: ListedSince(steps, id, j)
  {
    if steps != [] {
      var n := |steps| - 1;
      var front := steps[..n];
      RunListsExactly(front, id);
      StepLists(Run(front), steps[n], id);
      if Lists(Run(front), steps[n], id) {
        assert ListedSince(steps, id, n);
      } else if id in Run(steps).healthy {
        var j :| ListedSince(front, id, j);
        ListedSinceFront(steps, id, j);
      } else if j :| ListedSince(steps, id, j) {
        ListedSinceFront(steps, id, j);
      }
    }
  }

  // ---------------------------------------------------------------- invariant

  ghost predicate Consistent(c: Conn) {
    c.failures >= 0 && c.average == MovingAverage(c.times) && c.successfulRequests == |c.times|
    && c.successfulRequests <= c.totalRequests
  }

  predicate EntryOk(e: Entry) {
    e.listed ==> e.conn.status == Healthy && e.conn.failures < EJECT_AT
  }

  /** Every healthy worker is registered, HEALTHY and below three failures. */
  ghost predicate PoolOk(s: State) {
    && s.healthy <= s.workers.Keys
    && (forall id :: id in s.workers ==> Consistent(s.workers[id]) && EntryOk(EntryOf(s, id)))
  }

  lemma SucceededConsistent(c: Conn, ms: real)
    requires Consistent(c)
    ensures Consistent(Succeeded(c, ms))
  {
    assert (c.times + [ms])[..|c.times|] == c.times;
  }

  lemma {:induction false} SentConsistent(e: Entry, replies: seq<Reply>)
    requires Consistent(e.conn)
    ensures Consistent(Sent(e, replies).conn)
    ensures (e.listed ==> e.conn.status == Healthy) ==> EntryOk(Sent(e, replies))
    decreases |replies|
  {
    if replies != [] {
      if replies[0].Accepted? || replies[0].Malformed? { SucceededConsistent(e.conn, replies[0].ms); }
      if !replies[0].Accepted? { SentConsistent(Attempted(e, replies[0]), replies[1..]); }
    }
  }

  /** Two steps can break the invariant. Adding keeps it exactly if no healthy
      worker is replaced; a stream exactly unless it fails on a healthy worker
      that already has two failures. */
  predicate Safe(s: State, step: Step) {
    match step
    case Add(id) => id !in s.healthy
    case Stream(id, ok, _) => ok || id !in s.healthy || id !in s.workers || s.workers[id].failures < 2
    case _ => true
  }

  lemma EntryStepOk(s: State, id: string, e: Entry)
    requires PoolOk(s) && id in s.workers && Consistent(e.conn)
    ensures PoolOk(WithEntry(s, id, e)) <==> EntryOk(e)
  {
    var s' := WithEntry(s, id, e);
    assert EntryOf(s', id) == e;
    forall i | i in s.workers && i != id ensures EntryOf(s', i) == EntryOf(s, i) {
    }
  }

  lemma StepKeepsPoolExactly(s: State, step: Step)
    requires PoolOk(s)
    ensures PoolOk(Apply(s, step)) <==> Safe(s, step)
  {
    match step
    case Add(id) =>
      var s' := Apply(s, step);
      assert EntryOf(s', id) == Entry(NEW_CONN, id in s.healthy);
      forall i | i in s.workers && i != id ensures EntryOf(s', i) == EntryOf(s, i) {
      }
    case Remove(id) =>
      var s' := Apply(s, step);
      forall i | i in s'.workers ensures EntryOf(s', i) == EntryOf(s, i) {
      }
    case Check(id, h) =>
      if id in s.workers { EntryStepOk(s, id, CheckedEntry(EntryOf(s, id), h)); }
    case Send(id, replies) =>
      if id in s.workers {
        SentConsistent(EntryOf(s, id), replies);
        EntryStepOk(s, id, Sent(EntryOf(s, id), replies));
      }
    case Stream(id, ok, ms) =>
      if id in s.workers {
        if ok { SucceededConsistent(s.workers[id], ms); }
        EntryStepOk(s, id, Streamed(EntryOf(s, id), ok, ms));
      }
  }

  /** Over every run of safe steps healthy workers are registered, HEALTHY and
      below three failures. */
  lemma {:induction false} RunKeepsPool(steps: seq<Step>)
    requires forall k :: 0 <= k < |steps| ==> Safe(Run(steps[..k]), steps[k])
    ensures var s := Run(steps);
            && PoolOk(s)
            && (forall id :: id in s.healthy ==>
                  id in s.workers && s.workers[id].status == Healthy && s.workers[id].failures < EJECT_AT)
  {
    if steps != [] {
      var before := steps[..|steps| - 1];
      assert forall k :: 0 <= k < |before| ==> before[..k] == steps[..k];
      RunKeepsPool(before);
      StepKeepsPoolExactly(Run(before), steps[|steps| - 1]);
    }
    var s := Run(steps);
    forall id | id in s.healthy ensures s.workers[id].status == Healthy && s.workers[id].failures < EJECT_AT {
      assert EntryOk(EntryOf(s, id));
    }
  }

  lemma SafeUpTo(steps: seq<Step>, k: nat)
    requires k <= |steps| && forall j :: 0 <= j < k ==> Safe(Run(steps[..j]), steps[j])
    ensures PoolOk(Run(steps[..k]))
  {
    assert forall j :: 0 <= j < k ==> steps[..k][..j] == steps[..j];
    RunKeepsPool(steps[..k]);
  }

  lemma UnsafeBreaks(steps: seq<Step>, k: nat)
    requires k < |steps| && !Safe(Run(steps[..k]), steps[k])
    ensures !PoolOk(Run(steps[..k])) || !PoolOk(Run(steps[..k + 1]))
  {
    assert steps[..k + 1][..k] == steps[..k];
    if PoolOk(Run(steps[..k])) { StepKeepsPoolExactly(Run(steps[..k]), steps[k]); }
  }

  /** The pool is in order at every point up to now exactly if every step so far
      was safe. */
  lemma RunKeepsPoolExactly(steps: seq<Step>)
    ensures (forall k :: 0 <= k <= |steps| ==> PoolOk(Run(steps[..k])))
            <==> (forall k :: 0 <= k < |steps| ==> Safe(Run(steps[..k]), steps[k]))
  {
    if k :| 0 <= k < |steps| && !Safe(Run(steps[..k]), steps[k]) {
      UnsafeBreaks(steps, k);
    } else {
      forall k | 0 <= k <= |steps| ensures PoolOk(Run(steps[..k])) { SafeUpTo(steps, k); }
    }
  }

  lemma RunPush(steps: seq<Step>, step: Step)
    ensures Run(steps + [step]) == Apply(Run(steps), step)
  {
    assert (steps + [step])[..|steps|] == steps;
  }

  lemma Checked(id: string) returns (steps: seq<Step>)
    ensures steps == [Add(id), Check(id, Well)]
    ensures Run(steps) == State(map[id := NEW_CONN.(status := Healthy)], {id})
  {
    steps := [Add(id), Check(id, Well)];
    RunPush([], Add(id));
    RunPush([Add(id)], Check(id, Well));
    assert steps == [Add(id)] + [Check(id, Well)] && [] + [Add(id)] == [Add(id)];
  }

  /** Adding a healthy worker again leaves it listed but not HEALTHY. */
  lemma AddAgainBreaksPool(id: string)
    ensures var s := Run([Add(id), Check(id, Well)] + [Add(id)]);
            id in s.healthy && id in s.workers && s.workers[id].status == Unknown && !PoolOk(s)
  {
    var steps := Checked(id);
    RunPush(steps, Add(id));
    var s := Run(steps + [Add(id)]);
    assert EntryOf(s, id) == Entry(NEW_CONN, true);
  }

  /** Three failing streams leave a worker listed that has three failures. */
  lemma StreamsBreakPool(id: string, ms: real)
    ensures var fails := Stream(id, false, ms);
            var s := Run([Add(id), Check(id, Well)] + [fails] + [fails] + [fails]);
            id in s.healthy && id in s.workers && s.workers[id].failures == EJECT_AT && !PoolOk(s)
  {
    var fails := Stream(id, false, ms);
    var steps := Checked(id);
    RunPush(steps, fails);
    RunPush(steps + [fails], fails);
    RunPush(steps + [fails] + [fails], fails);
    var s := Run(steps + [fails] + [fails] + [fails]);
    assert EntryOf(s, id).listed && s.workers[id].failures == 3;
  }

  ghost predicate AllConsistent(s: State) {
    forall id :: id in s.workers ==> Consistent(s.workers[id])
  }

  lemma StepKeepsConsistent(s: State, step: Step)
    requires AllConsistent(s)
    ensures AllConsistent(Apply(s, step))
  {
    match step
    case Send(id, replies) => if id in s.workers { SentConsistent(EntryOf(s, id), replies); }
    case Stream(id, ok, ms) => if id in s.workers && ok { SucceededConsistent(s.workers[id], ms); }
    case _ =>
  }

  lemma {:induction false} RunConsistent(steps: seq<Step>)
    ensures AllConsistent(Run(steps))
  {
    if steps != [] {
      RunConsistent(steps[..|steps| - 1]);
      StepKeepsConsistent(Run(steps[..|steps| - 1]), steps[|steps| - 1]);
    }
  }

  /** In every run, safe or not, each average lies between the least and greatest
      successful time. */
  lemma RunAverageInRange(steps: seq<Step>, id: string, least: real, greatest: real)
    requires id in Run(steps).workers && Run(steps).workers[id].times != []
    requires forall t :: t in Run(steps).workers[id].times ==> least <= t <= greatest
    ensures least <= Run(steps).workers[id].average <= greatest
  {
    RunConsistent(steps);
    AverageInRange(Run(steps).workers[id].times, least, greatest);
  }
}
