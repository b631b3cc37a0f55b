/** The affinity tracker of the routing engine: dictionaries updated in place
    by loops, proved against the steps of `AffinityState`. */
module AffinityTracker {
  import opened AffinityState
  import opened AffinityInvariants
  import opened AffinityScoring

  datatype Outcome = Done | IndexError

  class KVCacheAffinityTracker {
    const memoryWindowSeconds: real
    const maxEntries: int
    var prefixToNode: map<string, Location>
    var prefixOrder: seq<string>
    var nodeRecentPrefixes: map<string, seq<Stamp>>
    var activeRequests: map<string, ActiveRequest>

    constructor (memoryWindowMinutes: real := 30.0, maxEntries: int := 10000)
      ensures Value() == EMPTY
      ensures this.maxEntries == maxEntries && memoryWindowSeconds == memoryWindowMinutes * 60.0
    {
      this.memoryWindowSeconds := memoryWindowMinutes * 60.0;
      this.maxEntries := maxEntries;
      prefixToNode, prefixOrder, nodeRecentPrefixes, activeRequests := map[], [], map[], map[];
    }

    function Value(): State
      reads this
    {
      State(prefixToNode, prefixOrder, nodeRecentPrefixes, activeRequests)
    }

    function Settings(): Config {
      Config(memoryWindowSeconds, maxEntries)
    }

    /** `start` is the clock at the head of the call, `end` at its cleanup. */
    method RecordRequest(id: string, prefix: string, node: string, estimate: real, start: real, end: real)
      returns (outcome: Outcome)
      requires OrderMatches(Value())
      modifies this
      ensures Value() == Apply(old(Value()), Settings(), Record(id, prefix, node, estimate, start, end))
      ensures outcome.IndexError? <==>
                EvictionOverruns(BeforeEviction(old(Value()), Settings(), Record(id, prefix, node, estimate, start, end)), maxEntries)
    {
      TouchedOrder(Value(), id, prefix, node, estimate, start);
      NoteUse(id, prefix, node, estimate, start);
      outcome := CleanupOldEntries(end);
    }

    method NoteUse(id: string, prefix: string, node: string, estimate: real, now: real)
      modifies this
      ensures Value() == Touched(old(Value()), id, prefix, node, estimate, now)
    {
      if prefix in prefixToNode {
        prefixToNode := prefixToNode[prefix := Location(node, now, prefixToNode[prefix].accessCount + 1)];
      } else {
        prefixToNode := prefixToNode[prefix := Location(node, now, 1)];
        prefixOrder := prefixOrder + [prefix];
      }
      if node !in nodeRecentPrefixes {
        nodeRecentPrefixes := nodeRecentPrefixes[node := []];
      }
      nodeRecentPrefixes := nodeRecentPrefixes[node := Append(nodeRecentPrefixes[node], (prefix, now))];
      activeRequests := activeRequests[id := ActiveRequest(prefix, node, now, estimate)];
    }

    method GetCacheAffinityScore(prefix: string, node: string, now: real) returns (score: Score)
      ensures score == AffinityScore(Value(), memoryWindowSeconds, prefix, node, now)
    {
      if prefix in prefixToNode {
        var here := prefixToNode[prefix];
        return if here.node == node then Score(ExactMatch(now - here.lastSeen, here.accessCount)) else Score(0.1);
      }
      if node !in nodeRecentPrefixes {
        return Score(0.2);
      }
      var d := nodeRecentPrefixes[node];
      var best := 0.0;
      for i := 0 to |d|
        invariant BestSimilar(d[..i], prefix, now, memoryWindowSeconds) == Score(best)
      {
        assert d[..i + 1][..i] == d[..i];
        if now - d[i].1 <= memoryWindowSeconds {
          var similarity := CalculatePrefixSimilarity(prefix, d[i].0);
          if memoryWindowSeconds == 0.0 {
            ZeroDivisionStays(d, i + 1, prefix, now, memoryWindowSeconds);
            return ZeroDivision;
          }
          best := Max(best, Weight(similarity, now - d[i].1, memoryWindowSeconds));
        }
      }
      assert d[..|d|] == d;
      score := Score(best);
    }

    method CalculatePrefixSimilarity(a: string, b: string) returns (similarity: real)
      ensures similarity == Similarity(a, b)
    {
      if a == b { return 1.0; }
      var common := 0;
      while common < |a| && common < |b| && a[common] == b[common]
        invariant common <= |a| && common <= |b|
        invariant CommonPrefix(a, b) == common + CommonPrefix(a[common..], b[common..])
      {
        common := common + 1;
      }
      similarity := Min(1.0, common as real / 16.0);
    }

    method CompleteRequest(id: string, at: real)
      requires OrderMatches(Value())
      modifies this`activeRequests
      ensures Value() == Apply(old(Value()), Settings(), Complete(id, at))
    {
      if id in activeRequests {
        activeRequests := activeRequests - {id};
      }
    }

    method CleanupOldEntries(now: real) returns (outcome: Outcome)
      requires OrderMatches(Value())
      modifies this
      ensures OrderMatches(Purged(old(Value()), now, memoryWindowSeconds))
      ensures Value() == Evicted(Purged(old(Value()), now, memoryWindowSeconds), maxEntries)
      ensures outcome.IndexError? <==> EvictionOverruns(Purged(old(Value()), now, memoryWindowSeconds), maxEntries)
    {
      PurgedOrder(Value(), now, memoryWindowSeconds);
      PurgeAll(now);
      outcome := EvictLeastRecent();
    }

    method PurgeAll(now: real)
      requires OrderMatches(Value())
      modifies this
      ensures Value() == Purged(old(Value()), now, memoryWindowSeconds)
    {
      ghost var goal := Purged(Value(), now, memoryWindowSeconds);
      PurgePrefixes(now - memoryWindowSeconds);
      assert prefixToNode == goal.prefixes && prefixOrder == goal.order;
      PurgeDeques(now - memoryWindowSeconds);
      assert nodeRecentPrefixes == goal.recent;
      PurgeActive(now);
      assert activeRequests == goal.active;
    }

    /** `del` on the prefix dictionary. */
    method Forget(prefix: string)
      requires prefix in prefixToNode
      modifies this`prefixToNode, this`prefixOrder
      ensures prefixToNode == old(prefixToNode) - {prefix}
      ensures prefixOrder == KeepIn(old(prefixOrder), prefixToNode.Keys)
    {
      prefixToNode := prefixToNode - {prefix};
      prefixOrder := KeepIn(prefixOrder, prefixToNode.Keys);
    }

    /** Deletes the first `n` of `names`, one at a time; raises on reaching past
        the end of the list, with everything before that deleted. */
    method ForgetFirst(names: seq<string>, n: nat) returns (outcome: Outcome)
      requires forall p :: p in prefixOrder ==> p in prefixToNode
      requires Distinct(names) && forall p :: p in names ==> p in prefixToNode
      modifies this`prefixToNode, this`prefixOrder
      ensures prefixToNode == old(prefixToNode) - Members(FirstNames(names, n))
      ensures prefixOrder == KeepIn(old(prefixOrder), prefixToNode.Keys)
      ensures outcome.IndexError? <==> n > |names|
    {
      ghost var was, order := prefixToNode, prefixOrder;
      KeepInAll(order, was.Keys);
      assert was - Members(names[..0]) == was;
      for i := 0 to n
        invariant i <= |names|
        invariant prefixToNode == was - Members(names[..i])
        invariant prefixOrder == KeepIn(order, prefixToNode.Keys)
      {
        if i >= |names| {
          assert names[..i] == names;
          return IndexError;
        }
        ForgetStep(order, was, names, i);
        Forget(names[i]);
      }
      outcome := Done;
    }

    method PurgePrefixes(cutoff: real)
      requires OrderMatches(Value())
      modifies this`prefixToNode, this`prefixOrder
      ensures prefixToNode == FreshPrefixes(old(Value()), cutoff)
      ensures prefixOrder == KeepIn(old(prefixOrder), prefixToNode.Keys)
    {
      var toRemove := ListOlder(cutoff);
      ghost var was := prefixToNode;
      var outcome := ForgetFirst(toRemove, |toRemove|);
      OldGone(Value().(prefixes := was), cutoff, toRemove);
    }

    method ListOlder(cutoff: real) returns (older: seq<string>)
      requires OrderMatches(Value())
      ensures forall p :: p in older <==> p in prefixToNode && prefixToNode[p].lastSeen < cutoff
      ensures Distinct(older)
    {
      older := [];
      for i := 0 to |prefixOrder|
        invariant forall p :: p in older <==> p in prefixOrder[..i] && prefixToNode[p].lastSeen < cutoff
        invariant Distinct(older)
      {
        assert prefixOrder[i] !in prefixOrder[..i];
        assert prefixOrder[..i + 1] == prefixOrder[..i] + [prefixOrder[i]];
        if prefixToNode[prefixOrder[i]].lastSeen < cutoff {
          older := older + [prefixOrder[i]];
        }
      }
      assert prefixOrder[..|prefixOrder|] == prefixOrder;
    }

    method PurgeDeques(cutoff: real)
      modifies this`nodeRecentPrefixes
      ensures nodeRecentPrefixes == map n | n in old(nodeRecentPrefixes) :: DropOld(old(nodeRecentPrefixes)[n], cutoff)
    {
      ghost var was := nodeRecentPrefixes;
      var left := nodeRecentPrefixes.Keys;
      while left != {}
        invariant left <= nodeRecentPrefixes.Keys == was.Keys
        invariant forall n :: n in was ==> nodeRecentPrefixes[n] == if n in left then was[n] else DropOld(was[n], cutoff)
        decreases left
      {
        var n :| n in left;
        var d := nodeRecentPrefixes[n];
        while d != [] && d[0].1 < cutoff
          invariant DropOld(d, cutoff) == DropOld(was[n], cutoff)
        {
          d := d[1..];
        }
        nodeRecentPrefixes := nodeRecentPrefixes[n := d];
        left := left - {n};
      }
    }

    method PurgeActive(now: real)
      modifies this`activeRequests
      ensures activeRequests ==
        map r | r in old(activeRequests) && old(activeRequests)[r].estimatedCompletion >= now :: old(activeRequests)[r]
    {
      ghost var was := activeRequests;
      var left := activeRequests.Keys;
      while left != {}
        invariant left <= activeRequests.Keys <= was.Keys
        invariant forall r :: r in was ==> (r in activeRequests <==> r in left || was[r].estimatedCompletion >= now)
        invariant forall r :: r in activeRequests ==> activeRequests[r] == was[r]
        decreases left
      {
        var r :| r in left;
        if activeRequests[r].estimatedCompletion < now {
          activeRequests := activeRequests - {r};
        }
        left := left - {r};
      }
    }

    method EvictLeastRecent() returns (outcome: Outcome)
      requires OrderMatches(Value())
      modifies this`prefixToNode, this`prefixOrder
      ensures Value() == Evicted(old(Value()), maxEntries)
      ensures outcome.IndexError? <==> EvictionOverruns(old(Value()), maxEntries)
    {
      outcome := Done;
      if |prefixToNode| > maxEntries {
        ghost var was := Value();
        var sorted := ByAge(Value());
        VictimsInTurn(was);
        outcome := ForgetFirst(sorted, |sorted| - maxEntries + EVICTION_SLACK);
        EvictionDone(was, maxEntries, sorted, prefixToNode, prefixOrder);
        assert Value() == was.(prefixes := prefixToNode, order := prefixOrder);
      }
    }
  }

  lemma OldGone(s: State, cutoff: real, older: seq<string>)
    requires forall p :: p in older <==> p in s.prefixes && s.prefixes[p].lastSeen < cutoff
    ensures s.prefixes - Members(FirstNames(older, |older|)) == FreshPrefixes(s, cutoff)
  {
    assert FirstNames(older, |older|) == older;
  }

  lemma ForgetStep(order: seq<string>, m: map<string, Location>, names: seq<string>, i: nat)
    requires i < |names| && names[i] in m && Distinct(names)
    ensures var left := m - Members(names[..i]);
            && names[i] in left
            && left - {names[i]} == m - Members(names[..i + 1])
            && KeepIn(KeepIn(order, left.Keys), (left - {names[i]}).Keys) == KeepIn(order, (left - {names[i]}).Keys)
  {
    assert Members(names[..i + 1]) == Members(names[..i]) + {names[i]};
    KeepInTwice(order, (m - Members(names[..i])).Keys, (m - Members(names[..i]) - {names[i]}).Keys);
  }

  lemma {:induction false} ZeroDivisionStays(d: seq<Stamp>, i: nat, prefix: string, now: real, window: real)
    requires i <= |d| && BestSimilar(d[..i], prefix, now, window).ZeroDivision?
    ensures BestSimilar(d, prefix, now, window).ZeroDivision?
  {
    if i == |d| {
      assert d[..i] == d;
    } else {
      assert d[..|d| - 1][..i] == d[..i];
      ZeroDivisionStays(d[..|d| - 1], i, prefix, now, window);
    }
  }

  lemma EvictionDone(s: State, maxEntries: int, sorted: seq<string>, left: map<string, Location>, order: seq<string>)
    requires OrderMatches(s) && |s.prefixes| > maxEntries && sorted == ByAge(s)
    requires left == s.prefixes - Members(FirstNames(sorted, |sorted| - maxEntries + EVICTION_SLACK))
    requires order == KeepIn(s.order, left.Keys)
    ensures Evicted(s, maxEntries) == s.(prefixes := left, order := order)
    ensures EvictionOverruns(s, maxEntries) <==> |sorted| - maxEntries + EVICTION_SLACK > |sorted|
  {
    assert Excess(s, maxEntries) == |sorted| - maxEntries + EVICTION_SLACK;
    assert left == s.prefixes - Victims(s, maxEntries);
  }

  lemma VictimsInTurn(s: State)
    requires OrderMatches(s)
    ensures |s.order| == |s.prefixes|
    ensures Distinct(ByAge(s)) && forall p :: p in ByAge(s) ==> p in s.prefixes
  {
    DistinctCount(s.order, s.prefixes.Keys);
    ByAgeRanks(s);
  }
}
