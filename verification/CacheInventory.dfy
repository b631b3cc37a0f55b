/** The in-memory registry of cache entries and its size accounting. */
module CacheInventory {
  import opened CacheKeys
  import opened Common
  import opened RegistryState

  type Entries = map<CacheKey, Meta>

  /** `overwritten` adds up the sizes of entries that were replaced under their
      key; the registry does not know it. */
  datatype State = State(entries: Entries, totalSize: int, overwritten: int)

  const EMPTY := State(map[], 0, 0)

  datatype Step = Add(entry: Meta) | Remove(key: CacheKey)

  function Apply(s: State, step: Step): State {
    match step
    case Add(e) =>
      State(s.entries[e.key := e], s.totalSize + e.sizeBytes,
            s.overwritten + if e.key in s.entries then s.entries[e.key].sizeBytes else 0)
    case Remove(k) =>
      if k in s.entries then State(s.entries - {k}, s.totalSize - s.entries[k].sizeBytes, s.overwritten) else s
  }

  function Run(steps: seq<Step>): State {
    if steps == [] then EMPTY else Apply(Run(steps[..|steps| - 1]), steps[|steps| - 1])
  }

  // ------------------------------------------------------------------- sums

  /** The total size of the entries that satisfy `which`, in any order. */
  ghost function SizeWhere(m: Entries, which: Meta -> bool): int
    decreases |m|
  {
    if m == map[] then 0
    else
      var k :| k in m;
      SizeWhere(m - {k}, which) + Share(m[k], which)
  }

  function Share(e: Meta, which: Meta -> bool): int {
    if which(e) then e.sizeBytes else 0
  }

  /** Any entry may be taken out first. */
  lemma {:induction false} SizeWithout(m: Entries, which: Meta -> bool, k: CacheKey)
    requires k in m
    ensures SizeWhere(m, which) == SizeWhere(m - {k}, which) + Share(m[k], which)
    decreases |m|
  {
    var j :| j in m && SizeWhere(m, which) == SizeWhere(m - {j}, which) + Share(m[j], which);
    if j != k {
      SizeWithout(m - {j}, which, k);
      SizeWithout(m - {k}, which, j);
      assert m - {j} - {k} == m - {k} - {j};
    }
  }

  lemma SizeWith(m: Entries, which: Meta -> bool, k: CacheKey, e: Meta)
    ensures SizeWhere(m[k := e], which) ==
            SizeWhere(m, which) + Share(e, which) - if k in m then Share(m[k], which) else 0
  {
    SizeWithout(m[k := e], which, k);
    assert m[k := e] - {k} == m - {k};
    if k in m { SizeWithout(m, which, k); } else { assert m - {k} == m; }
  }

  function Every(): Meta -> bool { (_: Meta) => true }

  function OnNode(node: string): Meta -> bool { (e: Meta) => e.node == node }

  function OnLevel(level: CacheLevel): Meta -> bool { (e: Meta) => e.level == level }

  ghost function LiveSize(m: Entries): int { SizeWhere(m, Every()) }

  ghost function NodeSize(m: Entries, node: string): int { SizeWhere(m, OnNode(node)) }

  ghost function LevelSize(m: Entries, level: CacheLevel): int { SizeWhere(m, OnLevel(level)) }

  ghost function NodesSize(m: Entries, nodes: set<string>): int
    decreases |nodes|
  {
    if nodes == {} then 0
    else
      var n :| n in nodes;
      NodeSize(m, n) + NodesSize(m, nodes - {n})
  }

  // ------------------------------------------------------------- properties

  /** In every run of additions and removals the running total is the live size
      plus everything that was ever overwritten. */
  lemma {:induction false} TotalIsLivePlusOverwritten(steps: seq<Step>)
    ensures var s := Run(steps); s.totalSize == LiveSize(s.entries) + s.overwritten
  {
    if steps != [] {
      var s, step := Run(steps[..|steps| - 1]), steps[|steps| - 1];
      TotalIsLivePlusOverwritten(steps[..|steps| - 1]);
      match step
      case Add(e) => SizeWith(s.entries, Every(), e.key, e);
      case Remove(k) => if k in s.entries { SizeWithout(s.entries, Every(), k); }
    }
  }

  /** The step adds over a live entry that has a size. */
  predicate Overwrites(s: State, step: Step) {
    step.Add? && step.entry.key in s.entries && s.entries[step.entry.key].sizeBytes != 0
  }

  ghost predicate TotalIsLive(steps: seq<Step>) {
    Run(steps).totalSize == LiveSize(Run(steps).entries)
  }

  ghost predicate NeverOverwrites(steps: seq<Step>) {
    forall i :: 0 <= i < |steps| ==> !Overwrites(Run(steps[..i]), steps[i])
  }

  ghost predicate SizesNotNegative(steps: seq<Step>) {
    forall i :: 0 <= i < |steps| && steps[i].Add? ==> steps[i].entry.sizeBytes >= 0
  }

  lemma NeverOverwritesFront(steps: seq<Step>)
    requires steps != []
    ensures var n := |steps| - 1;
            NeverOverwrites(steps) <==> NeverOverwrites(steps[..n]) && !Overwrites(Run(steps[..n]), steps[n])
  {
    var n := |steps| - 1;
    assert forall i :: 0 <= i < n ==> steps[..n][..i] == steps[..i] && steps[..n][i] == steps[i];
  }

  lemma {:induction false} OverwrittenGrows(steps: seq<Step>)
    ensures NeverOverwrites(steps) ==> Run(steps).overwritten == 0
    ensures SizesNotNegative(steps) ==>
              var s := Run(steps);
              && (forall k :: k in s.entries ==> s.entries[k].sizeBytes >= 0)
              && s.overwritten >= 0 && (s.overwritten == 0 ==> NeverOverwrites(steps))
  {
    if steps != [] {
      OverwrittenGrows(steps[..|steps| - 1]);
      NeverOverwritesFront(steps);
    }
  }

  lemma TotalIsLiveAt(steps: seq<Step>, k: nat)
    requires k <= |steps|
    ensures TotalIsLive(steps[..k]) <==> Run(steps[..k]).overwritten == 0
    ensures NeverOverwrites(steps) ==> TotalIsLive(steps[..k])
  {
    TotalIsLivePlusOverwritten(steps[..k]);
    if NeverOverwrites(steps) {
      assert forall i :: 0 <= i < k ==> steps[..k][..i] == steps[..i];
      OverwrittenGrows(steps[..k]);
    }
  }

  lemma OverwriteShows(steps: seq<Step>, k: nat)
    requires k < |steps| && Overwrites(Run(steps[..k]), steps[k])
    ensures !TotalIsLive(steps[..k]) || !TotalIsLive(steps[..k + 1])
  {
    assert steps[..k + 1][..k] == steps[..k];
    TotalIsLiveAt(steps, k);
    TotalIsLiveAt(steps, k + 1);
  }

  /** The running total is right at every point of a run exactly if no add ever
      hit a live entry with a size. Unless sizes are negative it never gets right
      again, so looking at the end is enough. */
  lemma TotalIsLiveExactly(steps: seq<Step>)
    ensures (forall k :: 0 <= k <= |steps| ==> TotalIsLive(steps[..k])) <==> NeverOverwrites(steps)
    ensures SizesNotNegative(steps) ==> (TotalIsLive(steps) <==> NeverOverwrites(steps))
  {
    OverwrittenGrows(steps);
    TotalIsLivePlusOverwritten(steps);
    if k :| 0 <= k < |steps| && Overwrites(Run(steps[..k]), steps[k]) {
      OverwriteShows(steps, k);
    } else {
      forall k | 0 <= k <= |steps| ensures TotalIsLive(steps[..k]) { TotalIsLiveAt(steps, k); }
    }
  }

  lemma {:induction false} NodesSizeWithout(m: Entries, nodes: set<string>, k: CacheKey)
    requires k in m
    ensures NodesSize(m, nodes) == NodesSize(m - {k}, nodes) + if m[k].node in nodes then m[k].sizeBytes else 0
    decreases |nodes|
  {
    if nodes != {} {
      var n :| n in nodes;
      NodesSizeSplit(m, nodes, n);
      SizeWithout(m, OnNode(n), k);
      NodesSizeWithout(m, nodes - {n}, k);
      NodesSizeSplit(m - {k}, nodes, n);
    }
  }

  lemma {:induction false} NodesSizeSplit(m: Entries, nodes: set<string>, n: string)
    requires n in nodes
    ensures NodesSize(m, nodes) == NodeSize(m, n) + NodesSize(m, nodes - {n})
    decreases |nodes|
  {
    var j :| j in nodes && NodesSize(m, nodes) == NodeSize(m, j) + NodesSize(m, nodes - {j});
    if j != n {
      NodesSizeSplit(m, nodes - {j}, n);
      NodesSizeSplit(m, nodes - {n}, j);
      assert nodes - {j} - {n} == nodes - {n} - {j};
    }
  }

  lemma {:induction false} NodesSizeOfNothing(nodes: set<string>)
    ensures NodesSize(map[], nodes) == 0
    decreases |nodes|
  {
    if nodes != {} {
      var n :| n in nodes;
      NodesSizeSplit(map[], nodes, n);
      NodesSizeOfNothing(nodes - {n});
    }
  }

  /** Adding up the sizes per node, over any set of nodes that covers the
      entries, gives the live size. */
  lemma {:induction false} NodesAddUp(m: Entries, nodes: set<string>)
    requires forall k :: k in m ==> m[k].node in nodes
    ensures NodesSize(m, nodes) == LiveSize(m)
    decreases |m|
  {
    if m == map[] {
      NodesSizeOfNothing(nodes);
    } else {
      var k :| k in m;
      NodesAddUp(m - {k}, nodes);
      NodesSizeWithout(m, nodes, k);
      SizeWithout(m, Every(), k);
    }
  }

  ghost function LevelsSize(m: Entries): int {
    LevelSize(m, L1Gpu) + LevelSize(m, L2Cpu) + LevelSize(m, L3Network) + LevelSize(m, L4Cold)
  }

  lemma LevelsSizeWithout(m: Entries, k: CacheKey)
    requires k in m
    ensures LevelsSize(m) == LevelsSize(m - {k}) + m[k].sizeBytes
  {
    SizeWithout(m, OnLevel(L1Gpu), k);
    SizeWithout(m, OnLevel(L2Cpu), k);
    SizeWithout(m, OnLevel(L3Network), k);
    SizeWithout(m, OnLevel(L4Cold), k);
  }

  /** And so does adding up the utilization per level. */
  lemma {:induction false} LevelsAddUp(m: Entries)
    ensures LevelsSize(m) == LiveSize(m)
    decreases |m|
  {
    if m != map[] {
      var k :| k in m;
      LevelsAddUp(m - {k});
      LevelsSizeWithout(m, k);
      SizeWithout(m, Every(), k);
    }
  }

  // ----------------------------------------------------------- the registry

  class CacheRegistry {
    var entries: Entries
    var totalCacheSizeBytes: int
    var lastUpdated: real
    ghost var overwritten: int

    constructor (now: real)
      ensures Value() == EMPTY
    {
      entries, totalCacheSizeBytes, lastUpdated, overwritten := map[], 0, now, 0;
    }

    ghost function Value(): State
      reads this
    {
      State(entries, totalCacheSizeBytes, overwritten)
    }

    method AddEntry(e: Meta, now: real)
      modifies this
      ensures Value() == Apply(old(Value()), Add(e)) && lastUpdated == now
    {
      if e.key in entries { overwritten := overwritten + entries[e.key].sizeBytes; }
      entries := entries[e.key := e];
      totalCacheSizeBytes := totalCacheSizeBytes + e.sizeBytes;
      lastUpdated := now;
    }

    method RemoveEntry(k: CacheKey, now: real) returns (removed: Option<Meta>)
      modifies this
      ensures Value() == Apply(old(Value()), Remove(k))
      ensures removed == if k in old(entries) then Some(old(entries)[k]) else None
      ensures lastUpdated == if removed.Some? then now else old(lastUpdated)
    {
      removed := if k in entries then Some(entries[k]) else None;
      if removed.Some? {
        entries := entries - {k};
        totalCacheSizeBytes := totalCacheSizeBytes - removed.value.sizeBytes;
        lastUpdated := now;
      }
    }
  }
}
