/** Sorting by a real key as Python does it, given as the order in which the
    places of the input come out: place `Ranking(keys)[0]` first, and so on.
    Equal keys come out in their original order. */
module StableSorting {

  /** Puts place `k` behind every place whose key is not greater. */
  function Insert(keys: seq<real>, r: seq<nat>, k: nat): (r': seq<nat>)
    requires k < |keys| && forall i :: 0 <= i < |r| ==> r[i] < |keys|
    ensures forall x: nat :: x in r' <==> x in r || x == k
    ensures |r'| == |r| + 1
  {
    if r == [] || keys[r[|r| - 1]] <= keys[k] then r + [k]
    else
      assert r == r[..|r| - 1] + [r[|r| - 1]];
      Insert(keys, r[..|r| - 1], k) + [r[|r| - 1]]
  }

  /** The first `n` places in sorted order. */
  function RankingOf(keys: seq<real>, n: nat): (r: seq<nat>)
    requires n <= |keys|
    ensures |r| == n && forall x: nat :: x in r <==> x < n
  {
    if n == 0 then []
    else
      var r := RankingOf(keys, n - 1);
      assert forall i :: 0 <= i < |r| ==> r[i] in r;
      Insert(keys, r, n - 1)
  }

  function Ranking(keys: seq<real>): (r: seq<nat>)
    ensures |r| == |keys| && forall x: nat :: x in r <==> x < |keys|
  {
    RankingOf(keys, |keys|)
  }

  /** Place `a` comes out before place `b`. */
  predicate Before(keys: seq<real>, a: nat, b: nat)
    requires a < |keys| && b < |keys|
  {
    keys[a] < keys[b] || (keys[a] == keys[b] && a < b)
  }

  ghost predicate Ordered(keys: seq<real>, r: seq<nat>) {
    && (forall i :: 0 <= i < |r| ==> r[i] < |keys|)
    && (forall i, j :: 0 <= i < j < |r| ==> Before(keys, r[i], r[j]))
  }

  lemma {:induction false} InsertKeepsOrder(keys: seq<real>, r: seq<nat>, k: nat)
    requires k < |keys| && Ordered(keys, r) && forall i :: 0 <= i < |r| ==> r[i] < k
    ensures Ordered(keys, Insert(keys, r, k))
  {
    if r != [] && keys[r[|r| - 1]] > keys[k] {
      var front, last := r[..|r| - 1], r[|r| - 1];
      InsertKeepsOrder(keys, front, k);
      var inner := Insert(keys, front, k);
      forall i | 0 <= i < |inner| ensures Before(keys, inner[i], last) {
        assert inner[i] in inner;
        if inner[i] != k { assert inner[i] in front; }
      }
    } else {
      forall i | 0 <= i < |r| ensures Before(keys, r[i], k) {
        assert i < |r| - 1 ==> Before(keys, r[i], r[|r| - 1]);
      }
    }
  }

  /** The output is in order of the keys, equal keys in their original order;
      in particular no place comes out twice. */
  lemma {:induction false} RankingOfOrdered(keys: seq<real>, n: nat)
    requires n <= |keys|
    ensures Ordered(keys, RankingOf(keys, n))
  {
    if n > 0 {
      RankingOfOrdered(keys, n - 1);
      var r := RankingOf(keys, n - 1);
      forall i | 0 <= i < |r| ensures r[i] < n - 1 { assert r[i] in r; }
      InsertKeepsOrder(keys, r, n - 1);
    }
  }

  lemma RankingOrdered(keys: seq<real>)
    ensures Ordered(keys, Ranking(keys))
  {
    RankingOfOrdered(keys, |keys|);
  }

  /** A greatest key in the last place comes out last. */
  lemma GreatestLast(keys: seq<real>)
    requires keys != [] && forall i :: 0 <= i < |keys| ==> keys[i] <= keys[|keys| - 1]
    ensures Ranking(keys)[|keys| - 1] == |keys| - 1
  {
    var r := RankingOf(keys, |keys| - 1);
    if r != [] { assert r[|r| - 1] in r; }
  }
}
