/**
 * The open list of the A* search: arena indices of pending nodes, scanned linearly
 * for the lowest cost.
 */
module OpenList {
  import opened SearchNodes

  /** Every pool entry names a non-root node of the arena. */
  predicate PoolOk(nodes: seq<Node>, pool: seq<nat>)
  {
    forall j :: 0 <= j < |pool| ==> pool[j] < |nodes| && nodes[pool[j]].parent.Some?
  }

  /** The slot pickBestPos holds after scanning the first n slots (strict `<`: ties keep the earlier). */
  function BestSoFar(nodes: seq<Node>, pool: seq<nat>, n: nat): (k: nat)
    requires 1 <= n <= |pool| && forall j :: 0 <= j < |pool| ==> pool[j] < |nodes|
    ensures k < n
  {
    if n == 1 then 0
    else
      var k := BestSoFar(nodes, pool, n - 1);
      if Cost(nodes[pool[n - 1]]) < Cost(nodes[pool[k]]) then n - 1 else k
  }

  /** The slot of the node pickBestPos returns. */
  function BestSlot(nodes: seq<Node>, pool: seq<nat>): nat
    requires 1 <= |pool| && forall j :: 0 <= j < |pool| ==> pool[j] < |nodes|
  {
    BestSoFar(nodes, pool, |pool|)
  }

  /** The slot found after n slots is a first minimum among them. */
  lemma {:induction false} BestSoFarIsFirstMinimum(nodes: seq<Node>, pool: seq<nat>, n: nat)
    requires 1 <= n <= |pool| && forall j :: 0 <= j < |pool| ==> pool[j] < |nodes|
    ensures var k := BestSoFar(nodes, pool, n);
            (forall j :: 0 <= j < n ==> Cost(nodes[pool[k]]) <= Cost(nodes[pool[j]])) &&
            (forall j :: 0 <= j < k ==> Cost(nodes[pool[k]]) < Cost(nodes[pool[j]]))
  {
    if n > 1 {
      BestSoFarIsFirstMinimum(nodes, pool, n - 1);
    }
  }

  function RemoveAt(s: seq<nat>, k: nat): seq<nat>
    requires k < |s|
  {
    s[..k] + s[k + 1..]
  }

  /**
   * pickBestPos: the returned node has a cost no greater than any pool member's and
   * strictly below every member before it; the first occurrence of it is removed and
   * the rest keeps its order.
   */
  method PickBestPos(nodes: seq<Node>, pool: seq<nat>) returns (best: nat, rest: seq<nat>)
    requires |pool| > 0 && forall j :: 0 <= j < |pool| ==> pool[j] < |nodes|
    ensures var k := BestSlot(nodes, pool); best == pool[k] && rest == RemoveAt(pool, k)
    ensures best in pool && |rest| == |pool| - 1
    ensures forall j :: 0 <= j < |pool| ==> Cost(nodes[best]) <= Cost(nodes[pool[j]])
    ensures forall j :: 0 <= j < BestSlot(nodes, pool) ==> Cost(nodes[best]) < Cost(nodes[pool[j]]) && pool[j] != best
    ensures multiset(rest) + multiset{best} == multiset(pool)
  {
    // AStarSimulator's pickBestPos starts from an infinite cost, so its first comparison always succeeds.
    var k := 0;
    var bestCost := Cost(nodes[pool[0]]);
    var i := 1;
    while i < |pool|
      invariant 1 <= i <= |pool|
      invariant k == BestSoFar(nodes, pool, i) && bestCost == Cost(nodes[pool[k]])
    {
      var c := Cost(nodes[pool[i]]);
      if c < bestCost {
        k, bestCost := i, c;
      }
      i := i + 1;
    }
    BestSoFarIsFirstMinimum(nodes, pool, |pool|);
    best := pool[k];
    rest := pool[..k] + pool[k + 1..];
    assert pool == pool[..k] + [pool[k]] + pool[k + 1..];
  }
}
