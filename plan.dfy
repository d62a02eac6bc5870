/**
 * Plan extraction: the per-tick action sequence obtained by walking from a node back
 * to the root and expanding every macro-action into `repetitions` copies.
 */
module Plans {
  import opened Wrappers
  import opened World
  import opened SearchNodes

  /** Number of run-right actions in the plan used when there is no best node. */
  const FallbackLength: nat := 10

  function Repeat(a: Action, n: nat): (r: seq<Action>)
    ensures |r| == n && forall k :: 0 <= k < n ==> r[k] == a
  {
    seq(n, _ => a)
  }

  /** The plan of the path from the root to node i in root-to-leaf order; the root contributes nothing. */
  function PathPlan(nodes: seq<Node>, i: nat): seq<Action>
    requires ArenaOk(nodes) && i < |nodes|
    decreases i
  {
    assert NodeOk(nodes, i);
    match nodes[i].parent
    case None => []
    case Some(q) => PathPlan(nodes, q) + Repeat(nodes[i].action, nodes[i].repetitions)
  }

  /** extractPlan's result for a possibly-null best node. */
  function PlanFor(nodes: seq<Node>, best: Option<nat>): seq<Action>
    requires ArenaOk(nodes) && (best.Some? ==> best.value < |nodes|)
  {
    if best.None? then Repeat(RunRight, FallbackLength) else PathPlan(nodes, best.value)
  }

  /**
   * Without a best node the plan is FallbackLength run-right actions; with one it has
   * as many actions as ticks elapsed at that node and starts with the plan of every
   * ancestor of it.
   */
  lemma PlanForCases(nodes: seq<Node>, best: Option<nat>)
    requires ArenaOk(nodes) && (best.Some? ==> best.value < |nodes|)
    ensures best.None? ==>
              |PlanFor(nodes, best)| == FallbackLength &&
              forall k :: 0 <= k < |PlanFor(nodes, best)| ==> PlanFor(nodes, best)[k] == RunRight
    ensures best.Some? ==>
              |PlanFor(nodes, best)| == nodes[best.value].timeElapsed &&
              forall a :: 0 <= a < |nodes| && IsAncestor(nodes, a, best.value) ==>
                PathPlan(nodes, a) <= PlanFor(nodes, best)
  {
    if best.Some? {
      PathPlanLength(nodes, best.value);
      forall a | 0 <= a < |nodes| && IsAncestor(nodes, a, best.value)
        ensures PathPlan(nodes, a) <= PlanFor(nodes, best)
      {
        AncestorPlanIsPrefix(nodes, a, best.value);
      }
    }
  }

  /** Node a lies on the path from node i to the root (i included). */
  predicate IsAncestor(nodes: seq<Node>, a: nat, i: nat)
    requires ArenaOk(nodes) && i < |nodes|
    decreases i
  {
    assert NodeOk(nodes, i);
    a == i || (nodes[i].parent.Some? && IsAncestor(nodes, a, nodes[i].parent.value))
  }

  /** The plan of a node has as many actions as ticks elapsed at the node: the sum of the repetitions on its path. */
  lemma {:induction false} PathPlanLength(nodes: seq<Node>, i: nat)
    requires ArenaOk(nodes) && i < |nodes|
    ensures |PathPlan(nodes, i)| == nodes[i].timeElapsed
    decreases i
  {
    assert NodeOk(nodes, i);
    match nodes[i].parent
    case None =>
    case Some(q) => PathPlanLength(nodes, q);
  }

  /** A non-root node's plan is its parent's plan followed by its own action for its repetition count. */
  lemma PathPlanBlock(nodes: seq<Node>, i: nat)
    requires ArenaOk(nodes) && i < |nodes| && nodes[i].parent.Some?
    ensures var q := nodes[i].parent.value;
            q < i &&
            (var t := nodes[q].timeElapsed;
             t <= |PathPlan(nodes, i)| &&
             PathPlan(nodes, i)[..t] == PathPlan(nodes, q) &&
             PathPlan(nodes, i)[t..] == Repeat(nodes[i].action, nodes[i].repetitions))
  {
    assert NodeOk(nodes, i);
    PathPlanLength(nodes, nodes[i].parent.value);
  }

  /** The plan of any ancestor is a prefix of the node's plan: actions come in root-to-leaf order. */
  lemma {:induction false} AncestorPlanIsPrefix(nodes: seq<Node>, a: nat, i: nat)
    requires ArenaOk(nodes) && i < |nodes| && IsAncestor(nodes, a, i)
    ensures a < |nodes| && PathPlan(nodes, a) <= PathPlan(nodes, i)
    decreases i
  {
    assert NodeOk(nodes, i);
    if a != i {
      var q := nodes[i].parent.value;
      AncestorPlanIsPrefix(nodes, a, q);
      assert PathPlan(nodes, i) == PathPlan(nodes, q) + Repeat(nodes[i].action, nodes[i].repetitions);
    }
  }

  /**
   * Tick k of a node's plan is the action of the ancestor whose time window
   * [parent's elapsed, own elapsed) contains k.
   */
  lemma {:induction false} PlanActionAt(nodes: seq<Node>, i: nat, k: nat)
    requires ArenaOk(nodes) && i < |nodes| && k < |PathPlan(nodes, i)|
    ensures exists a :: 0 <= a < |nodes| && IsAncestor(nodes, a, i) && nodes[a].parent.Some? &&
                        OwnsTick(nodes, a, k) && PathPlan(nodes, i)[k] == nodes[a].action
    decreases i
  {
    assert NodeOk(nodes, i);
    var q := nodes[i].parent.value;
    PathPlanLength(nodes, q);
    PathPlanLength(nodes, i);
    var pre := PathPlan(nodes, q);
    assert PathPlan(nodes, i) == pre + Repeat(nodes[i].action, nodes[i].repetitions);
    if k < |pre| {
      PlanActionAt(nodes, q, k);
      var a :| 0 <= a < |nodes| && IsAncestor(nodes, a, q) && nodes[a].parent.Some? &&
               OwnsTick(nodes, a, k) && pre[k] == nodes[a].action;
      assert IsAncestor(nodes, a, i);
    } else {
      assert OwnsTick(nodes, i, k);
      assert IsAncestor(nodes, i, i);
    }
  }

  /** Non-root node a is the one holding tick k of the plan. */
  predicate OwnsTick(nodes: seq<Node>, a: nat, k: nat)
    requires ArenaOk(nodes) && a < |nodes| && nodes[a].parent.Some?
  {
    assert NodeOk(nodes, a);
    nodes[nodes[a].parent.value].timeElapsed <= k < nodes[a].timeElapsed
  }

  /** No action of an extracted plan presses left and right together. */
  lemma {:induction false} PlanNeverBothDirections(nodes: seq<Node>, best: Option<nat>)
    requires ArenaOk(nodes) && (best.Some? ==> best.value < |nodes|)
    ensures forall k :: 0 <= k < |PlanFor(nodes, best)| ==> !(PlanFor(nodes, best)[k].left && PlanFor(nodes, best)[k].right)
  {
    if best.Some? {
      PathPlanNeverBothDirections(nodes, best.value);
    }
  }

  lemma {:induction false} PathPlanNeverBothDirections(nodes: seq<Node>, i: nat)
    requires ArenaOk(nodes) && i < |nodes|
    ensures forall k :: 0 <= k < |PathPlan(nodes, i)| ==> !(PathPlan(nodes, i)[k].left && PathPlan(nodes, i)[k].right)
    decreases i
  {
    assert NodeOk(nodes, i);
    match nodes[i].parent
    case None =>
    case Some(q) =>
      PathPlanNeverBothDirections(nodes, q);
      assert PathPlan(nodes, i) == PathPlan(nodes, q) + Repeat(nodes[i].action, nodes[i].repetitions);
  }
}
