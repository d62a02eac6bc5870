/**
 * The A* action planner (AStarSimulator): one search episode over macro-actions
 * from a world snapshot, the extraction of the best plan, and the receding-horizon
 * controller that replans from a predicted future state.
 */
module Planner {
  import opened Wrappers
  import opened World
  import opened SearchNodes
  import opened VisitedSet
  import opened OpenList
  import opened Plans

  /** maxRight: the distance right of the episode's start the search aims for. */
  const MaxRight: int := 4
  /** The lead furthest must have over best for the gap fallback. */
  const FurthestMargin: real := 20.0
  /** How far the simulated time may exceed the estimate before the node is requeued. */
  const Epsilon: real := 0.1
  /** planAhead of optimise: ticks to advance before the next episode. */
  const PlanAhead: nat := 2
  const DefaultStepsPerSearch: nat := 6

  /** The arena indices start, start + 1, ..., start + n - 1. */
  function Range(start: nat, n: nat): (r: seq<nat>)
    ensures |r| == n && forall j :: 0 <= j < n ==> r[j] == start + j
  {
    seq(n, j requires 0 <= j < n => start + j)
  }

  predicate HasSnapshot(nodes: seq<Node>, i: nat)
  {
    i < |nodes| && nodes[i].snapshot.Some?
  }

  lemma ExtendsKeepsSnapshot(a: seq<Node>, b: seq<Node>, i: nat)
    requires Extends(a, b) && HasSnapshot(a, i)
    ensures HasSnapshot(b, i)
  {
    assert Keeps(a[i], b[i]);
  }

  /** The state the search loop's dispatch leaves: arena, pool, closed list, and whether the node was accepted. */
  datatype Dispatched = Dispatched(nodes: seq<Node>, pool: seq<nat>, visited: seq<Entry>, good: bool)

  /**
   * The dispatch on a just-simulated node c (already removed from `pool`): drop it
   * when its remaining time is negative; requeue it with the visited-list penalty on
   * both times when it is not yet flagged and lies in the closed list; requeue it
   * with its estimate overwritten when the simulation is more than Epsilon worse than
   * estimated; otherwise accept it, recording it and appending its children.
   */
  function Dispatch(p: Physics, nodes: seq<Node>, pool: seq<nat>, visited: seq<Entry>, c: nat): Dispatched
    requires ArenaOk(nodes) && HasSnapshot(nodes, c)
  {
    var n := nodes[c];
    var s := n.snapshot.value;
    var rt := n.remainingTime;
    if rt < 0.0 then
      Dispatched(nodes, pool, visited, false)
    else if !n.isInVisitedList && InVisited(visited, s.x, s.y, n.timeElapsed) then
      var penalised := rt + VisitedListPenalty as real;
      Dispatched(nodes[c := n.(isInVisitedList := true, remainingTime := penalised, remainingTimeEstimated := penalised)],
                 pool + [c], visited, false)
    else if rt - n.remainingTimeEstimated > Epsilon then
      Dispatched(nodes[c := n.(remainingTimeEstimated := rt)], pool + [c], visited, false)
    else
      var kids := GenerateChildren(p, s, nodes, c);
      Dispatched(nodes + kids, pool + Range(|nodes|, |kids|), visited + [RecordOf(s.x, s.y, n.timeElapsed)], true)
  }

  /** The pool minus one slot still names only non-root arena nodes. */
  lemma RemoveKeepsPool(nodes: seq<Node>, pool: seq<nat>, k: nat)
    requires PoolOk(nodes, pool) && k < |pool|
    ensures PoolOk(nodes, RemoveAt(pool, k))
  {
    var r := RemoveAt(pool, k);
    forall j | 0 <= j < |r| ensures r[j] < |nodes| && nodes[r[j]].parent.Some? {
      if j < k { assert r[j] == pool[j]; } else { assert r[j] == pool[j + 1]; }
    }
  }

  lemma PoolExtends(a: seq<Node>, b: seq<Node>, pool: seq<nat>)
    requires PoolOk(a, pool) && Extends(a, b)
    ensures PoolOk(b, pool)
  {
    forall j | 0 <= j < |pool| ensures pool[j] < |b| && b[pool[j]].parent.Some? {
      assert Keeps(a[pool[j]], b[pool[j]]);
    }
  }

  /**
   * Every dispatch branch keeps the arena and the pool consistent, only evolves or
   * appends arena entries, only appends to the closed list (exactly one entry,
   * exactly on acceptance), and never clears the visited flag.
   */
  lemma DispatchKeepsArena(p: Physics, nodes: seq<Node>, pool: seq<nat>, visited: seq<Entry>, c: nat)
    requires ArenaOk(nodes) && PoolOk(nodes, pool) && HasSnapshot(nodes, c) && nodes[c].parent.Some?
    ensures var d := Dispatch(p, nodes, pool, visited, c);
            ArenaOk(d.nodes) && PoolOk(d.nodes, d.pool) && Extends(nodes, d.nodes) &&
            visited <= d.visited && |d.visited| == |visited| + (if d.good then 1 else 0) &&
            (forall i :: 0 <= i < |nodes| && i != c ==> d.nodes[i] == nodes[i]) &&
            d.nodes[c].snapshot == nodes[c].snapshot
  {
    var n := nodes[c];
    var s := n.snapshot.value;
    var rt := n.remainingTime;
    var d := Dispatch(p, nodes, pool, visited, c);
    if rt < 0.0 {
      ArenaUpdate(nodes, c, n);
    } else if !n.isInVisitedList && InVisited(visited, s.x, s.y, n.timeElapsed) {
      var penalised := rt + VisitedListPenalty as real;
      ArenaUpdate(nodes, c, n.(isInVisitedList := true, remainingTime := penalised, remainingTimeEstimated := penalised));
      PoolExtends(nodes, d.nodes, pool);
    } else if rt - n.remainingTimeEstimated > Epsilon {
      ArenaUpdate(nodes, c, n.(remainingTimeEstimated := rt));
      PoolExtends(nodes, d.nodes, pool);
    } else {
      var kids := GenerateChildren(p, s, nodes, c);
      ArenaAppend(nodes, c, kids);
      PoolExtends(nodes, d.nodes, pool);
      forall j | 0 <= j < |d.pool| ensures d.pool[j] < |d.nodes| && d.nodes[d.pool[j]].parent.Some? {
        if j >= |pool| {
          var m := j - |pool|;
          assert d.pool[j] == |nodes| + m;
          assert d.nodes[|nodes| + m] == kids[m];
        }
      }
    }
  }

  /**
   * The four dispatch outcomes seen from the open list (which no longer holds c): a
   * discarded node leaves it as it is, a requeued node is appended once, an accepted
   * node appends its 2 or 5 children at their new arena indices; acceptance is exactly the case where the node
   * is neither discarded nor newly found visited nor more than Epsilon worse than
   * estimated, and only it records a closed-list entry.
   */
  lemma DispatchOutcome(p: Physics, nodes: seq<Node>, pool: seq<nat>, visited: seq<Entry>, c: nat)
    requires ArenaOk(nodes) && HasSnapshot(nodes, c)
    ensures var d := Dispatch(p, nodes, pool, visited, c);
            var n := nodes[c];
            var s := n.snapshot.value;
            (d.good <==> 0.0 <= n.remainingTime && !(!n.isInVisitedList && InVisited(visited, s.x, s.y, n.timeElapsed)) &&
                         n.remainingTime - n.remainingTimeEstimated <= Epsilon) &&
            (n.remainingTime < 0.0 ==> d.pool == pool && d.nodes == nodes) &&
            (0.0 <= n.remainingTime && !d.good ==> d.pool == pool + [c] && |d.nodes| == |nodes|) &&
            (0.0 <= n.remainingTime && !n.isInVisitedList && InVisited(visited, s.x, s.y, n.timeElapsed) ==>
               var penalised := n.remainingTime + VisitedListPenalty as real;
               d.nodes[c] == n.(isInVisitedList := true, remainingTime := penalised, remainingTimeEstimated := penalised)) &&
            (0.0 <= n.remainingTime && !(!n.isInVisitedList && InVisited(visited, s.x, s.y, n.timeElapsed)) &&
             n.remainingTime - n.remainingTimeEstimated > Epsilon ==>
               d.nodes[c] == n.(remainingTimeEstimated := n.remainingTime)) &&
            (d.good ==> pool <= d.pool && (|d.pool| == |pool| + 2 || |d.pool| == |pool| + 5) &&
                        d.nodes == nodes + GenerateChildren(p, s, nodes, c) &&
                        d.pool == pool + Range(|nodes|, |d.nodes| - |nodes|) &&
                        d.visited == visited + [RecordOf(s.x, s.y, n.timeElapsed)]) &&
            (!d.good ==> d.visited == visited)
  {
  }

  /** The x position recorded in a simulated node's snapshot. */
  function XOf(nodes: seq<Node>, i: nat): real
    requires HasSnapshot(nodes, i)
  {
    nodes[i].snapshot.value.x
  }

  /**
   * What the search loop of one episode works on: the arena, the open list, the
   * closed list, best and furthest, the live scene, and the loop's `current` and
   * `currentGood` variables.
   */
  datatype SearchState = SearchState(nodes: seq<Node>, pool: seq<nat>, visited: seq<Entry>,
                                     best: nat, furthest: nat, live: Scene, current: nat, good: bool)

  predicate StateOk(s: SearchState)
  {
    ArenaOk(s.nodes) && PoolOk(s.nodes, s.pool) &&
    HasSnapshot(s.nodes, s.best) && HasSnapshot(s.nodes, s.furthest) && HasSnapshot(s.nodes, s.current)
  }

  /** The guard of the search loop: a non-empty pool, and best short of MaxRight or the last iteration not accepted. */
  predicate Continues(s: SearchState, startX: real)
    requires StateOk(s)
  {
    s.pool != [] && (XOf(s.nodes, s.best) - startX < MaxRight as real || !s.good)
  }

  /**
   * One iteration of the search loop: the first cheapest pool node is removed and
   * simulated from its parent's snapshot, its outcome is dispatched, and on
   * acceptance it becomes best, and furthest too when it lies strictly further right
   * than furthest and the live scene has no gap under it.
   */
  function Step(p: Physics, s: SearchState): (r: SearchState)
    requires StateOk(s) && s.pool != []
    ensures StateOk(r)
    ensures r.current == s.pool[BestSlot(s.nodes, s.pool)] && r.live == r.nodes[r.current].snapshot.value
    ensures r.good ==> r.best == r.current
    ensures !r.good ==> r.best == s.best
    ensures HasSnapshot(r.nodes, s.furthest)
    ensures r.good && r.live.x > XOf(r.nodes, s.furthest) && !p.isGap(r.live, r.live.x) ==> r.furthest == r.current
    ensures !(r.good && r.live.x > XOf(r.nodes, s.furthest) && !p.isGap(r.live, r.live.x)) ==> r.furthest == s.furthest
  {
    var k := BestSlot(s.nodes, s.pool);
    var c := s.pool[k];
    assert NodeOk(s.nodes, c);
    var ps := ParentScene(s.nodes, c);
    var sim := s.nodes[c := Simulated(p, ps, s.nodes[c])];
    ArenaUpdate(s.nodes, c, sim[c]);
    RemoveKeepsPool(s.nodes, s.pool, k);
    PoolExtends(s.nodes, sim, RemoveAt(s.pool, k));
    var d := Dispatch(p, sim, RemoveAt(s.pool, k), s.visited, c);
    DispatchKeepsArena(p, sim, RemoveAt(s.pool, k), s.visited, c);
    ExtendsTransitive(s.nodes, sim, d.nodes);
    ExtendsKeepsSnapshot(s.nodes, d.nodes, s.best);
    ExtendsKeepsSnapshot(s.nodes, d.nodes, s.furthest);
    var live := SimulatedScene(p, ps, s.nodes[c]);
    var best := if d.good then c else s.best;
    var furthest := if d.good && live.x > XOf(d.nodes, s.furthest) && !p.isGap(live, live.x) then c else s.furthest;
    SearchState(d.nodes, d.pool, d.visited, best, furthest, live, c, d.good)
  }

  /**
   * An iteration only evolves or appends arena entries, never changes a root, and
   * only appends to the closed list.
   */
  lemma StepExtends(p: Physics, s: SearchState)
    requires StateOk(s) && s.pool != []
    ensures var r := Step(p, s);
            Extends(s.nodes, r.nodes) && s.visited <= r.visited &&
            forall i :: 0 <= i < |s.nodes| && s.nodes[i].parent.None? ==> r.nodes[i] == s.nodes[i]
  {
    var k := BestSlot(s.nodes, s.pool);
    var c := s.pool[k];
    assert NodeOk(s.nodes, c);
    var sim := s.nodes[c := Simulated(p, ParentScene(s.nodes, c), s.nodes[c])];
    ArenaUpdate(s.nodes, c, sim[c]);
    RemoveKeepsPool(s.nodes, s.pool, k);
    PoolExtends(s.nodes, sim, RemoveAt(s.pool, k));
    DispatchKeepsArena(p, sim, RemoveAt(s.pool, k), s.visited, c);
    ExtendsTransitive(s.nodes, sim, Step(p, s).nodes);
  }

  function Last(t: seq<SearchState>): SearchState
    requires t != []
  {
    t[|t| - 1]
  }

  /** The search loop's iteration as a total function value: a state it never steps from is left as it is. */
  function Stepper(p: Physics): SearchState -> SearchState
  {
    s => if StateOk(s) && s.pool != [] then Step(p, s) else s
  }

  /** `step` is the search loop's iteration on every state the loop can step from. */
  ghost predicate Iterates(step: SearchState -> SearchState, p: Physics)
  {
    forall s {:trigger Step(p, s)} :: StateOk(s) && s.pool != [] ==> step(s) == Step(p, s)
  }

  lemma StepperIterates(p: Physics)
    ensures Iterates(Stepper(p), p)
  {
  }

  /**
   * `t` is the sequence of states the search loop passes through: every state is
   * consistent, and each state after the first is an `step` of the one before (the loop's
   * iteration when Iterates(step, p) holds), taken while the loop's guard held there.
   */
  predicate Chained(step: SearchState -> SearchState, t: seq<SearchState>, startX: real)
    decreases |t|
  {
    t != [] && StateOk(Last(t)) &&
    (|t| > 1 ==>
       Chained(step, t[..|t| - 1], startX) &&
       Continues(t[|t| - 2], startX) && Last(t) == step(t[|t| - 2]))
  }

  /**
   * A whole run of the search loop capped at `fuel` iterations: it makes at most
   * `fuel` iterations and, unless it made all of them, stops only where the guard
   * fails (the pool is empty, or the last iteration accepted and best lies at least
   * MaxRight right of the episode's start).
   */
  predicate Finished(step: SearchState -> SearchState, t: seq<SearchState>, startX: real, fuel: nat)
  {
    Chained(step, t, startX) && |t| <= fuel + 1 && (|t| <= fuel ==> !Continues(Last(t), startX))
  }

  /**
   * The guard ends the loop on the iteration that accepts a node at least MaxRight
   * right of the episode's start: that node becomes best.
   */
  lemma AcceptedFarEnoughStops(p: Physics, s: SearchState, startX: real)
    requires StateOk(s) && s.pool != []
    ensures var r := Step(p, s);
            r.good && r.live.x - startX >= MaxRight as real ==> !Continues(r, startX)
  {
  }

  /** A run extends by one iteration while the guard holds. */
  lemma ChainedSnoc(step: SearchState -> SearchState, t: seq<SearchState>, n: SearchState, startX: real)
    requires Chained(step, t, startX) && Continues(Last(t), startX) && n == step(Last(t)) && StateOk(n)
    ensures Chained(step, t + [n], startX) && Last(t + [n]) == n
  {
    assert (t + [n])[..|t|] == t;
  }

  /** Every non-empty prefix of a run is a run. */
  lemma {:induction false} ChainedPrefix(step: SearchState -> SearchState, t: seq<SearchState>, startX: real, k: nat)
    requires Chained(step, t, startX) && 0 < k <= |t|
    ensures Chained(step, t[..k], startX)
    decreases |t|
  {
    if k < |t| {
      ChainedPrefix(step, t[..|t| - 1], startX, k);
      assert t[..|t| - 1][..k] == t[..k];
    } else {
      assert t[..k] == t;
    }
  }

  /** Two runs from the same state agree on their common length: the loop is deterministic. */
  lemma {:induction false} ChainedDeterministic(step: SearchState -> SearchState, t: seq<SearchState>, u: seq<SearchState>, startX: real)
    requires Chained(step, t, startX) && Chained(step, u, startX) && t[0] == u[0] && |t| <= |u|
    ensures t == u[..|t|]
    decreases |t|
  {
    if |t| == 1 {
      assert u[..1] == [u[0]];
    } else {
      var n := |t|;
      ChainedDeterministic(step, t[..n - 1], u, startX);
      ChainedPrefix(step, u, startX, n);
      var v := u[..n];
      assert v[..n - 1] == u[..n - 1] == t[..n - 1];
      assert t[n - 2] == v[n - 2];
      assert Last(t) == step(t[n - 2]) && Last(v) == step(v[n - 2]);
      assert t == t[..n - 1] + [Last(t)] && v == v[..n - 1] + [Last(v)];
    }
  }

  /** The loop's outcome is a function of its start state and its fuel. */
  lemma FinishedUnique(step: SearchState -> SearchState, t: seq<SearchState>, u: seq<SearchState>, startX: real, fuel: nat)
    requires Finished(step, t, startX, fuel) && Finished(step, u, startX, fuel) && t[0] == u[0]
    ensures t == u
  {
    if |t| <= |u| {
      ChainedDeterministic(step, t, u, startX);
      if |t| < |u| {
        ChainedPrefix(step, u, startX, |t| + 1);
      }
    } else {
      ChainedDeterministic(step, u, t, startX);
      ChainedPrefix(step, t, startX, |u| + 1);
    }
  }
  /**
   * Planning twice from the same live scene, with the same repetitions and fuel, runs
   * the same search and so keeps the same node and returns the same plan.
   */
  lemma EpisodeIdempotent(step: SearchState -> SearchState, p: Physics, live: Scene, repetitions: nat, fuel: nat,
                          t: seq<SearchState>, u: seq<SearchState>)
    requires Finished(step, t, live.x, fuel) && t[0] == StartState(p, live, repetitions)
    requires Finished(step, u, live.x, fuel) && u[0] == StartState(p, live, repetitions)
    ensures t == u && FallbackBest(p, Last(t), live.x) == FallbackBest(p, Last(u), live.x)
    ensures var b := FallbackBest(p, Last(t), live.x);
            PathPlan(Last(t).nodes, b) == PathPlan(Last(u).nodes, b)
  {
    FinishedUnique(step, t, u, live.x, fuel);
  }


  /**
   * The gap fallback after the loop: furthest replaces best when the live scene is
   * short of MaxRight past the start, furthest lies more than FurthestMargin beyond
   * best, and the live scene has a gap under best.
   */
  function FallbackBest(p: Physics, r: SearchState, startX: real): (b: nat)
    requires StateOk(r)
    ensures b == r.best || b == r.furthest
    ensures b == r.furthest <== r.live.x - startX < MaxRight as real && XOf(r.nodes, r.furthest) > XOf(r.nodes, r.best) + FurthestMargin &&
                                p.isGap(r.live, XOf(r.nodes, r.best))
    ensures b == r.best <== !(r.live.x - startX < MaxRight as real && XOf(r.nodes, r.furthest) > XOf(r.nodes, r.best) + FurthestMargin &&
                              p.isGap(r.live, XOf(r.nodes, r.best)))
  {
    if r.live.x - startX < MaxRight as real && XOf(r.nodes, r.furthest) > XOf(r.nodes, r.best) + FurthestMargin &&
       p.isGap(r.live, XOf(r.nodes, r.best))
    then r.furthest else r.best
  }

  /**
   * The state startSearch sets up on the live scene: a root snapshotting it, followed
   * by the root's children, which form the open list; an empty closed list; best,
   * furthest and current are the root.
   */
  function StartState(p: Physics, live: Scene, repetitions: nat): (r: SearchState)
    ensures StateOk(r) && r.nodes[0].parent.None? && r.visited == [] && r.live == live
    ensures r.nodes[0] == NewRoot(p, live, repetitions).(snapshot := Some(live))
    ensures r.best == 0 && r.furthest == 0 && r.current == 0 && !r.good
    ensures |r.pool| == |r.nodes| - 1 && (|r.pool| == 2 || |r.pool| == 5) &&
            forall j :: 0 <= j < |r.pool| ==> r.pool[j] == j + 1 && r.nodes[r.pool[j]].parent == Some(0)
    ensures r.nodes == StartArena(p, live, repetitions)
  {
    var all := StartArena(p, live, repetitions);
    SearchState(all, Range(1, |all| - 1), [], 0, 0, live, 0, false)
  }

  /** The arena startSearch builds: the root snapshotting the live scene, then its children. */
  function StartArena(p: Physics, live: Scene, repetitions: nat): (all: seq<Node>)
    ensures ArenaOk(all) && (|all| == 3 || |all| == 6)
    ensures all[0] == NewRoot(p, live, repetitions).(snapshot := Some(live)) && all[0].parent.None?
    ensures forall j :: 1 <= j < |all| ==> all[j].parent == Some(0)
    ensures ArenaOk([all[0]]) && all[1..] == GenerateChildren(p, live, [all[0]], 0)
  {
    var root := NewRoot(p, live, repetitions).(snapshot := Some(live));
    assert NodeOk([root], 0);
    var kids := GenerateChildren(p, live, [root], 0);
    ArenaAppend([root], 0, kids);
    var all := [root] + kids;
    assert all[1..] == kids;
    all
  }

  class AStarSimulator {
    const phys: Physics
    ghost const stepper: SearchState -> SearchState   // the search loop's iteration under phys
    var levelScene: Scene                // the live world state
    var workScene: Option<Scene>         // the predicted state the planner works on
    var bestPosition: Option<nat>        // arena index of the best node found
    var furthestPosition: Option<nat>    // arena index of the furthest node not over a gap
    var currentSearchStartingMarioXPos: real
    var nodes: seq<Node>                 // the arena holding every SearchNode of the episode
    var posPool: seq<nat>                // the open list, as arena indices
    var visitedStates: seq<Entry>        // the closed list
    var currentActionPlan: seq<Action>
    var ticksBeforeReplanning: int
    var stepsPerSearch: nat

    /**
     * The arena is consistent, the pool holds only non-root nodes, best and furthest
     * are set together and have been simulated, and before the first episode the
     * controller is due to replan.
     */
    ghost predicate Valid()
      reads this`nodes, this`posPool, this`bestPosition, this`furthestPosition, this`ticksBeforeReplanning
    {
      Iterates(stepper, phys) && ArenaOk(nodes) && PoolOk(nodes, posPool) &&
      (bestPosition.Some? <==> furthestPosition.Some?) &&
      (bestPosition.None? ==> ticksBeforeReplanning <= 0) &&
      (bestPosition.Some? ==>
         |nodes| > 0 && nodes[0].parent.None? &&
         HasSnapshot(nodes, bestPosition.value) && HasSnapshot(nodes, furthestPosition.value))
    }

    /** A search episode has been started. */
    predicate Started()
      reads this`bestPosition
    {
      bestPosition.Some?
    }

    /** The search loop's state, with `cur` and `good` for its `current` and `currentGood` variables. */
    ghost function State(cur: nat, good: bool): SearchState
      reads this`nodes, this`posPool, this`visitedStates, this`bestPosition, this`furthestPosition, this`levelScene
      requires Started() && furthestPosition.Some?
    {
      SearchState(nodes, posPool, visitedStates, bestPosition.value, furthestPosition.value, levelScene, cur, good)
    }

    /** The constructor; `initial` is the scene GetCurrentScene loads. */
    constructor (p: Physics, initial: Scene)
      ensures Valid() && !Started()
      ensures phys == p && stepper == Stepper(p) && levelScene == initial && workScene.None?
      ensures nodes == [] && posPool == [] && visitedStates == [] && currentActionPlan == []
      ensures ticksBeforeReplanning == 0 && stepsPerSearch == DefaultStepsPerSearch
    {
      phys := p;
      stepper := Stepper(p);
      StepperIterates(p);
      levelScene := initial;
      workScene := None;
      bestPosition, furthestPosition := None, None;
      currentSearchStartingMarioXPos := 0.0;
      nodes, posPool, visitedStates := [], [], [];
      currentActionPlan := [];
      ticksBeforeReplanning := 0;
      stepsPerSearch := DefaultStepsPerSearch;
    }

    /** advanceStep: one simulator tick of the live scene. */
    method AdvanceStep(a: Action)
      modifies this`levelScene
      ensures levelScene == phys.tick(old(levelScene), a)
    {
      levelScene := phys.tick(levelScene, a);
    }

    /** getMarioDamage: adds 5 damage when falling into a gap, then reports the counter. */
    method GetMarioDamage() returns (d: int)
      modifies this`levelScene
      ensures levelScene == DamageCheck(phys, old(levelScene)) && d == levelScene.damage
      ensures old(levelScene.damage) <= d
    {
      if FallingIntoGap(phys, levelScene) {
        levelScene := levelScene.(damage := levelScene.damage + 5);
      }
      d := levelScene.damage;
    }

    /** visited: appends one entry to the closed list. */
    method Visited(x: real, y: real, t: real)
      modifies this`visitedStates
      ensures visitedStates == old(visitedStates) + [Entry(x, y, t)]
    {
      visitedStates := visitedStates + [Entry(x, y, t)];
    }

    /**
     * simulatePos: installs the parent's snapshot as live (the parent keeps an equal
     * copy), holds the node's action for its repetitions, and records the remaining
     * time, the hurt flag and the resulting snapshot on the node.
     */
    method SimulatePos(c: nat) returns (rt: real)
      requires Valid() && c < |nodes| && nodes[c].parent.Some?
      modifies this`levelScene, this`nodes
      ensures Valid() && Extends(old(nodes), nodes)
      ensures nodes == old(nodes)[c := Simulated(phys, ParentScene(old(nodes), c), old(nodes)[c])]
      ensures levelScene == SimulatedScene(phys, ParentScene(old(nodes), c), old(nodes)[c])
      ensures rt == nodes[c].remainingTime && nodes[c].snapshot == Some(levelScene)
      ensures var q := old(nodes)[c].parent.value; q < c && nodes[q] == old(nodes)[q]
    {
      assert NodeOk(nodes, c);
      var q := nodes[c].parent.value;
      levelScene := nodes[q].snapshot.value;
      nodes := nodes[q := nodes[q].(snapshot := Some(levelScene))];
      assert nodes == old(nodes);
      var initialDamage := GetMarioDamage();
      ghost var start := levelScene;
      var i := 0;
      while i < nodes[c].repetitions
        invariant nodes == old(nodes)
        invariant 0 <= i <= nodes[c].repetitions
        invariant levelScene == Ticks(phys, start, nodes[c].action, i)
      {
        AdvanceStep(nodes[c].action);
        i := i + 1;
      }
      ghost var n := nodes[c];
      ghost var ps := ParentScene(nodes, c);
      assert start == DamageCheck(phys, ps) && levelScene == TickedScene(phys, ps, n);
      var estimate := CalcRemainingTime(phys, levelScene.x, levelScene.xa);
      var damage := GetMarioDamage();
      rt := estimate + ((damage - initialDamage) * (DamagePenalty - DamagePenaltyTimeFactor * nodes[c].timeElapsed)) as real;
      if nodes[c].isInVisitedList {
        rt := rt + VisitedListPenalty as real;
      }
      var finalDamage := GetMarioDamage();
      assert rt == RealRemainingTime(phys, ps, n) && levelScene == SimulatedScene(phys, ps, n);
      nodes := nodes[c := nodes[c].(remainingTime := rt, hasBeenHurt := finalDamage - initialDamage != 0,
                                    snapshot := Some(levelScene))];
      assert nodes[c] == Simulated(phys, ps, n);
      ArenaUpdate(old(nodes), c, nodes[c]);
    }

    /**
     * startSearch: a fresh episode rooted at the live scene; the pool holds the
     * root's children, the closed list is empty, best and furthest are the root.
     */
    method StartSearch(repetitions: nat)
      requires Valid()
      modifies this`nodes, this`posPool, this`visitedStates, this`currentSearchStartingMarioXPos,
               this`bestPosition, this`furthestPosition
      ensures Valid() && Started()
      ensures State(0, false) == StartState(phys, levelScene, repetitions)
      ensures currentSearchStartingMarioXPos == levelScene.x
    {
      var startPos := NewRoot(phys, levelScene, repetitions).(snapshot := Some(levelScene));
      nodes := [startPos];
      assert NodeOk(nodes, 0);
      visitedStates := [];
      var kids := GenerateChildren(phys, levelScene, nodes, 0);
      ArenaAppend(nodes, 0, kids);
      nodes := nodes + kids;
      posPool := Range(1, |kids|);
      currentSearchStartingMarioXPos := levelScene.x;
      bestPosition, furthestPosition := Some(0), Some(0);
    }

    /**
     * The four-way dispatch of the search loop on the just-simulated node `current`,
     * whose simulated remaining time is `rt`.
     */
    method DispatchCurrent(current: nat, rt: real) returns (currentGood: bool)
      requires ArenaOk(nodes) && PoolOk(nodes, posPool) && HasSnapshot(nodes, current)
      requires nodes[current].parent.Some? && rt == nodes[current].remainingTime
      modifies this`nodes, this`posPool, this`visitedStates
      ensures var d := Dispatch(phys, old(nodes), old(posPool), old(visitedStates), current);
              nodes == d.nodes && posPool == d.pool && visitedStates == d.visited && currentGood == d.good
      ensures ArenaOk(nodes) && PoolOk(nodes, posPool) && Extends(old(nodes), nodes) && old(visitedStates) <= visitedStates
      ensures HasSnapshot(nodes, current) && nodes[current].snapshot == old(nodes[current].snapshot)
    {
      DispatchKeepsArena(phys, nodes, posPool, visitedStates, current);
      var realRemainingTime := rt;
      var snap := nodes[current].snapshot.value;
      currentGood := false;
      if realRemainingTime < 0.0 {
        // kicked out: negative remaining time
      } else {
        var seen := false;
        if !nodes[current].isInVisitedList {
          seen := IsInVisited(visitedStates, snap.x, snap.y, nodes[current].timeElapsed);
        }
        if seen {
          realRemainingTime := realRemainingTime + VisitedListPenalty as real;
          nodes := nodes[current := nodes[current].(isInVisitedList := true, remainingTime := realRemainingTime,
                                                    remainingTimeEstimated := realRemainingTime)];
          posPool := posPool + [current];
        } else if realRemainingTime - nodes[current].remainingTimeEstimated > Epsilon {
          nodes := nodes[current := nodes[current].(remainingTimeEstimated := realRemainingTime)];
          posPool := posPool + [current];
        } else {
          currentGood := true;
          Visited(Trunc(snap.x) as real, Trunc(snap.y) as real, nodes[current].timeElapsed as real);
          var kids := GenerateChildren(phys, snap, nodes, current);
          var size := |nodes|;
          nodes := nodes + kids;
          posPool := posPool + Range(size, |kids|);
        }
      }
    }

    /** The first half of an iteration: the cheapest pool node is removed from the pool and simulated. */
    method PickAndSimulate() returns (current: nat, rt: real)
      requires Valid() && Started() && posPool != []
      modifies this`levelScene, this`nodes, this`posPool
      ensures Valid() && Started() && Extends(old(nodes), nodes) && nodes[0] == old(nodes[0])
      ensures current == old(posPool)[BestSlot(old(nodes), old(posPool))]
      ensures posPool == RemoveAt(old(posPool), BestSlot(old(nodes), old(posPool)))
      ensures nodes == old(nodes)[current := Simulated(phys, ParentScene(old(nodes), current), old(nodes)[current])]
      ensures HasSnapshot(nodes, current) && nodes[current].parent.Some?
      ensures rt == nodes[current].remainingTime && levelScene == nodes[current].snapshot.value
    {
      var rest;
      current, rest := PickBestPos(nodes, posPool);
      RemoveKeepsPool(nodes, posPool, BestSlot(nodes, posPool));
      posPool := rest;
      rt := SimulatePos(current);
      PoolExtends(old(nodes), nodes, posPool);
      ExtendsKeepsSnapshot(old(nodes), nodes, furthestPosition.value);
      ExtendsKeepsSnapshot(old(nodes), nodes, bestPosition.value);
    }

    /**
     * One iteration of the search loop: pick the cheapest pool node, simulate it,
     * dispatch on the outcome, and on acceptance make it best (and furthest, when
     * further right than furthest and not over a gap). `cur0` and `good0` are the
     * loop's variables before the iteration.
     */
    method SearchIteration(ghost cur0: nat, ghost good0: bool) returns (current: nat, currentGood: bool)
      requires Valid() && Started() && posPool != [] && HasSnapshot(nodes, cur0)
      modifies this`levelScene, this`nodes, this`posPool, this`visitedStates, this`bestPosition, this`furthestPosition
      ensures Valid() && Started() && Extends(old(nodes), nodes) && nodes[0] == old(nodes[0])
      ensures old(visitedStates) <= visitedStates
      ensures HasSnapshot(nodes, current) && State(current, currentGood) == stepper(old(State(cur0, good0)))
    {
      ghost var s := State(cur0, good0);
      var realRemainingTime;
      current, realRemainingTime := PickAndSimulate();
      ghost var simulated := nodes;
      currentGood := DispatchCurrent(current, realRemainingTime);
      ExtendsTransitive(old(nodes), simulated, nodes);
      ExtendsKeepsSnapshot(simulated, nodes, furthestPosition.value);
      ExtendsKeepsSnapshot(simulated, nodes, bestPosition.value);
      if currentGood {
        bestPosition := Some(current);
        if XOf(nodes, current) > XOf(nodes, furthestPosition.value) && !phys.isGap(levelScene, XOf(nodes, current)) {
          furthestPosition := Some(current);
        }
      }
      ghost var ps := ParentScene(s.nodes, current);
      assert levelScene == SimulatedScene(phys, ps, s.nodes[current]);
      assert State(current, currentGood) == Step(phys, s);
    }

    /**
     * search: iterate while the pool is non-empty and either best has not yet got
     * MaxRight past the episode's start or the last iteration did not accept; then
     * apply the gap fallback and leave the last picked node's snapshot live. The
     * C# loop has no bound: `fuel` caps the number of iterations. `trace` is
     * the sequence of loop states, from the state on entry to the state on exit.
     */
    method Search(fuel: nat) returns (iterations: nat, ghost trace: seq<SearchState>)
      requires Valid() && Started()
      modifies this`levelScene, this`nodes, this`posPool, this`visitedStates, this`bestPosition, this`furthestPosition
      ensures Valid() && Started() && Extends(old(nodes), nodes) && nodes[0] == old(nodes[0])
      ensures old(visitedStates) <= visitedStates
      ensures Finished(stepper, trace, currentSearchStartingMarioXPos, fuel) && |trace| == iterations + 1
      ensures trace[0] == old(State(bestPosition.value, false))
      ensures var r := Last(trace);
              nodes == r.nodes && posPool == r.pool && visitedStates == r.visited &&
              furthestPosition == Some(r.furthest) &&
              bestPosition == Some(FallbackBest(phys, r, currentSearchStartingMarioXPos)) &&
              levelScene == r.nodes[r.current].snapshot.value
    {
      var cur := bestPosition.value;
      var good := false;
      iterations := 0;
      trace := [State(cur, good)];
      while iterations < fuel && posPool != [] &&
            (XOf(nodes, bestPosition.value) - currentSearchStartingMarioXPos < MaxRight as real || !good)
        invariant Valid() && Started() && Extends(old(nodes), nodes) && nodes[0] == old(nodes[0])
        invariant old(visitedStates) <= visitedStates
        invariant iterations <= fuel && HasSnapshot(nodes, cur) && |trace| == iterations + 1
        invariant Chained(stepper, trace, currentSearchStartingMarioXPos)
        invariant trace[0] == old(State(bestPosition.value, false)) && Last(trace) == State(cur, good)
        decreases fuel - iterations
      {
        ghost var before := nodes;
        ghost var prev := State(cur, good);
        cur, good := SearchIteration(cur, good);
        ExtendsTransitive(old(nodes), before, nodes);
        ChainedSnoc(stepper, trace, State(cur, good), currentSearchStartingMarioXPos);
        trace := trace + [State(cur, good)];
        iterations := iterations + 1;
      }
      Finish(cur, good);
    }

    /**
     * The end of search: the gap fallback, then the snapshot of the last picked node
     * `cur` becomes live.
     */
    method Finish(cur: nat, ghost good: bool)
      requires Valid() && Started() && HasSnapshot(nodes, cur)
      modifies this`levelScene, this`bestPosition
      ensures Valid() && Started()
      ensures var r := old(State(cur, good));
              bestPosition == Some(FallbackBest(phys, r, currentSearchStartingMarioXPos)) &&
              levelScene == r.nodes[r.current].snapshot.value
    {
      if levelScene.x - currentSearchStartingMarioXPos < MaxRight as real &&
         XOf(nodes, furthestPosition.value) > XOf(nodes, bestPosition.value) + FurthestMargin &&
         phys.isGap(levelScene, XOf(nodes, bestPosition.value))
      {
        bestPosition := furthestPosition;
      }
      levelScene := nodes[cur].snapshot.value;
    }

    /**
     * extractPlan: the fixed run-right fallback when there is no best node, otherwise
     * the best node's path expanded tick by tick, root to leaf.
     */
    method ExtractPlan() returns (actions: seq<Action>)
      requires Valid()
      ensures actions == PlanFor(nodes, bestPosition)
    {
      actions := [];
      if bestPosition.None? {
        var i := 0;
        while i < FallbackLength
          invariant 0 <= i <= FallbackLength && actions == Repeat(RunRight, i)
        {
          actions := actions + [CreateAction(false, true, false)];
          i := i + 1;
        }
        return;
      }
      var current: nat := bestPosition.value;
      while nodes[current].parent.Some?
        invariant current < |nodes|
        invariant PathPlan(nodes, current) + actions == PathPlan(nodes, bestPosition.value)
        decreases current
      {
        assert NodeOk(nodes, current);
        ghost var saved := actions;
        var i := 0;
        while i < nodes[current].repetitions
          invariant 0 <= i <= nodes[current].repetitions
          invariant actions == Repeat(nodes[current].action, i) + saved
        {
          actions := [nodes[current].action] + actions;
          i := i + 1;
        }
        current := nodes[current].parent.value;
      }
    }

    /**
     * Plan: one full episode from the live scene; the live scene is restored and the
     * best node's plan is returned. Its length is the best node's elapsed ticks.
     * `trace` is the episode's search loop, from the state startSearch sets up.
     */
    method Plan(fuel: nat) returns (plan: seq<Action>, ghost trace: seq<SearchState>)
      requires Valid()
      modifies this
      ensures Valid() && Started()
      ensures levelScene == old(levelScene)
      ensures workScene == if old(workScene).None? then Some(old(levelScene)) else old(workScene)
      ensures Finished(stepper, trace, old(levelScene).x, fuel)
      ensures trace[0] == StartState(phys, old(levelScene), old(stepsPerSearch))
      ensures var r := Last(trace);
              nodes == r.nodes && posPool == r.pool && visitedStates == r.visited &&
              furthestPosition == Some(r.furthest) &&
              bestPosition == Some(FallbackBest(phys, r, old(levelScene).x)) &&
              plan == PathPlan(r.nodes, bestPosition.value) && |plan| == r.nodes[bestPosition.value].timeElapsed
      ensures currentSearchStartingMarioXPos == old(levelScene).x
      ensures currentActionPlan == old(currentActionPlan) && ticksBeforeReplanning == old(ticksBeforeReplanning)
      ensures stepsPerSearch == old(stepsPerSearch)
    {
      var currentState := levelScene;
      if workScene.None? {
        workScene := Some(levelScene);
      }
      trace := Episode(fuel);
      levelScene := currentState;
      plan := ExtractPlan();
      PathPlanLength(nodes, bestPosition.value);
    }

    /** startSearch followed by search: an episode rooted at the live scene. */
    method Episode(fuel: nat) returns (ghost trace: seq<SearchState>)
      requires Valid()
      modifies this`levelScene, this`nodes, this`posPool, this`visitedStates, this`currentSearchStartingMarioXPos,
               this`bestPosition, this`furthestPosition
      ensures Valid() && Started()
      ensures Finished(stepper, trace, old(levelScene).x, fuel)
      ensures trace[0] == StartState(phys, old(levelScene), stepsPerSearch)
      ensures var r := Last(trace);
              nodes == r.nodes && posPool == r.pool && visitedStates == r.visited &&
              furthestPosition == Some(r.furthest) &&
              bestPosition == Some(FallbackBest(phys, r, old(levelScene).x)) &&
              levelScene == r.nodes[r.current].snapshot.value
      ensures currentSearchStartingMarioXPos == old(levelScene).x
    {
      StartSearch(stepsPerSearch);
      var iterations;
      iterations, trace := Search(fuel);
    }

    /**
     * The first half of the replanning branch: the buffer becomes the last episode's
     * plan and the live scene is advanced by min(PlanAhead, plan length) of its
     * actions, which then becomes the work scene.
     */
    method AdvanceAhead() returns (ahead: nat)
      requires Valid()
      modifies this`levelScene, this`workScene, this`currentActionPlan
      ensures currentActionPlan == PlanFor(nodes, bestPosition)
      ensures ahead == if |currentActionPlan| < PlanAhead then |currentActionPlan| else PlanAhead
      ensures levelScene == TickAll(phys, old(levelScene), currentActionPlan[..ahead]) && workScene == Some(levelScene)
    {
      ahead := PlanAhead;
      currentActionPlan := ExtractPlan();
      if |currentActionPlan| < ahead {
        ahead := |currentActionPlan|;
      }
      var i := 0;
      while i < ahead
        invariant 0 <= i <= ahead <= |currentActionPlan|
        invariant levelScene == TickAll(phys, old(levelScene), currentActionPlan[..i])
        modifies this`levelScene
      {
        assert currentActionPlan[..i + 1][..i] == currentActionPlan[..i];
        AdvanceStep(currentActionPlan[i]);
        i := i + 1;
      }
      workScene := Some(levelScene);
    }

    /**
     * The replanning branch of optimise: after AdvanceAhead, a new episode is started
     * from the predicted scene, with the countdown set to the lookahead.
     */
    method Replan()
      requires Valid()
      modifies this`levelScene, this`workScene, this`currentActionPlan, this`ticksBeforeReplanning,
               this`nodes, this`posPool, this`visitedStates, this`currentSearchStartingMarioXPos,
               this`bestPosition, this`furthestPosition
      ensures Valid() && Started()
      ensures currentActionPlan == PlanFor(old(nodes), old(bestPosition))
      ensures var ahead := if |currentActionPlan| < PlanAhead then |currentActionPlan| else PlanAhead;
              var root := TickAll(phys, old(levelScene), currentActionPlan[..ahead]);
              ticksBeforeReplanning == ahead && levelScene == root && workScene == Some(root) &&
              State(0, false) == StartState(phys, root, stepsPerSearch) && currentSearchStartingMarioXPos == root.x
    {
      var planAhead := AdvanceAhead();
      StartSearch(stepsPerSearch);
      ticksBeforeReplanning := planAhead;
    }

    /**
     * optimise: one receding-horizon step. Prepare decides whether to replan and
     * does so; then the search continues from the work scene, and the buffer's first
     * action is removed and returned with the live scene restored. An empty buffer
     * makes AStarSimulator's RemoveAt(0) throw: that outcome is None, and the live scene
     * is then the one the search left. `trace` is the search loop of this step.
     */
    method Optimise(fuel: nat) returns (action: Option<Action>, ghost trace: seq<SearchState>)
      requires Valid()
      modifies this
      ensures Valid() && Started() && stepsPerSearch == old(stepsPerSearch)
      ensures Finished(stepper, trace, currentSearchStartingMarioXPos, fuel)
      ensures var replan := old(ticksBeforeReplanning) - 1 <= 0 || old(currentActionPlan) == [];
              var extracted := PlanFor(old(nodes), old(bestPosition));
              var ahead := if |extracted| < PlanAhead then |extracted| else PlanAhead;
              var root := TickAll(phys, old(levelScene), extracted[..ahead]);
              var buffer := if replan then extracted else old(currentActionPlan);
              ticksBeforeReplanning == (if replan then ahead else old(ticksBeforeReplanning) - 1) &&
              currentSearchStartingMarioXPos == (if replan then root.x else old(currentSearchStartingMarioXPos)) &&
              trace[0] == (if replan then StartState(phys, root, old(stepsPerSearch))
                           else SearchState(old(nodes), old(posPool), old(visitedStates), old(bestPosition).value,
                                            old(furthestPosition).value,
                                            if old(workScene).None? then old(levelScene) else old(workScene).value,
                                            old(bestPosition).value, false)) &&
              (action.None? <==> buffer == []) &&
              (buffer != [] ==> action == Some(buffer[0]) && currentActionPlan == buffer[1..] &&
                                levelScene == old(levelScene)) &&
              (buffer == [] ==> currentActionPlan == [] && workScene == Some(levelScene))
      ensures var r := Last(trace);
              nodes == r.nodes && posPool == r.pool && visitedStates == r.visited &&
              furthestPosition == Some(r.furthest) &&
              bestPosition == Some(FallbackBest(phys, r, currentSearchStartingMarioXPos)) &&
              workScene == Some(r.nodes[r.current].snapshot.value)
    {
      var currentState := levelScene;
      Prepare();
      ghost var start := SearchState(nodes, posPool, visitedStates, bestPosition.value, furthestPosition.value,
                                     workScene.value, bestPosition.value, false);
      trace := ContinueSearch(fuel);
      assert trace[0] == start;
      action := PopAction(currentState);
    }

    /**
     * The first half of optimise: the work scene defaults to the live scene, the
     * countdown is decremented, and when it is not positive or the buffer is empty
     * the controller replans: the buffer becomes the last episode's plan, the live
     * scene is advanced by its first min(2, length) actions, and a new episode starts
     * there with the countdown set to that lookahead.
     */
    method Prepare()
      requires Valid()
      modifies this`levelScene, this`workScene, this`currentActionPlan, this`ticksBeforeReplanning,
               this`nodes, this`posPool, this`visitedStates, this`currentSearchStartingMarioXPos,
               this`bestPosition, this`furthestPosition
      ensures Valid() && Started() && workScene.Some?
      ensures var replan := old(ticksBeforeReplanning) - 1 <= 0 || old(currentActionPlan) == [];
              var extracted := PlanFor(old(nodes), old(bestPosition));
              var ahead := if |extracted| < PlanAhead then |extracted| else PlanAhead;
              var root := TickAll(phys, old(levelScene), extracted[..ahead]);
              (replan ==>
                 ticksBeforeReplanning == ahead && currentActionPlan == extracted &&
                 levelScene == root && workScene == Some(root) && currentSearchStartingMarioXPos == root.x &&
                 State(0, false) == StartState(phys, root, stepsPerSearch)) &&
              (!replan ==>
                 ticksBeforeReplanning == old(ticksBeforeReplanning) - 1 && currentActionPlan == old(currentActionPlan) &&
                 levelScene == old(levelScene) &&
                 workScene == (if old(workScene).None? then Some(old(levelScene)) else old(workScene)) &&
                 nodes == old(nodes) && posPool == old(posPool) && visitedStates == old(visitedStates) &&
                 bestPosition == old(bestPosition) && furthestPosition == old(furthestPosition) &&
                 currentSearchStartingMarioXPos == old(currentSearchStartingMarioXPos))
      ensures var replan := old(ticksBeforeReplanning) - 1 <= 0 || old(currentActionPlan) == [];
              var extracted := PlanFor(old(nodes), old(bestPosition));
              var ahead := if |extracted| < PlanAhead then |extracted| else PlanAhead;
              var root := TickAll(phys, old(levelScene), extracted[..ahead]);
              SearchState(nodes, posPool, visitedStates, bestPosition.value, furthestPosition.value, workScene.value,
                          bestPosition.value, false) ==
              (if replan then StartState(phys, root, old(stepsPerSearch))
               else SearchState(old(nodes), old(posPool), old(visitedStates), old(bestPosition).value,
                                old(furthestPosition).value,
                                if old(workScene).None? then old(levelScene) else old(workScene).value,
                                old(bestPosition).value, false))
    {
      if workScene.None? {
        workScene := Some(levelScene);
      }
      ticksBeforeReplanning := ticksBeforeReplanning - 1;
      if ticksBeforeReplanning <= 0 || |currentActionPlan| == 0 {
        Replan();
      }
    }

    /**
     * The search of optimise: it continues the episode from the work scene, which then
     * becomes the scene it left. `trace` is the search loop, from the current episode's
     * arena, pool, closed list, best and furthest with the work scene live.
     */
    method ContinueSearch(fuel: nat) returns (ghost trace: seq<SearchState>)
      requires Valid() && Started() && workScene.Some?
      modifies this`levelScene, this`workScene, this`nodes, this`posPool, this`visitedStates,
               this`bestPosition, this`furthestPosition
      ensures Valid() && Started() && nodes[0] == old(nodes[0]) && workScene == Some(levelScene)
      ensures Finished(stepper, trace, currentSearchStartingMarioXPos, fuel)
      ensures trace[0] == SearchState(old(nodes), old(posPool), old(visitedStates), old(bestPosition).value,
                                      old(furthestPosition).value, old(workScene).value, old(bestPosition).value, false)
      ensures var r := Last(trace);
              nodes == r.nodes && posPool == r.pool && visitedStates == r.visited &&
              furthestPosition == Some(r.furthest) &&
              bestPosition == Some(FallbackBest(phys, r, currentSearchStartingMarioXPos)) &&
              levelScene == r.nodes[r.current].snapshot.value
    {
      levelScene := workScene.value;
      var iterations;
      iterations, trace := Search(fuel);
      workScene := Some(levelScene);
    }

    /**
     * The action selection of optimise: the buffer's first action is removed and
     * returned and the live scene is restored to `saved`; on an empty buffer the
     * C# RemoveAt(0) throws before the restore, which is the None outcome.
     */
    method PopAction(saved: Scene) returns (action: Option<Action>)
      modifies this`currentActionPlan, this`levelScene
      ensures action.None? <==> old(currentActionPlan) == []
      ensures old(currentActionPlan) == [] ==> currentActionPlan == [] && levelScene == old(levelScene)
      ensures old(currentActionPlan) != [] ==>
                action == Some(old(currentActionPlan)[0]) && currentActionPlan == old(currentActionPlan)[1..] &&
                levelScene == saved
    {
      if |currentActionPlan| == 0 {
        // currentActionPlan.RemoveAt(0) throws on an empty list
        return None;
      }
      action := Some(currentActionPlan[0]);
      currentActionPlan := currentActionPlan[1..];
      levelScene := saved;
    }
  }
}
