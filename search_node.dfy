/**
 * Search nodes of the A* planner: one macro-action held for `repetitions` ticks,
 * its elapsed-tick bookkeeping, its estimated and simulated remaining time, the
 * sticky visited flag and a parent link. Nodes live in an arena (a sequence) and a
 * parent is referenced by its index in that arena.
 */
module SearchNodes {
  import opened Wrappers
  import opened World

  const DamagePenalty: int := 1000000
  const DamagePenaltyTimeFactor: int := 100
  const VisitedListPenalty: int := 1500
  const MarioHeight: real := 1.9

  /** The far-off target, the horizon and the time offset of calcRemainingTime. */
  const TargetDistance: real := 100000.0
  const HorizonTicks: int := 1000
  const TimeOffset: real := 1000.0

  datatype Node = Node(
    action: Action,
    repetitions: nat,
    timeElapsed: nat,
    remainingTimeEstimated: real,
    remainingTime: real,
    parent: Option<nat>,
    snapshot: Option<Scene>,
    hasBeenHurt: bool,
    isInVisitedList: bool)

  /** calcRemainingTime: estimated ticks to the far target from position x at acceleration xa. */
  function CalcRemainingTime(p: Physics, x: real, xa: real): real
  {
    (TargetDistance - (p.maxForwardMovement(xa, HorizonTicks) + x)) / p.maxSpeed - TimeOffset
  }

  /**
   * The estimate, shifted back by the offset, is the time at top speed to cover what
   * is left to the target after the fastest possible run over the horizon.
   */
  lemma CalcRemainingTimeCoversDistance(p: Physics, x: real, xa: real)
    ensures (CalcRemainingTime(p, x, xa) + TimeOffset) * p.maxSpeed ==
            TargetDistance - (p.maxForwardMovement(xa, HorizonTicks) + x)
  {
    var d := TargetDistance - (p.maxForwardMovement(xa, HorizonTicks) + x);
    var s: real := p.maxSpeed;
    assert (d / s) * s == d;
  }

  /** Further right means less remaining time, at equal acceleration. */
  lemma CalcRemainingTimeDecreasesWithX(p: Physics, x1: real, x2: real, xa: real)
    requires x1 < x2
    ensures CalcRemainingTime(p, x2, xa) < CalcRemainingTime(p, x1, xa)
  {
    var s: real := p.maxSpeed;
    var m := p.maxForwardMovement(xa, HorizonTicks);
    var a1, a2 := TargetDistance - (m + x1), TargetDistance - (m + x2);
    assert a1 / s - a2 / s == (x2 - x1) / s;
    assert (x2 - x1) / s > 0.0;
  }

  /** getRemainingTime: the simulated value once it is positive, the estimate otherwise. */
  function GetRemainingTime(n: Node): (r: real)
    ensures n.remainingTime > 0.0 ==> r == n.remainingTime
    ensures n.remainingTime <= 0.0 ==> r == n.remainingTimeEstimated
  {
    if n.remainingTime > 0.0 then n.remainingTime else n.remainingTimeEstimated
  }

  /** The open-list ranking of pickBestPos: remaining time plus 0.9 per elapsed tick. */
  function Cost(n: Node): real
  {
    GetRemainingTime(n) + 0.9 * n.timeElapsed as real
  }

  /** The elapsed-time term never lowers the cost below the remaining time, and adds nothing only at zero ticks. */
  lemma CostCountsElapsedTicks(n: Node)
    ensures Cost(n) >= GetRemainingTime(n) && (Cost(n) == GetRemainingTime(n) <==> n.timeElapsed == 0)
  {
  }

  /** A node that has not been simulated yet. */
  predicate Unsimulated(n: Node)
  {
    n.remainingTime == 0.0 && n.snapshot.None? && !n.hasBeenHurt && !n.isInVisitedList
  }

  /** The SearchNode constructor without a parent: the root of an episode. */
  function NewRoot(p: Physics, live: Scene, repetitions: nat): (r: Node)
    ensures r.parent.None? && r.timeElapsed == 0 && r.repetitions == repetitions
    ensures Unsimulated(r) && Cost(r) == CalcRemainingTime(p, live.x, 0.0)
  {
    Node(NoKeys, repetitions, 0, CalcRemainingTime(p, live.x, 0.0), 0.0, None, None, false, false)
  }

  /**
   * The SearchNode constructor with a parent (estimateRemainingTimeChild). The
   * forward-movement estimate starts from the live scene's x position, which the
   * C# code passes in the place of the initial acceleration.
   */
  function NewChild(p: Physics, live: Scene, parentIndex: nat, parent: Node, action: Action, repetitions: nat): (r: Node)
    ensures r.parent == Some(parentIndex) && r.action == action && r.repetitions == repetitions
    ensures r.timeElapsed == parent.timeElapsed + repetitions
    ensures Unsimulated(r) && GetRemainingTime(r) == r.remainingTimeEstimated
    ensures var m := p.estimateForwardMovement(live.x, action, repetitions);
            r.remainingTimeEstimated == CalcRemainingTime(p, live.x + m.0, m.1)
  {
    var m := p.estimateForwardMovement(live.x, action, repetitions);
    Node(action, repetitions, parent.timeElapsed + repetitions,
         CalcRemainingTime(p, live.x + m.0, m.1), 0.0, Some(parentIndex), None, false, false)
  }

  /** Arena entry i is consistent with its parent. */
  predicate NodeOk(nodes: seq<Node>, i: nat)
    requires i < |nodes|
  {
    match nodes[i].parent
    case None => nodes[i].timeElapsed == 0
    case Some(q) =>
      q < i && nodes[q].snapshot.Some? &&
      nodes[i].timeElapsed == nodes[q].timeElapsed + nodes[i].repetitions &&
      nodes[i].repetitions == nodes[q].repetitions &&
      !(nodes[i].action.left && nodes[i].action.right)
  }

  /**
   * The arena of one episode: parents come before their children and have been
   * simulated, a root has elapsed time 0, and a child's elapsed time is its parent's
   * plus the (shared) repetition count.
   */
  predicate ArenaOk(nodes: seq<Node>)
  {
    forall i :: 0 <= i < |nodes| ==> NodeOk(nodes, i)
  }

  /** The scene a node is simulated from: its parent's snapshot. */
  function ParentScene(nodes: seq<Node>, c: nat): Scene
    requires ArenaOk(nodes) && c < |nodes| && nodes[c].parent.Some?
  {
    assert NodeOk(nodes, c);
    nodes[nodes[c].parent.value].snapshot.value
  }

  /**
   * canJumpHigher: the node's snapshot may jump, or (when checkParent) its parent's
   * does. The recursive call passes checkParent = false, so it looks back exactly one
   * generation.
   */
  function CanJumpHigher(nodes: seq<Node>, i: nat, checkParent: bool): (r: bool)
    requires ArenaOk(nodes) && i < |nodes| && nodes[i].snapshot.Some?
    ensures r <==> nodes[i].snapshot.value.mayJump ||
                   (checkParent && nodes[i].parent.Some? && ParentScene(nodes, i).mayJump)
    decreases if checkParent then 1 else 0
  {
    assert NodeOk(nodes, i);
    if nodes[i].parent.Some? && checkParent && CanJumpHigher(nodes, nodes[i].parent.value, false) then
      true
    else
      nodes[i].snapshot.value.mayJump
  }

  /**
   * createPossibleActions: jump, right, right+jump, left, left+jump, where the three
   * jump variants are present exactly when canJumpHigher holds.
   */
  function CreatePossibleActions(nodes: seq<Node>, i: nat): (r: seq<Action>)
    requires ArenaOk(nodes) && i < |nodes| && nodes[i].snapshot.Some?
    ensures CanJumpHigher(nodes, i, true) ==>
              r == [Action(false, false, true), Action(false, true, false), Action(false, true, true),
                    Action(true, false, false), Action(true, false, true)]
    ensures !CanJumpHigher(nodes, i, true) ==> r == [Action(false, true, false), Action(true, false, false)]
    ensures forall j :: 0 <= j < |r| ==> !(r[j].left && r[j].right)
    ensures (exists j :: 0 <= j < |r| && r[j].jump) <==> CanJumpHigher(nodes, i, true)
  {
    var jumps := CanJumpHigher(nodes, i, true);
    var r := (if jumps then [CreateAction(false, false, true)] else [])
      + [CreateAction(false, true, false)]
      + (if jumps then [CreateAction(false, true, true)] else [])
      + [CreateAction(true, false, false)]
      + (if jumps then [CreateAction(true, false, true)] else []);
    assert jumps ==> r[0].jump;
    r
  }

  /**
   * generateChildren: one fresh child per possible action, in order, each holding
   * its action for the parent's repetition count.
   */
  function GenerateChildren(p: Physics, live: Scene, nodes: seq<Node>, i: nat): (r: seq<Node>)
    requires ArenaOk(nodes) && i < |nodes| && nodes[i].snapshot.Some?
    ensures |r| == |CreatePossibleActions(nodes, i)|
    ensures |r| == 2 || |r| == 5
    ensures forall j :: 0 <= j < |r| ==>
              r[j] == NewChild(p, live, i, nodes[i], CreatePossibleActions(nodes, i)[j], nodes[i].repetitions)
    ensures forall j :: 0 <= j < |r| ==>
              r[j].parent == Some(i) && r[j].repetitions == nodes[i].repetitions &&
              r[j].timeElapsed == nodes[i].timeElapsed + nodes[i].repetitions &&
              Unsimulated(r[j]) && !(r[j].action.left && r[j].action.right)
  {
    var acts := CreatePossibleActions(nodes, i);
    seq(|acts|, j requires 0 <= j < |acts| => NewChild(p, live, i, nodes[i], acts[j], nodes[i].repetitions))
  }

  /** Node m evolves into n: identity fields kept, snapshot and visited flag never dropped. */
  predicate Keeps(m: Node, n: Node)
  {
    n.action == m.action && n.repetitions == m.repetitions && n.timeElapsed == m.timeElapsed &&
    n.parent == m.parent &&
    (m.snapshot.Some? ==> n.snapshot.Some?) &&
    (m.isInVisitedList ==> n.isInVisitedList)
  }

  /** Arena b is arena a with entries evolved and new entries appended. */
  predicate Extends(a: seq<Node>, b: seq<Node>)
  {
    |a| <= |b| && forall i :: 0 <= i < |a| ==> Keeps(a[i], b[i])
  }

  lemma ExtendsTransitive(a: seq<Node>, b: seq<Node>, c: seq<Node>)
    requires Extends(a, b) && Extends(b, c)
    ensures Extends(a, c)
  {
    forall i | 0 <= i < |a| ensures Keeps(a[i], c[i]) {
      assert Keeps(a[i], b[i]) && Keeps(b[i], c[i]);
    }
  }

  /** Evolving one entry keeps the arena consistent. */
  lemma ArenaUpdate(nodes: seq<Node>, c: nat, n: Node)
    requires ArenaOk(nodes) && c < |nodes| && Keeps(nodes[c], n)
    ensures ArenaOk(nodes[c := n]) && Extends(nodes, nodes[c := n])
  {
    var nodes' := nodes[c := n];
    forall i | 0 <= i < |nodes'| ensures NodeOk(nodes', i) {
      assert NodeOk(nodes, i);
    }
  }

  /** Appending children of a simulated entry keeps the arena consistent. */
  lemma ArenaAppend(nodes: seq<Node>, c: nat, kids: seq<Node>)
    requires ArenaOk(nodes) && c < |nodes| && nodes[c].snapshot.Some?
    requires forall j :: 0 <= j < |kids| ==>
               kids[j].parent == Some(c) && kids[j].repetitions == nodes[c].repetitions &&
               kids[j].timeElapsed == nodes[c].timeElapsed + nodes[c].repetitions &&
               !(kids[j].action.left && kids[j].action.right)
    ensures ArenaOk(nodes + kids) && Extends(nodes, nodes + kids)
  {
    var all := nodes + kids;
    forall i | 0 <= i < |all| ensures NodeOk(all, i) {
      if i < |nodes| {
        assert NodeOk(nodes, i);
      } else {
        assert all[i] == kids[i - |nodes|];
      }
    }
  }

  /** The plumber is over a gap, and its y position less half its height exceeds the gap height there. */
  predicate FallingIntoGap(p: Physics, s: Scene)
  {
    p.isGap(s, s.x) && s.y - MarioHeight / 2.0 > p.gapHeight(s, s.x)
  }

  /** The effect of one getMarioDamage call on the live scene. */
  function DamageCheck(p: Physics, s: Scene): (r: Scene)
    ensures r == s.(damage := r.damage)
    ensures r.damage == s.damage || r.damage == s.damage + 5
    ensures r.damage == s.damage + 5 <==> FallingIntoGap(p, s)
  {
    if FallingIntoGap(p, s) then s.(damage := s.damage + 5) else s
  }

  /** The scene just after the tick loop of simulatePos (the first damage check came before it). */
  function TickedScene(p: Physics, parentScene: Scene, n: Node): Scene
  {
    Ticks(p, DamageCheck(p, parentScene), n.action, n.repetitions)
  }

  /** The damage difference that simulatePos charges to the node. */
  function DamageDelta(p: Physics, parentScene: Scene, n: Node): int
  {
    DamageCheck(p, TickedScene(p, parentScene, n)).damage - DamageCheck(p, parentScene).damage
  }

  /** The damage penalty: it shrinks the later in the plan the damage happens. */
  function DamageCost(delta: int, timeElapsed: nat): int
  {
    delta * (DamagePenalty - DamagePenaltyTimeFactor * timeElapsed)
  }

  /** The remaining time simulatePos computes and stores. */
  function RealRemainingTime(p: Physics, parentScene: Scene, n: Node): real
  {
    var s := TickedScene(p, parentScene, n);
    CalcRemainingTime(p, s.x, s.xa) + DamageCost(DamageDelta(p, parentScene, n), n.timeElapsed) as real
    + (if n.isInVisitedList then VisitedListPenalty as real else 0.0)
  }

  /** The scene simulatePos leaves live and records: the third damage check follows the second. */
  function SimulatedScene(p: Physics, parentScene: Scene, n: Node): Scene
  {
    DamageCheck(p, DamageCheck(p, TickedScene(p, parentScene, n)))
  }

  /** The node as simulatePos leaves it. */
  function Simulated(p: Physics, parentScene: Scene, n: Node): (r: Node)
    ensures Keeps(n, r) && r.snapshot == Some(SimulatedScene(p, parentScene, n))
    ensures r.remainingTimeEstimated == n.remainingTimeEstimated && r.isInVisitedList == n.isInVisitedList
    ensures r.remainingTime == RealRemainingTime(p, parentScene, n)
    ensures r.hasBeenHurt <==> SimulatedScene(p, parentScene, n).damage != DamageCheck(p, parentScene).damage
  {
    var s := SimulatedScene(p, parentScene, n);
    n.(remainingTime := RealRemainingTime(p, parentScene, n),
       hasBeenHurt := s.damage - DamageCheck(p, parentScene).damage != 0,
       snapshot := Some(s))
  }

  /**
   * For the same scene, action and positive damage, a node that takes the damage
   * earlier gets the strictly higher remaining time.
   */
  lemma EarlierDamageCostsMore(p: Physics, parentScene: Scene, n: Node, later: nat)
    requires n.timeElapsed < later
    requires DamageDelta(p, parentScene, n) > 0
    ensures RealRemainingTime(p, parentScene, n) > RealRemainingTime(p, parentScene, n.(timeElapsed := later))
  {
    var m := n.(timeElapsed := later);
    var d := DamageDelta(p, parentScene, n);
    assert TickedScene(p, parentScene, m) == TickedScene(p, parentScene, n);
    assert DamageDelta(p, parentScene, m) == d;
    assert DamageCost(d, n.timeElapsed) - DamageCost(d, later) == d * (DamagePenaltyTimeFactor * (later - n.timeElapsed));
    assert d * (DamagePenaltyTimeFactor * (later - n.timeElapsed)) > 0;
  }

  /** The visited-list penalty is added exactly when the node carries the visited flag. */
  lemma VisitedPenaltyIffFlagged(p: Physics, parentScene: Scene, n: Node)
    ensures RealRemainingTime(p, parentScene, n.(isInVisitedList := true))
         == RealRemainingTime(p, parentScene, n.(isInVisitedList := false)) + VisitedListPenalty as real
  {
    var a, b := n.(isInVisitedList := true), n.(isInVisitedList := false);
    assert TickedScene(p, parentScene, a) == TickedScene(p, parentScene, b);
  }
}
