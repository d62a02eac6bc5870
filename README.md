# A* action planner of VAErio-Bros

This project models the A* action planner of the VAErio-Bros platformer agent,
`AStarSimulator`. The planner is a simplified port of Robin Baumgarten's Mario A*
controller.

A search episode starts from a snapshot of the world (a `LevelScene`). It grows a tree
of search nodes, each of which holds one macro-action (left / right / jump flags) for
`repetitions` simulator ticks. The open list (`posPool`) is scanned linearly for the
node of lowest cost: remaining time plus 0.9 per elapsed tick. The chosen node is
simulated from its parent's snapshot, and its outcome is dispatched in one of four ways:

- discarded;
- requeued with the visited-list penalty;
- requeued with its estimate corrected;
- accepted, recorded in an approximate closed list (`visitedStates`), and expanded into
  its 2 or 5 children.

The episode tracks a best node and a furthest node, and applies a gap-avoidance
fallback at the end. `extractPlan` flattens the best node's path into per-tick actions.
`optimise` is a receding-horizon controller: it keeps a replanning countdown, plans from
a state a few ticks in the future, and hands out one action per call.

Modules:

- `World` (world.dfy) holds actions, the world snapshot `Scene`, and a `Physics` record.
  The record holds the simulator operations the planner calls but which are not part of
  this model: one tick, the gap queries, the two forward-movement approximations and
  the maximum speed.
- `SearchNodes` (search_node.dfy) holds the `SearchNode` data, its construction, its
  cost, child generation, and what `simulatePos` computes.
- `VisitedSet` (visited.dfy) is the closed list.
- `OpenList` (open_list.dfy) is `pickBestPos`.
- `Plans` (plan.dfy) is the plan `extractPlan` builds, with its properties.
- `Planner` (planner.dfy) is the stateful class `AStarSimulator`: the search loop,
  `Plan` and `optimise`.

Representation choices:

- Nodes live in an arena, the field `nodes: seq<Node>`. A parent, an open-list entry
  and best/furthest are indices into that arena. A C# mutation of a node is an
  update of its arena entry.
- Cloning or restoring a `LevelScene` is copying a `Scene` value.
- Costs are `real`.
- The C# `while` loop in `search` has no bound, so `Search` takes a `fuel`
  argument that caps the number of iterations.
- The search loop is also given as values. A `SearchState` holds the arena, the open
  list, the closed list, best, furthest, the live scene and the loop's `current` and
  `currentGood` variables. `Step` is one iteration on it. A ghost trace of such states
  is `Finished` when each state after the first is `Step` of the one before, taken
  while the loop guard held, and the guard fails at the end unless the fuel ran out.
  `Search`, `Plan` and `Optimise` return that trace and state their final fields as
  its last state's. `FinishedUnique` shows that the start state and the fuel determine
  the trace.
- The class carries a ghost constant `stepper`, a function value equal to `Step` on
  every state the loop can step from. The traces are stated over it.
- The class invariant `Valid` says five things. `stepper` is the loop's iteration.
  Parents precede children and have snapshots. The open list names only non-root
  nodes. Best and furthest are set together and have snapshots. Before the first
  episode the countdown is due.

Behaviour of the C# code worth noting (the model follows the code):

- On acceptance `bestPosition` becomes the accepted node unconditionally
  (`AStarSimulator.cs:288-291`). No cost comparison is made; the code's comment there
  relies on the A* property that the node taken from the open list is the best one.
- The 10-action run-right fallback of `extractPlan` applies only while there is no best
  node, which means before the first episode. After an episode whose best node is still
  the root, the extracted plan is empty (`AStarSimulator.cs:382-413`).
- `optimise` advances the live `levelScene`, not `workScene`, by the lookahead actions.
  It then copies the result into `workScene` (`AStarSimulator.cs:543-547`).
- Accepted nodes are recorded with x and y truncated to `int`, but queries use the
  untruncated position (`AStarSimulator.cs:252`, `280`).
- `getMarioDamage` is called three times in `simulatePos`, and each call can add 5
  damage (`AStarSimulator.cs:120`, `133`, `136`).
- A child's forward-movement estimate starts from the live x position, passed where the
  initial acceleration is expected (`AStarSimulator.cs:107-108`).
- With an empty action buffer, `currentActionPlan.RemoveAt(0)` throws
  (`AStarSimulator.cs:560`). `Optimise` then yields `None`, and the live scene is not
  restored.

## Model

| member | source | states |
|---|---|---|
| World.CreateAction | vaeriobros/Assets/AStar/AStarSimulator.cs:339-348 | the action has exactly the given left, right and jump flags |
| SearchNodes.NewRoot | vaeriobros/Assets/AStar/AStarSimulator.cs:67-84 | a root has no parent, elapsed time 0, the given repetitions, is unsimulated, and costs calcRemainingTime(live x, 0) |
| SearchNodes.NewChild | vaeriobros/Assets/AStar/AStarSimulator.cs:104-111 | a child links to its parent, keeps the action and repetitions, has elapsed time parent's + repetitions, is unsimulated (so its remaining time is its estimate), and its estimate is calcRemainingTime of the live x advanced by the forward-movement estimate |
| SearchNodes.CalcRemainingTimeCoversDistance | vaeriobros/Assets/AStar/AStarSimulator.cs:89-94 | the estimate plus the 1000 offset, times the top speed, is the distance left to the 100000 target after the fastest run over 1000 ticks |
| SearchNodes.CalcRemainingTimeDecreasesWithX | vaeriobros/Assets/AStar/AStarSimulator.cs:89-94 | at equal acceleration, a position further right has strictly less estimated remaining time |
| SearchNodes.GetRemainingTime | vaeriobros/Assets/AStar/AStarSimulator.cs:96-102 | the simulated remaining time when positive, the estimate otherwise |
| SearchNodes.CostCountsElapsedTicks | vaeriobros/Assets/AStar/AStarSimulator.cs:425-426 | the ranking cost is never below the remaining time, and equals it exactly when no tick has elapsed |
| SearchNodes.CanJumpHigher | vaeriobros/Assets/AStar/AStarSimulator.cs:328-337 | true iff the node's snapshot may jump, or checkParent holds and the parent's snapshot may jump (exactly one generation back) |
| SearchNodes.CreatePossibleActions | vaeriobros/Assets/AStar/AStarSimulator.cs:155-174 | the list is jump, right, right+jump, left, left+jump when canJumpHigher holds, else right, left; a jump action is present iff canJumpHigher holds; no action has both left and right |
| SearchNodes.GenerateChildren | vaeriobros/Assets/AStar/AStarSimulator.cs:142-152 | one child per possible action in list order (2 or 5); each links to the parent, has its repetitions and elapsed time parent's + repetitions, is unsimulated and never both directions |
| SearchNodes.DamageCheck | vaeriobros/Assets/AStar/AStarSimulator.cs:363-373 | only the damage counter changes; it grows by 5 exactly when the plumber is over a gap and its y position minus half its height is greater than the gap height, otherwise it stays |
| SearchNodes.Simulated | vaeriobros/Assets/AStar/AStarSimulator.cs:114-140 | the simulated node keeps action, repetitions, elapsed time, parent, estimate and visited flag; its snapshot is the scene after the damage check, the ticks and two more damage checks; its remaining time is calcRemainingTime + damage delta times (1000000 - 100 * elapsed) + the visited penalty if flagged; hurt iff the last damage differs from the initial one |
| SearchNodes.EarlierDamageCostsMore | vaeriobros/Assets/AStar/AStarSimulator.cs:132-133 | for a fixed positive damage delta, taking the damage at an earlier elapsed time gives a strictly higher remaining time |
| SearchNodes.VisitedPenaltyIffFlagged | vaeriobros/Assets/AStar/AStarSimulator.cs:134-135 | the visited flag adds exactly visitedListPenalty to the simulated remaining time |
| VisitedSet.Trunc | vaeriobros/Assets/AStar/AStarSimulator.cs:280 | the (int) cast truncates toward zero: the result lies within 1 of the value on the side of zero |
| VisitedSet.IsInVisited | vaeriobros/Assets/AStar/AStarSimulator.cs:478-493 | true iff some entry is within xDiff, yDiff and timeDiff of (x, y, t) and was recorded no later than t |
| VisitedSet.RecordedTimeMatchesExactly | vaeriobros/Assets/AStar/AStarSimulator.cs:484-487 | against an entry recorded with an integral elapsed time, the time test matches only that same time |
| VisitedSet.OwnRecordMatch | vaeriobros/Assets/AStar/AStarSimulator.cs:280 | a node's own position matches its recorded entry iff both coordinates lie within the tolerance of their truncation |
| VisitedSet.InVisitedAppend | vaeriobros/Assets/AStar/AStarSimulator.cs:473-476 | appending entries never makes a visited triple unvisited |
| OpenList.BestSoFarIsFirstMinimum | vaeriobros/Assets/AStar/AStarSimulator.cs:422-432 | the slot held after scanning n pool entries has a cost no greater than any of them and strictly below every one before it |
| OpenList.PickBestPos | vaeriobros/Assets/AStar/AStarSimulator.cs:418-435 | the returned node is a pool member of minimal cost, strictly cheaper than (and distinct from) every member before it; exactly its first occurrence is removed, the rest keeps its order, and the multiset is preserved |
| Plans.PlanForCases | vaeriobros/Assets/AStar/AStarSimulator.cs:377-414 | without a best node the plan is 10 run-right actions; with one it has as many actions as ticks elapsed at that node and extends the plan of each of its ancestors |
| Plans.PathPlanLength | vaeriobros/Assets/AStar/AStarSimulator.cs:394-410 | the plan of a node has as many actions as ticks elapsed at the node, the sum of repetitions over its non-root ancestors |
| Plans.PathPlanBlock | vaeriobros/Assets/AStar/AStarSimulator.cs:395-409 | a non-root node's plan is its parent's plan followed by its own action repeated its repetition count |
| Plans.AncestorPlanIsPrefix | vaeriobros/Assets/AStar/AStarSimulator.cs:397-399 | the plan of every ancestor is a prefix of the node's plan (root-to-leaf order) |
| Plans.PlanActionAt | vaeriobros/Assets/AStar/AStarSimulator.cs:394-410 | tick k of the plan is the action of the non-root ancestor whose elapsed-time window contains k |
| Plans.PlanNeverBothDirections | vaeriobros/Assets/AStar/AStarSimulator.cs:377-414 | no action of an extracted plan, fallback included, presses left and right together |
| Plans.PathPlanNeverBothDirections | vaeriobros/Assets/AStar/AStarSimulator.cs:394-410 | no action of a node's path plan presses left and right together |
| Planner.DispatchKeepsArena | vaeriobros/Assets/AStar/AStarSimulator.cs:246-287 | every dispatch branch keeps the arena and open list consistent, changes only the dispatched node (keeping its identity and visited flag, and its snapshot unchanged), and appends exactly one closed-list entry on acceptance and none otherwise |
| Planner.DispatchOutcome | vaeriobros/Assets/AStar/AStarSimulator.cs:246-287 | acceptance holds iff the node is not negative, not newly found visited and not more than 0.1 worse than estimated; a discarded node leaves the pool as it is, a requeued one is appended once, an accepted one appends exactly its generated 2 or 5 children to the arena and their new indices to the pool and records its truncated position; a node newly found visited is flagged and both its times become the simulated time plus visitedListPenalty, and a node more than 0.1 worse has its estimate overwritten by the simulated time |
| Planner.Step | vaeriobros/Assets/AStar/AStarSimulator.cs:234-300 | one loop iteration on a consistent state leaves a consistent state whose current node is the first cheapest pool node and whose live scene is that node's new snapshot; best becomes the node exactly on acceptance and is kept otherwise; furthest becomes the node iff it was accepted, its x exceeds the old furthest's x and it is not over a gap, and is kept otherwise (lines 288-299) |
| Planner.StepExtends | vaeriobros/Assets/AStar/AStarSimulator.cs:234-300 | an iteration only evolves or appends arena entries, leaves every root as it is, and only appends to the closed list |
| Planner.StepperIterates | vaeriobros/Assets/AStar/AStarSimulator.cs:230-301 | the total function value Stepper agrees with one loop iteration on every state the loop can step from |
| Planner.AcceptedFarEnoughStops | vaeriobros/Assets/AStar/AStarSimulator.cs:230-231 | the guard ends the loop after an iteration that accepts a node at least maxRight past the episode's start, since that node becomes best |
| Planner.ChainedSnoc | vaeriobros/Assets/AStar/AStarSimulator.cs:230-234 | a run of the loop extends by one iteration when the guard holds at its last state |
| Planner.ChainedPrefix | vaeriobros/Assets/AStar/AStarSimulator.cs:230-301 | every non-empty prefix of a run of the loop is a run |
| Planner.ChainedDeterministic | vaeriobros/Assets/AStar/AStarSimulator.cs:230-301 | two runs of the loop from the same state agree on their common length |
| Planner.FinishedUnique | vaeriobros/Assets/AStar/AStarSimulator.cs:230-301 | two finished runs with the same start state and fuel are the same run, so the loop's outcome is determined by its start |
| Planner.EpisodeIdempotent | vaeriobros/Assets/AStar/AStarSimulator.cs:184-197 | two plannings from the same live scene with the same repetitions and fuel run the same search, keep the same node and return the same plan |
| Planner.FallbackBest | vaeriobros/Assets/AStar/AStarSimulator.cs:303-310 | the node kept is furthest when the live x is less than maxRight past the start, furthest lies more than 20 beyond best, and best is over a gap, and best in every other case |
| Planner.StartState | vaeriobros/Assets/AStar/AStarSimulator.cs:204-220 | a consistent state whose arena is StartArena of the live scene, whose open list is exactly the root's 2 or 5 children in order, with an empty closed list and best, furthest and current at the root |
| Planner.StartArena | vaeriobros/Assets/AStar/AStarSimulator.cs:207-215 | a consistent arena of 3 or 6 nodes: the new root with the live scene as snapshot, followed by exactly the children the root generates on that scene, each linked to the root |
| Planner.AStarSimulator.constructor | vaeriobros/Assets/AStar/AStarSimulator.cs:177-181 | the live scene is the loaded scene, no episode has started, the countdown is 0, the buffer and lists are empty, stepsPerSearch is 6 |
| Planner.AStarSimulator.AdvanceStep | vaeriobros/Assets/AStar/AStarSimulator.cs:454-465 | the live scene is ticked once with the action |
| Planner.AStarSimulator.GetMarioDamage | vaeriobros/Assets/AStar/AStarSimulator.cs:363-373 | the live scene takes one damage check and the returned value is its counter, never below the old one |
| Planner.AStarSimulator.Visited | vaeriobros/Assets/AStar/AStarSimulator.cs:473-476 | the closed list gains exactly the given entry at its end |
| Planner.AStarSimulator.SimulatePos | vaeriobros/Assets/AStar/AStarSimulator.cs:114-140 | the node becomes Simulated from its parent's snapshot, the live scene is its new snapshot, the returned value is its remaining time, and the parent keeps an equal snapshot |
| Planner.AStarSimulator.StartSearch | vaeriobros/Assets/AStar/AStarSimulator.cs:204-220 | the loop state becomes StartState of the live scene (a fresh root and its children, an empty closed list, best and furthest at the root) and the start x is the live x |
| Planner.AStarSimulator.DispatchCurrent | vaeriobros/Assets/AStar/AStarSimulator.cs:246-287 | arena, open list, closed list and acceptance become those of the four-way dispatch, and the node keeps its snapshot |
| Planner.AStarSimulator.PickAndSimulate | vaeriobros/Assets/AStar/AStarSimulator.cs:236-242 | the first cheapest pool node is removed from the pool and simulated; the live scene is its new snapshot |
| Planner.AStarSimulator.SearchIteration | vaeriobros/Assets/AStar/AStarSimulator.cs:234-300 | the new loop state is one iteration (Step) of the old one, and the arena only evolves or grows with its root kept |
| Planner.AStarSimulator.Search | vaeriobros/Assets/AStar/AStarSimulator.cs:223-317 | the returned trace starts at the entry state, takes one iteration per step while the guard holds, and within fuel ends only where the guard fails; arena, open list, closed list and furthest are those of its last state, best is that state's gap fallback, and the live scene is the last picked node's snapshot |
| Planner.AStarSimulator.Finish | vaeriobros/Assets/AStar/AStarSimulator.cs:303-316 | best becomes the gap fallback of the loop's exit state, and the live scene becomes the last picked node's snapshot |
| Planner.AStarSimulator.ExtractPlan | vaeriobros/Assets/AStar/AStarSimulator.cs:377-414 | ten run-right actions without a best node, otherwise the best node's path plan (see Plans) |
| Planner.AStarSimulator.Plan | vaeriobros/Assets/AStar/AStarSimulator.cs:184-197 | one finished search run from StartState of the live scene, which is then restored; the work scene is set if unset; the arena, open list, closed list and furthest are the run's last, best is its gap fallback, and the result is that node's plan, of length its elapsed time |
| Planner.AStarSimulator.Episode | vaeriobros/Assets/AStar/AStarSimulator.cs:189-192 | startSearch then search: a finished run from StartState of the scene live before, with the final fields those of its last state and best its gap fallback |
| Planner.AStarSimulator.AdvanceAhead | vaeriobros/Assets/AStar/AStarSimulator.cs:534-547 | the buffer becomes the extracted plan, the lookahead is min(2, plan length), the live scene advances by that many plan actions and becomes the work scene |
| Planner.AStarSimulator.Replan | vaeriobros/Assets/AStar/AStarSimulator.cs:530-550 | buffer is the extracted plan, countdown is the lookahead, and a new episode is rooted at the advanced scene, which is both live and work scene |
| Planner.AStarSimulator.ContinueSearch | vaeriobros/Assets/AStar/AStarSimulator.cs:552-554 | a finished search run from the episode's arena, lists, best and furthest with the work scene live; the final fields are its last state's, best is its gap fallback, and the work scene becomes the scene it left |
| Planner.AStarSimulator.PopAction | vaeriobros/Assets/AStar/AStarSimulator.cs:556-565 | on a non-empty buffer its first action is removed and returned and the saved live scene restored; on an empty buffer there is no action (the C# code throws) |
| Planner.AStarSimulator.Prepare | vaeriobros/Assets/AStar/AStarSimulator.cs:521-550 | the work scene defaults to the live scene; replans exactly when the decremented countdown is at most 0 or the buffer is empty, and then the buffer is the extracted plan, the countdown min(2, its length), and the loop state StartState of the advanced scene; otherwise only the countdown is decremented; in both cases the state the search then continues from is given in full |
| Planner.AStarSimulator.Optimise | vaeriobros/Assets/AStar/AStarSimulator.cs:519-566 | replans exactly when the decremented countdown is at most 0 or the buffer is empty; the returned trace is a finished search run from StartState of the advanced scene after a replan, else from the episode's state with the work scene live; arena, lists and furthest are its last state's and best its gap fallback; the result is the buffer's first action with the buffer's tail kept and the live scene restored, or none on an empty buffer |

## Left out

- `LevelScene` is not part of this model. Its tick, clone, restore, gap queries, jump
  test and scene loading are fields of the `Physics` record or fields of the `Scene`
  value, with no properties assumed.
- `maxForwardMovement`, `estimateMaximumForwardMovement` and the maximum speed are
  parameters. They are float numerics and foreign calls (`Mathf.Pow`,
  `SharedData.ComputePlayerVelocity`, the latter called with the `tickTime` field
  at `AStarSimulator.cs:507`).
- The maximum speed (`maxMarioSpeed`, which is `SharedData.runSpeed`) is a positive
  real. The model assumes that speed is positive. With a zero or negative speed, the
  division in `calcRemainingTime` would give an infinite or sign-flipped estimate.
  That case is not modelled.
- Costs are exact reals. Single-precision rounding is not modelled.
- `pickBestPos` starts from an infinite cost, so its first comparison always succeeds.
  It is modelled as starting from the first pool entry, which has the same result.
- The 32-bit `int` arithmetic of the damage penalty is unbounded here. Overflow would
  need a damage delta above about 2000 and is not modelled.
- `Debug.Log` calls, the unused `timeBudget` and `MARIOSPEED` fields, the
  commented-out deadline test and the deprecated block are not modelled. None affects
  the planner's state.
- StepGameManager.cs is not part of this model. It is engine lifecycle glue.
- Object identity is not modelled. The model does not capture `restoreState`'s scene
  reactivation, or aliasing between `workScene`, `levelScene` and node snapshots.
  Snapshots are values, so a scene the C# code shares by reference is an equal copy here.
- Search: the loop is bounded by `fuel`. Its contract gives the exit condition only when
  the fuel is not exhausted; a run that uses all its fuel may stop with the guard still
  true, where the C# code would iterate further.
- `stepsPerSearch` is a natural number. A negative value, which the C# code would accept,
  is not modelled.
- An unset `currentActionPlan` (null before the first `optimise`) is modelled as the
  empty buffer. The C# `Count` on null would throw. Such a call is treated as a
  replanning call, which is what every first call with the countdown at 0 is.
- The root's action is null in the C# code and never read. It is modelled as `NoKeys`.
