/**
 * The world the planner searches over. The simulator itself (LevelScene) is not
 * part of this model: a scene is a value holding what the planner reads, and every
 * physics query is a total function supplied by the caller in a `Physics` record.
 */
module World {

  /** One control input: the three key flags of AStarSimulator's `bool[3]` action. */
  datatype Action = Action(left: bool, right: bool, jump: bool)

  /** createAction: builds the action with the given key flags. */
  function CreateAction(left: bool, right: bool, jump: bool): (a: Action)
    ensures a.left == left && a.right == right && a.jump == jump
  {
    Action(left, right, jump)
  }

  /** The root node's action, which AStarSimulator leaves null and never reads. */
  const NoKeys: Action := Action(false, false, false)

  /** The plain run-right action used by the fallback plan. */
  const RunRight: Action := Action(false, true, false)

  type PositiveReal = r: real | r > 0.0 witness 1.0

  /**
   * A world snapshot. Cloning a LevelScene is copying this value. `hidden` stands
   * for the rest of the simulator state (velocities, timers, level tiles) that the
   * planner never reads but that `tick` may depend on.
   */
  datatype Scene = Scene(
    x: real,          // plumberXposition
    y: real,          // plumberYposition
    xa: real,         // plumberXacceleration
    mayJump: bool,    // PlumberMayJump()
    damage: int,      // plumberDamage
    hidden: seq<real>)

  /**
   * The simulator and physics approximations the planner calls but which are not
   * modelled: one tick of the simulation, the gap queries, the closed-form forward
   * movement, the forward-movement estimate loop, and the maximum speed.
   */
  datatype Physics = Physics(
    tick: (Scene, Action) -> Scene,
    isGap: (Scene, real) -> bool,
    gapHeight: (Scene, real) -> real,
    maxForwardMovement: (real, int) -> real,
    estimateForwardMovement: (real, Action, nat) -> (real, real),
    maxSpeed: PositiveReal)

  /** The scene after holding action `a` for `n` ticks. */
  function Ticks(p: Physics, s: Scene, a: Action, n: nat): Scene
  {
    if n == 0 then s else p.tick(Ticks(p, s, a, n - 1), a)
  }

  /** The scene after applying `acts` one tick each, in order. */
  function TickAll(p: Physics, s: Scene, acts: seq<Action>): Scene
  {
    if acts == [] then s else p.tick(TickAll(p, s, acts[..|acts| - 1]), acts[|acts| - 1])
  }
}
