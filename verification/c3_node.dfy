/**
 The goal-lifecycle state machine of the C3 trajectory node
 (legacy/c3_trajectory_generator/src/node.cpp). Every ROS callback is one
 pure transition over an immutable `Node` record.
 */
module C3Node {
  import opened Wrappers
  import opened C3Types

  /**
   The mutable members of `struct Node` that the callbacks read and write:
   the `disabled` flag, the optional trajectory and its clock
   `c3trajectory_t`, the commanded waypoint and its time, and the goal
   tolerances. Times are in nanoseconds.
   */
  datatype Node<S> = Node(
    disabled: bool,
    traj: Option<S>,
    trajT: int,
    waypoint: Waypoint,
    waypointT: int,
    linearTolerance: real,
    angularTolerance: real)

  /**
   The state right after construction: enabled and without a trajectory.
   The waypoint, its time and the tolerances are not initialised by the
   constructor; they are whatever the caller passes here.
   */
  function Initial<S>(w: Waypoint, t: int, lin: real, ang: real): (n: Node<S>)
    ensures !n.disabled && n.traj.None?
  {
    Node(false, None, t, w, t, lin, ang)
  }

  // ---------------------------------------------------------------------
  // set_disabled service and the kill-raise callback
  // ---------------------------------------------------------------------

  /** `Node::set_disabled`: store the flag; disabling destroys the trajectory. */
  function SetDisabled<S>(n: Node<S>, disabled: bool): (r: Node<S>)
    ensures r.disabled == disabled
    ensures disabled ==> r.traj.None?
    ensures !disabled ==> r.traj == n.traj
    ensures r.(disabled := n.disabled, traj := n.traj) == n
  {
    if disabled then n.(disabled := true, traj := None) else n.(disabled := false)
  }

  /** The kill listener's raise callback: the trajectory is destroyed, nothing else changes. */
  function KillRaised<S>(n: Node<S>): (r: Node<S>)
    ensures r.traj.None?
    ensures r.(traj := n.traj) == n
  {
    n.(traj := None)
  }

  // ---------------------------------------------------------------------
  // odom_callback
  // ---------------------------------------------------------------------

  /** The measured point with roll and pitch zeroed and every rate zeroed. */
  function InitialPoint(measured: Point): (p: Point)
    ensures p.q[3] == 0.0 && p.q[4] == 0.0
    ensures forall i | i in {0, 1, 2, 5} :: p.q[i] == measured.q[i]
    ensures p.qdot == Zero6
  {
    Point(measured.q[3 := 0.0][4 := 0.0], Zero6)
  }

  /**
   `Node::odom_callback`: the first odometry sample received while no
   trajectory exists and the vehicle is neither killed nor disabled starts
   the trajectory at the measured pose, at rest and level, and commands that
   same point.
   */
  function OdomCallback<S>(env: Env<S>, cfg: Config, n: Node<S>, killed: bool,
                           now: int, measured: Point): (r: Node<S>)
    ensures n.traj.Some? || killed || n.disabled ==> r == n
    ensures !(n.traj.Some? || killed || n.disabled) ==>
      && r.traj == Some(env.start(r.waypoint.r))
      && r.waypoint.r.q[3] == 0.0 && r.waypoint.r.q[4] == 0.0
      && r.waypoint.r.q[0] == measured.q[0] && r.waypoint.r.q[1] == measured.q[1]
      && r.waypoint.r.q[2] == measured.q[2] && r.waypoint.r.q[5] == measured.q[5]
      && r.waypoint.r.qdot == Zero6
      && r.trajT == now && r.waypointT == now
      && r.disabled == n.disabled
      && r.linearTolerance == n.linearTolerance && r.angularTolerance == n.angularTolerance
  {
    if n.traj.Some? || killed || n.disabled then n
    else
      var p := InitialPoint(measured);
      n.(traj := Some(env.start(p)), trajT := now, waypoint := WaypointAt(cfg, p), waypointT := now)
  }

  // ---------------------------------------------------------------------
  // timer_callback, step 1: goal intake through the validity policy
  // ---------------------------------------------------------------------

  /** True when `a` is more than 0.5 away from `b` along x or along y. */
  predicate Displaced(a: Vec6, b: Vec6)
  {
    Abs(a[0] - b[0]) > 0.5 || Abs(a[1] - b[1]) > 0.5
  }

  /**
   The validity policy for a newly proposed waypoint: a pose in an
   occupied region is refused; a pose in an unknown region is refused only
   when it moves more than 0.5 along x or y from the previous waypoint; a
   valid pose, or any other error code, is accepted.
   */
  function FilterGoal<S>(env: Env<S>, previous: Waypoint, proposed: Waypoint): (w: Waypoint)
    ensures w == proposed || w == previous
    ensures env.validity(PoseOf(env, proposed.r.q)).valid ==> w == proposed
    ensures var v := env.validity(PoseOf(env, proposed.r.q));
      !v.valid && v.errorType == OccupiedError ==> w == previous
    ensures var v := env.validity(PoseOf(env, proposed.r.q));
      !v.valid && v.errorType == UnknownError && Displaced(proposed.r.q, previous.r.q) ==> w == previous
    ensures var v := env.validity(PoseOf(env, proposed.r.q));
      !v.valid && v.errorType == UnknownError && !Displaced(proposed.r.q, previous.r.q) ==> w == proposed
    ensures var v := env.validity(PoseOf(env, proposed.r.q));
      !v.valid && v.errorType != UnknownError && v.errorType != OccupiedError ==> w == proposed
  {
    var v := env.validity(PoseOf(env, proposed.r.q));
    if v.valid then proposed
    else if v.errorType == UnknownError then
      var a := PoseOf(env, proposed.r.q);
      var b := PoseOf(env, previous.r.q);
      if Abs(a.x - b.x) > 0.5 || Abs(a.y - b.y) > 0.5 then previous else proposed
    else if v.errorType == OccupiedError then previous
    else proposed
  }

  /**
   Accepting a new goal: the waypoint is the filtered goal, while its time
   and both tolerances are overwritten whether or not the goal survived the
   filter.
   */
  function AcceptGoal<S>(env: Env<S>, n: Node<S>, g: Goal, now: int): (r: Node<S>)
    ensures r.waypoint == FilterGoal(env, n.waypoint, GoalWaypoint(g))
    ensures r.waypointT == now
    ensures r.linearTolerance == g.linearTolerance && r.angularTolerance == g.angularTolerance
    ensures r.disabled == n.disabled && r.traj == n.traj && r.trajT == n.trajT
  {
    n.(waypoint := FilterGoal(env, n.waypoint, GoalWaypoint(g)), waypointT := now,
       linearTolerance := g.linearTolerance, angularTolerance := g.angularTolerance)
  }

  /**
   The tick's goal-intake step: without a new goal nothing changes; with one
   the filtered goal is commanded from `now`. The trajectory, its clock and
   the flag are never touched.
   */
  function Intake<S>(env: Env<S>, n: Node<S>, input: TickInput): (r: Node<S>)
    ensures input.goal.None? ==> r == n
    ensures input.goal.Some? ==>
      && r.waypoint == FilterGoal(env, n.waypoint, GoalWaypoint(input.goal.value))
      && r.waypointT == input.now
    ensures r.traj == n.traj && r.trajT == n.trajT && r.disabled == n.disabled
  {
    if input.goal.Some? then AcceptGoal(env, n, input.goal.value, input.now) else n
  }

  // ---------------------------------------------------------------------
  // Steps 2 and 4: hard stop (preemption and rollback)
  // ---------------------------------------------------------------------

  /**
   A hard stop at pose `q`: command `q` with zero rates, restart the
   integrator from that point and set both clocks to `now`.
   */
  function StopAndRestart<S>(env: Env<S>, cfg: Config, n: Node<S>, q: Vec6, now: int): (r: Node<S>)
    ensures r.waypoint.r.q == q && r.waypoint.r.qdot == Zero6
    ensures r.traj == Some(env.start(r.waypoint.r))
    ensures r.trajT == now && r.waypointT == now
    ensures r.disabled == n.disabled
    ensures r.linearTolerance == n.linearTolerance && r.angularTolerance == n.angularTolerance
  {
    var w := StopAt(cfg, q);
    n.(waypoint := w, waypointT := now, traj := Some(env.start(w.r)), trajT := now)
  }

  /**
   The tick's preemption step: on a preempt request, stop at the current
   trajectory point and restart there; otherwise nothing changes.
   */
  function PreemptStage<S>(env: Env<S>, cfg: Config, n: Node<S>, input: TickInput): (r: Node<S>)
    requires n.traj.Some?
    ensures r.traj.Some? && r.disabled == n.disabled
    ensures !input.preempt ==> r == n
    ensures input.preempt ==>
      && r.waypoint == StopAt(cfg, env.current(n.traj.value).q)
      && r.traj == Some(env.start(r.waypoint.r))
      && r.trajT == input.now && r.waypointT == input.now
  {
    if input.preempt then StopAndRestart(env, cfg, n, env.current(n.traj.value).q, input.now) else n
  }

  // ---------------------------------------------------------------------
  // Step 3: fixed-step catch-up
  // ---------------------------------------------------------------------

  /** Outcome of the catch-up loop: the integrator state, its clock, and how many updates ran. */
  datatype Advance<S> = Advance(traj: S, clock: int, steps: nat)

  /**
   Reference definition: `k` integrator updates of step `dt` starting from
   state `s` at clock `t`; update number `i` (from 0) sees the waypoint age
   `t + i * dt - wT`.
   */
  function Steps<S>(env: Env<S>, dt: int, w: Waypoint, wT: int, s: S, t: int, k: nat): S
    decreases k
  {
    if k == 0 then s else env.update(Steps(env, dt, w, wT, s, t, k - 1), dt, w, t + (k - 1) * dt - wT)
  }

  /** Running one update first and then `k` more is `k + 1` updates from the start. */
  lemma {:induction false} StepsShift<S>(env: Env<S>, dt: int, w: Waypoint, wT: int, s: S, t: int, k: nat)
    ensures Steps(env, dt, w, wT, env.update(s, dt, w, t - wT), t + dt, k) == Steps(env, dt, w, wT, s, t, k + 1)
    decreases k
  {
    if k > 0 {
      StepsShift(env, dt, w, wT, s, t, k - 1);
      assert t + dt + (k - 1) * dt == t + k * dt;
    }
  }

  /**
   The loop `while (c3trajectory_t + traj_dt < now)`: it advances the clock
   in whole steps of `dt`, stops as soon as the clock is within one step of
   `now`, never moves the clock past `now`, and runs exactly one update with
   the fixed `dt` per step.
   */
  function CatchUp<S>(env: Env<S>, dt: int, w: Waypoint, wT: int, s: S, t: int, now: int): (r: Advance<S>)
    requires dt > 0
    ensures r.clock == t + r.steps * dt
    ensures r.clock + dt >= now
    ensures r.steps > 0 ==> r.clock < now
    ensures r.traj == Steps(env, dt, w, wT, s, t, r.steps)
    decreases now - t
  {
    if t + dt < now then
      var rest := CatchUp(env, dt, w, wT, env.update(s, dt, w, t - wT), t + dt, now);
      StepsShift(env, dt, w, wT, s, t, rest.steps);
      assert t + dt + rest.steps * dt == t + (rest.steps + 1) * dt;
      Advance(rest.traj, rest.clock, rest.steps + 1)
    else
      Advance(s, t, 0)
  }

  /**
   The tick's catch-up step applied to the node: only the trajectory and its
   clock change; the clock never goes back and ends within one step of `now`.
   */
  function CatchUpStage<S>(env: Env<S>, cfg: Config, n: Node<S>, now: int): (r: Node<S>)
    requires n.traj.Some? && cfg.trajDt > 0
    ensures r.traj.Some?
    ensures n.trajT <= r.trajT && r.trajT + cfg.trajDt >= now
    ensures r.trajT > n.trajT ==> r.trajT < now
    ensures r.(traj := n.traj, trajT := n.trajT) == n
  {
    var a := CatchUp(env, cfg.trajDt, n.waypoint, n.waypointT, n.traj.value, n.trajT, now);
    n.(traj := Some(a.traj), trajT := a.clock)
  }

  // ---------------------------------------------------------------------
  // Step 4: rollback when the new trajectory point is occupied
  // ---------------------------------------------------------------------

  /** The validity service reports the current trajectory point as occupied. */
  predicate TrajectoryOccupied<S>(env: Env<S>, n: Node<S>)
    requires n.traj.Some?
  {
    var v := env.validity(PoseOf(env, env.current(n.traj.value).q));
    !v.valid && v.errorType == OccupiedError
  }

  /**
   Roll back to the pre-update point `anchor` when the new point is
   occupied: command it at rest and restart there; otherwise nothing changes.
   */
  function RollbackStage<S>(env: Env<S>, cfg: Config, n: Node<S>, anchor: PointWithAcceleration, now: int): (r: Node<S>)
    requires n.traj.Some?
    ensures r.traj.Some? && r.disabled == n.disabled
    ensures !TrajectoryOccupied(env, n) ==> r == n
    ensures TrajectoryOccupied(env, n) ==>
      && r.waypoint == StopAt(cfg, anchor.q)
      && r.traj == Some(env.start(r.waypoint.r))
      && r.trajT == now && r.waypointT == now
  {
    if TrajectoryOccupied(env, n) then StopAndRestart(env, cfg, n, anchor.q, now) else n
  }

  // ---------------------------------------------------------------------
  // Step 5 and the whole tick
  // ---------------------------------------------------------------------

  /** Lower bound the node puts under both goal tolerances. */
  const MinTolerance: real := 0.001

  /** The success test: active goal, current point within tolerance, stationary waypoint. */
  predicate Succeeds<S>(env: Env<S>, n: Node<S>, active: bool)
    requires n.traj.Some?
  {
    && active
    && env.approx(env.current(n.traj.value), n.waypoint.r,
                  Max(MinTolerance, n.linearTolerance), Max(MinTolerance, n.angularTolerance))
    && n.waypoint.r.qdot == Zero6
  }

  /** What the action server reports on one timer event. */
  datatype TickInput = TickInput(now: int, goal: Option<Goal>, preempt: bool, active: bool)

  /**
   What one tick publishes: the trajectory message and the waypoint pose
   message with their header stamps, and whether the goal was set succeeded.
   */
  datatype Published = Published(
    trajectoryStamp: int, trajectory: PointWithAcceleration,
    waypointStamp: int, waypointPose: Pose,
    succeeded: bool)

  datatype TickResult<S> = TickResult(node: Node<S>, published: Option<Published>)

  /**
   `Node::timer_callback`: without a trajectory nothing happens; otherwise
   goal intake, preemption, catch-up, rollback, publication and the success
   test, in that order.
   */
  function Tick<S>(env: Env<S>, cfg: Config, n: Node<S>, input: TickInput): (r: TickResult<S>)
    requires cfg.trajDt > 0
    ensures n.traj.None? ==> r.node == n && r.published.None?
    ensures n.traj.Some? ==> r.node.traj.Some? && r.published.Some?
    ensures r.node.disabled == n.disabled
    ensures n.traj.Some? ==>
      && r.published.value.trajectoryStamp == r.node.trajT
      && r.published.value.waypointStamp == r.node.trajT
      && r.node.trajT + cfg.trajDt >= input.now
      && r.published.value.trajectory == env.current(r.node.traj.value)
      && r.published.value.waypointPose == PoseOf(env, r.node.waypoint.r.q)
    ensures n.traj.Some? && input.goal.Some? ==>
      && r.node.waypointT == input.now
      && r.node.linearTolerance == input.goal.value.linearTolerance
      && r.node.angularTolerance == input.goal.value.angularTolerance
    ensures n.traj.Some? ==>
      (r.published.value.succeeded <==>
        && input.active
        && env.approx(env.current(r.node.traj.value), r.node.waypoint.r,
                      Max(MinTolerance, r.node.linearTolerance), Max(MinTolerance, r.node.angularTolerance))
        && r.node.waypoint.r.qdot == Zero6)
  {
    match n.traj
    case None => TickResult(n, None)
    case Some(_) =>
      var n1 := Intake(env, n, input);
      var n2 := PreemptStage(env, cfg, n1, input);
      var anchor := env.current(n2.traj.value);
      var n3 := CatchUpStage(env, cfg, n2, input.now);
      var n4 := RollbackStage(env, cfg, n3, anchor, input.now);
      var p := env.current(n4.traj.value);
      TickResult(n4, Some(Published(n4.trajT, p, n4.trajT, PoseOf(env, n4.waypoint.r.q),
                                    Succeeds(env, n4, input.active))))
  }
}
