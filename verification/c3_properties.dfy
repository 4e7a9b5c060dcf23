/**
 Properties of the C3 node that relate several callbacks or several steps
 of one tick: the goal-filter examples, preemption, rollback, the
 success test, and the safety invariant "no trajectory while killed or
 disabled" over every sequence of events.
 */
module C3Properties {
  import opened Wrappers
  import opened C3Types
  import opened C3Node

  // ---------------------------------------------------------------------
  // Goal filter
  // ---------------------------------------------------------------------

  /** Under the unknown-region code a move that keeps x and y is kept, whatever its rotation. */
  lemma RotationOnlyMoveKept<S>(env: Env<S>, previous: Waypoint, proposed: Waypoint)
    requires proposed.r.q[0] == previous.r.q[0] && proposed.r.q[1] == previous.r.q[1]
    requires env.validity(PoseOf(env, proposed.r.q)) == Validity(false, UnknownError)
    ensures FilterGoal(env, previous, proposed) == proposed
  {
  }

  /** Under the unknown-region code a move of 0.51 along x is refused and one of 0.49 is kept. */
  lemma UnknownRegionThreshold<S>(env: Env<S>, previous: Waypoint, far: Waypoint, near: Waypoint)
    requires far.r.q[0] == previous.r.q[0] + 0.51 && far.r.q[1] == previous.r.q[1]
    requires near.r.q[0] == previous.r.q[0] + 0.49 && near.r.q[1] == previous.r.q[1]
    requires !env.validity(PoseOf(env, far.r.q)).valid && env.validity(PoseOf(env, far.r.q)).errorType == UnknownError
    requires !env.validity(PoseOf(env, near.r.q)).valid && env.validity(PoseOf(env, near.r.q)).errorType == UnknownError
    ensures FilterGoal(env, previous, far) == previous
    ensures FilterGoal(env, previous, near) == near
  {
  }

  /**
   A goal arriving on a tick without preemption or rollback ends up
   commanded exactly when the filter keeps it; when the filter refuses it the
   tick's previous waypoint stays commanded.
   */
  lemma {:induction false} TickGoalOutcome<S>(env: Env<S>, cfg: Config, n: Node<S>, input: TickInput)
    requires cfg.trajDt > 0 && n.traj.Some? && input.goal.Some? && !input.preempt
    requires !TrajectoryOccupied(env, CatchUpStage(env, cfg, Intake(env, n, input), input.now))
    ensures Tick(env, cfg, n, input).node.waypoint == FilterGoal(env, n.waypoint, GoalWaypoint(input.goal.value))
    ensures FilterGoal(env, n.waypoint, GoalWaypoint(input.goal.value)) == n.waypoint ||
            Tick(env, cfg, n, input).node.waypoint == GoalWaypoint(input.goal.value)
  {
    var n1 := Intake(env, n, input);
    var n3 := CatchUpStage(env, cfg, n1, input.now);
    assert RollbackStage(env, cfg, n3, env.current(n1.traj.value), input.now) == n3;
  }

  // ---------------------------------------------------------------------
  // Preemption and rollback
  // ---------------------------------------------------------------------

  /**
   A preempting tick ends at rest: the commanded waypoint has zero rates,
   the trajectory was restarted at exactly that point with its clock at
   `now` (no update ran), and the point is the trajectory point current when
   the tick began, or, if that point is occupied, the restarted integrator's
   own current point.
   */
  lemma {:induction false} PreemptionStops<S>(env: Env<S>, cfg: Config, n: Node<S>, input: TickInput)
    requires cfg.trajDt > 0 && n.traj.Some? && input.preempt
    ensures var r := Tick(env, cfg, n, input).node;
      && r.waypoint.r.qdot == Zero6
      && r.traj == Some(env.start(r.waypoint.r))
      && r.trajT == input.now && r.waypointT == input.now
      && (r.waypoint.r.q == env.current(n.traj.value).q ||
          r.waypoint.r.q == env.current(env.start(Point(env.current(n.traj.value).q, Zero6))).q)
  {
    var n1 := Intake(env, n, input);
    assert n1.traj == n.traj;
    var n2 := PreemptStage(env, cfg, n1, input);
    var a := CatchUp(env, cfg.trajDt, n2.waypoint, n2.waypointT, n2.traj.value, n2.trajT, input.now);
    assert a.steps == 0;
    var n3 := CatchUpStage(env, cfg, n2, input.now);
    assert n3 == n2;
  }

  /**
   When the point the catch-up produced is reported occupied, the tick
   commands the pre-update point with zero rates, restarts the trajectory
   there and sets its clock to `now`; in every other case (valid, unknown
   region, any other code) the caught-up trajectory is kept as it is.
   */
  lemma {:induction false} RollbackOnOccupied<S>(env: Env<S>, cfg: Config, n: Node<S>, input: TickInput)
    requires cfg.trajDt > 0 && n.traj.Some?
    ensures var n2 := PreemptStage(env, cfg, Intake(env, n, input), input);
      var n3 := CatchUpStage(env, cfg, n2, input.now);
      var r := Tick(env, cfg, n, input).node;
      && (TrajectoryOccupied(env, n3) ==>
            && r.waypoint == StopAt(cfg, env.current(n2.traj.value).q)
            && r.traj == Some(env.start(r.waypoint.r))
            && r.trajT == input.now && r.waypointT == input.now)
      && (!TrajectoryOccupied(env, n3) ==> r == n3)
  {
  }

  /** An unknown-region answer for the trajectory point never causes a rollback. */
  lemma UnknownTrajectoryPointKept<S>(env: Env<S>, cfg: Config, n: Node<S>, input: TickInput)
    requires cfg.trajDt > 0 && n.traj.Some?
    requires var n3 := CatchUpStage(env, cfg, PreemptStage(env, cfg, Intake(env, n, input), input), input.now);
      env.validity(PoseOf(env, env.current(n3.traj.value).q)).errorType == UnknownError
    ensures Tick(env, cfg, n, input).node ==
            CatchUpStage(env, cfg, PreemptStage(env, cfg, Intake(env, n, input), input), input.now)
  {
  }

  /**
   Without preemption or rollback the published stamps are the trajectory
   clock, which trails wall-clock `now` whenever at least one update ran.
   */
  lemma {:induction false} StampTrailsWallClock<S>(env: Env<S>, cfg: Config, n: Node<S>, input: TickInput)
    requires cfg.trajDt > 0 && n.traj.Some? && !input.preempt
    requires n.trajT + cfg.trajDt < input.now
    requires !TrajectoryOccupied(env, CatchUpStage(env, cfg, Intake(env, n, input), input.now))
    ensures Tick(env, cfg, n, input).published.value.trajectoryStamp < input.now
    ensures Tick(env, cfg, n, input).published.value.trajectoryStamp > n.trajT
  {
    var n1 := Intake(env, n, input);
    var a := CatchUp(env, cfg.trajDt, n1.waypoint, n1.waypointT, n1.traj.value, n1.trajT, input.now);
    assert a.steps > 0;
  }

  // ---------------------------------------------------------------------
  // Success
  // ---------------------------------------------------------------------

  /** Success is never signalled while the commanded waypoint has a nonzero rate. */
  lemma MovingWaypointNeverSucceeds<S>(env: Env<S>, cfg: Config, n: Node<S>, input: TickInput)
    requires cfg.trajDt > 0 && n.traj.Some?
    requires Tick(env, cfg, n, input).node.waypoint.r.qdot != Zero6
    ensures !Tick(env, cfg, n, input).published.value.succeeded
  {
  }

  /**
   A cancelled goal that the action server still reports active is set
   succeeded on the preempting tick itself, as soon as the restarted
   integrator's point is within tolerance of the stop point and that point is
   not occupied: the node never reports a preempted outcome of its own.
   */
  lemma {:induction false} PreemptedActiveGoalSucceeds<S>(env: Env<S>, cfg: Config, n: Node<S>, input: TickInput)
    requires cfg.trajDt > 0 && n.traj.Some? && input.preempt && input.active
    requires var w := StopAt(cfg, env.current(n.traj.value).q);
      var lin := if input.goal.Some? then input.goal.value.linearTolerance else n.linearTolerance;
      var ang := if input.goal.Some? then input.goal.value.angularTolerance else n.angularTolerance;
      && env.approx(env.current(env.start(w.r)), w.r, Max(MinTolerance, lin), Max(MinTolerance, ang))
      && var v := env.validity(PoseOf(env, env.current(env.start(w.r)).q));
         !(!v.valid && v.errorType == OccupiedError)
    ensures Tick(env, cfg, n, input).published.value.succeeded
  {
    var n1 := Intake(env, n, input);
    assert n1.traj == n.traj;
    var n2 := PreemptStage(env, cfg, n1, input);
    var a := CatchUp(env, cfg.trajDt, n2.waypoint, n2.waypointT, n2.traj.value, n2.trajT, input.now);
    assert a.steps == 0;
    assert CatchUpStage(env, cfg, n2, input.now) == n2;
  }

  // ---------------------------------------------------------------------
  // Whole-node event model and the safety invariant
  // ---------------------------------------------------------------------

  /** The events that drive the node. */
  datatype Event =
    | Odom(now: int, measured: Point)
    | Timer(input: TickInput)
    | SetDisabledRequest(disabled: bool)
    | KillRaise
    | KillClear

  /** The node together with the kill alarm's state as the listener sees it. */
  datatype System<S> = System(node: Node<S>, killed: bool)

  /**
   One event, as one atomic callback. Only the kill events change the kill
   state; clearing the kill alarm has no callback of its own and leaves the
   node alone; only the set-disabled service changes the flag.
   */
  function Step<S>(env: Env<S>, cfg: Config, sys: System<S>, e: Event): (r: System<S>)
    requires cfg.trajDt > 0
    ensures e.KillRaise? ==> r.killed && r.node.traj.None?
    ensures e.KillClear? ==> !r.killed && r.node == sys.node
    ensures !e.KillRaise? && !e.KillClear? ==> r.killed == sys.killed
    ensures e.SetDisabledRequest? ==> r.node.disabled == e.disabled
    ensures !e.SetDisabledRequest? ==> r.node.disabled == sys.node.disabled
  {
    match e
    case Odom(now, measured) => sys.(node := OdomCallback(env, cfg, sys.node, sys.killed, now, measured))
    case Timer(input) => sys.(node := Tick(env, cfg, sys.node, input).node)
    case SetDisabledRequest(d) => sys.(node := SetDisabled(sys.node, d))
    case KillRaise => System(KillRaised(sys.node), true)
    case KillClear => sys.(killed := false)
  }

  /** Run a sequence of events in order. */
  function Run<S>(env: Env<S>, cfg: Config, sys: System<S>, es: seq<Event>): System<S>
    requires cfg.trajDt > 0
    decreases |es|
  {
    if es == [] then sys else Run(env, cfg, Step(env, cfg, sys, es[0]), es[1..])
  }

  /** The safety invariant: no trajectory exists while killed or disabled. */
  predicate Safe<S>(sys: System<S>)
  {
    sys.killed || sys.node.disabled ==> sys.node.traj.None?
  }

  lemma StepPreservesSafe<S>(env: Env<S>, cfg: Config, sys: System<S>, e: Event)
    requires cfg.trajDt > 0 && Safe(sys)
    ensures Safe(Step(env, cfg, sys, e))
  {
  }

  /** From any state satisfying the invariant, every sequence of events keeps it. */
  lemma {:induction false} RunPreservesSafe<S>(env: Env<S>, cfg: Config, sys: System<S>, es: seq<Event>)
    requires cfg.trajDt > 0 && Safe(sys)
    ensures Safe(Run(env, cfg, sys, es))
    decreases |es|
  {
    if es != [] {
      StepPreservesSafe(env, cfg, sys, es[0]);
      RunPreservesSafe(env, cfg, Step(env, cfg, sys, es[0]), es[1..]);
    }
  }

  /**
   With the default `traj_dt` of 0.0001 s, every tick leaves the trajectory
   clock, and so both published stamps, at most 100 microseconds behind `now`.
   */
  lemma DefaultStepLag<S>(env: Env<S>, speed: real, coordinated: bool, n: Node<S>, input: TickInput)
    requires n.traj.Some?
    ensures var r := Tick(env, Config(DefaultTrajDt, speed, coordinated), n, input);
      && input.now - 100_000 <= r.node.trajT
      && r.published.value.trajectoryStamp == r.node.trajT
  {
  }

  lemma InitialIsSafe<S>(w: Waypoint, t: int, lin: real, ang: real)
    ensures Safe(System(Initial<S>(w, t, lin, ang), false))
  {
  }

  /**
   Kill semantics: raising the kill alarm destroys the trajectory; clearing
   it and re-enabling do not recreate it; the next odometry sample then
   starts a fresh trajectory at that sample's pose, not at the pre-kill one.
   */
  lemma KillThenOdomReinitialises<S>(env: Env<S>, cfg: Config, sys: System<S>,
                                     now: int, measured: Point)
    requires cfg.trajDt > 0
    ensures Step(env, cfg, sys, KillRaise).node.traj.None?
    ensures var s3 := Step(env, cfg, Step(env, cfg, Step(env, cfg, sys, KillRaise), KillClear),
                           SetDisabledRequest(false));
      && s3.node.traj.None? && !s3.killed && !s3.node.disabled
      && var s4 := Step(env, cfg, s3, Odom(now, measured));
         s4.node.traj == Some(env.start(InitialPoint(measured))) && s4.node.trajT == now
  {
  }

  /** Odometry is consumed once: a second sample changes nothing. */
  lemma OdomOnlyOnce<S>(env: Env<S>, cfg: Config, n: Node<S>, killed: bool,
                        t1: int, p1: Point, t2: int, p2: Point)
    ensures var n1 := OdomCallback(env, cfg, n, killed, t1, p1);
      n1.traj.Some? ==> OdomCallback(env, cfg, n1, killed, t2, p2) == n1
  {
  }
}
