/**
 Data model of the C3 trajectory node: generalized coordinates, points,
 waypoints, poses, validity answers, goals, and the collaborators the node
 calls but whose code is not part of this model (the integrator, the
 Euler-to-quaternion conversion, the waypoint-validity service).
 */
module C3Types {

  /** Six generalized coordinates: x, y, z, roll, pitch, yaw (or their rates). */
  type Vec6 = v: seq<real> | |v| == 6 witness [0.0, 0.0, 0.0, 0.0, 0.0, 0.0]

  const Zero6: Vec6 := [0.0, 0.0, 0.0, 0.0, 0.0, 0.0]

  /** `C3Trajectory::Point`: pose `q` and its rate `qdot`, both in the fixed frame. */
  datatype Point = Point(q: Vec6, qdot: Vec6)

  /** `C3Trajectory::PointWithAcceleration`, the integrator's output. */
  datatype PointWithAcceleration = PointWithAcceleration(q: Vec6, qdot: Vec6, qdotdot: Vec6)
  {
    /** The `Point` part, as the implicit slicing conversion yields it. */
    function ToPoint(): Point
    {
      Point(q, qdot)
    }
  }

  /** `C3Trajectory::Waypoint`: a target point, a speed cap and the coordinated flag. */
  datatype Waypoint = Waypoint(r: Point, speed: real, coordinated: bool)

  /** A unit quaternion as produced by `tf::createQuaternionFromRPY`. */
  datatype Quaternion = Quaternion(x: real, y: real, z: real, w: real)

  /** `geometry_msgs::Pose`. */
  datatype Pose = Pose(x: real, y: real, z: real, orientation: Quaternion)

  /** The two out-parameters of `WaypointValidity::is_waypoint_valid`. */
  datatype Validity = Validity(valid: bool, errorType: int)

  /** Error code for a pose in an unknown region of the occupancy grid. */
  const UnknownError: int := 50
  /** Error code for a pose in an occupied region of the occupancy grid. */
  const OccupiedError: int := 99

  /** A `MoveToGoal`, with its pose and twist already converted to a `Point`. */
  datatype Goal = Goal(r: Point, speed: real, uncoordinated: bool,
                       linearTolerance: real, angularTolerance: real)

  /**
   The collaborators of the node, as uninterpreted functions over the
   integrator's internal state `S`:
   - `start(p)`: `new C3Trajectory(p, limits)`;
   - `update(s, dt, w, age)`: `C3Trajectory::update` with the step and the
     waypoint age in nanoseconds;
   - `current(s)`: `C3Trajectory::getCurrentPoint`;
   - `approx(p, r, lin, ang)`: `PointWithAcceleration::is_approximately`;
   - `orient(roll, pitch, yaw)`: `tf::createQuaternionFromRPY`;
   - `validity(pose)`: the waypoint-validity service.
   */
  datatype Env<!S> = Env(
    start: Point -> S,
    update: (S, int, Waypoint, int) -> S,
    current: S -> PointWithAcceleration,
    approx: (PointWithAcceleration, Point, real, real) -> bool,
    orient: (real, real, real) -> Quaternion,
    validity: Pose -> Validity)

  /**
   Static configuration: the integrator step `trajDt` in nanoseconds
   (parameter `traj_dt`, default 0.0001 s), and the speed and coordinated
   flag that the `Waypoint` constructor supplies when a bare `Point` is
   converted to a `Waypoint`.
   */
  datatype Config = Config(trajDt: int, pointSpeed: real, pointCoordinated: bool)

  /** Default `traj_dt`: 0.0001 s in nanoseconds. */
  const DefaultTrajDt: int := 100_000

  /** `Pose_from_Waypoint` and the trajectory-point pose: position is `q[0]`, `q[1]`, `q[2]`. */
  function PoseOf<S>(env: Env<S>, q: Vec6): (p: Pose)
    ensures p.x == q[0] && p.y == q[1] && p.z == q[2]
  {
    Pose(q[0], q[1], q[2], env.orient(q[3], q[4], q[5]))
  }

  /** The waypoint an implicit `Point` to `Waypoint` conversion builds. */
  function WaypointAt(cfg: Config, p: Point): (w: Waypoint)
    ensures w.r == p && w.speed == cfg.pointSpeed && w.coordinated == cfg.pointCoordinated
  {
    Waypoint(p, cfg.pointSpeed, cfg.pointCoordinated)
  }

  /** A waypoint at pose `q` with every rate zeroed: a "stop here" command. */
  function StopAt(cfg: Config, q: Vec6): (w: Waypoint)
    ensures w.r.q == q && w.r.qdot == Zero6
  {
    WaypointAt(cfg, Point(q, Zero6))
  }

  /** The waypoint a goal commands: `!uncoordinated` becomes `coordinated`. */
  function GoalWaypoint(g: Goal): (w: Waypoint)
    ensures w.r == g.r && w.speed == g.speed && w.coordinated == !g.uncoordinated
  {
    Waypoint(g.r, g.speed, !g.uncoordinated)
  }

  function Abs(x: real): real
  {
    if x < 0.0 then -x else x
  }

  function Max(a: real, b: real): real
  {
    if a < b then b else a
  }
}
