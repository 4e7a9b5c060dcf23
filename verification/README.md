# SubjuGator core logic in Dafny

This project models three small pieces of logic from the SubjuGator
submarine software and proves properties of them.

- **The C3 trajectory node** (`legacy/c3_trajectory_generator/src/node.cpp`).
  - It owns an optional trajectory with its own clock, a commanded waypoint with its time, a `disabled` flag and two goal tolerances.
  - Odometry starts the trajectory once, and only while the vehicle is neither killed nor disabled.
  - Disabling the node, or raising the kill alarm, destroys the trajectory.
  - On every timer tick the node runs five steps in order:
    1. it accepts a new goal and filters it through the waypoint-validity policy (code 50 is an unknown region, code 99 an occupied one, with a 0.5 displacement rule);
    2. it stops at the current point when the goal is preempted;
    3. it advances the integrator in fixed `traj_dt` steps until it is within one step of wall-clock time;
    4. it rolls back to the pre-update point when the new point is occupied;
    5. it publishes both messages, stamped with the trajectory clock, and decides success.
  - Modules: `C3Types` (records, error codes, collaborators), `C3Node` (one pure transition per callback) and `C3Properties` (cross-step properties and the whole-node invariant).
- **Histogram utilities and the frame ring buffer** (`gnc/sub8_perception/src/sub8_pcl/cv_utils.cc`).
  - `find_local_maxima` / `find_local_minima`: neighbour-comparison scans followed by a threshold filter.
  - `select_hist_mode`: the mode nearest a target; a tie goes to the last entry.
  - The threshold search of `statistical_image_segmentation`: two search starts taken from the derivative's extrema, then two slope scans.
  - `FrameHistory`: the ring buffer written at slot `frame_count % history_size`, and the timestamp-ordered query.
  - Modules: `HistogramPeaks`, `ThresholdSearch`, `FrameHistory`.
- **The network keep-alive monitor** (`command/sub8_alarm/listeners/network_listener.py`).
  - It counts consecutive `'auto'` messages and remembers when the last message came.
  - On every timer event it raises, clears or leaves the network-timeout kill alarm.
  - Module: `NetworkCheck`.

State is held in immutable datatypes, and every callback is a pure function from the old state to the new one. Time is integer nanoseconds.

The C3 integrator, the validity service, `is_approximately` and the roll-pitch-yaw to quaternion conversion are fields of an `Env` record of function values. The model never looks inside them. The integrator's internal state is a type parameter `S`.

Histogram bins are integers. The smoothed histogram and the smoothed derivative both come out of `smooth_histogram`, which stores an `int` sum into every interior bin and zero into the padding. So the `cv::Point` values and the truncated `abs_slope` lose nothing.

## Model

| member | source | states |
|---|---|---|
| `C3Node.Initial` | legacy/c3_trajectory_generator/src/node.cpp:118-124 | A constructed node is enabled and has no trajectory. |
| `C3Node.SetDisabled` | legacy/c3_trajectory_generator/src/node.cpp:108-116 | The flag is stored. Disabling destroys the trajectory. Re-enabling keeps whatever trajectory there is, and so never creates one. No other field changes. |
| `C3Node.KillRaised` | legacy/c3_trajectory_generator/src/node.cpp:126-130 | Raising the kill alarm destroys the trajectory and changes nothing else. |
| `C3Node.InitialPoint` | legacy/c3_trajectory_generator/src/node.cpp:172-174 | The initial point keeps the measured x, y, z and yaw. Roll, pitch and every rate are zero. |
| `C3Node.OdomCallback` | legacy/c3_trajectory_generator/src/node.cpp:163-181 | An existing trajectory, a raised kill or a disabled node leaves the state untouched. Otherwise the trajectory starts at the level, resting measured pose; the commanded waypoint is that same point; both clocks are `now`; the flag and tolerances are kept. |
| `C3Node.FilterGoal` | legacy/c3_trajectory_generator/src/node.cpp:200-225 | A valid goal is kept, and so is any error code other than 50 or 99. Code 99 reverts to the previous waypoint. Code 50 reverts exactly when x or y moves by more than 0.5. |
| `C3Node.AcceptGoal` | legacy/c3_trajectory_generator/src/node.cpp:190-226 | The commanded waypoint is the filtered goal. Its time and both tolerances are overwritten even when the goal is reverted. The trajectory is not touched. |
| `C3Node.StopAndRestart` | legacy/c3_trajectory_generator/src/node.cpp:227-236 | A hard stop commands the given pose with zero rates, restarts the integrator at exactly that point, and sets both clocks to `now`. |
| `C3Node.Intake` | legacy/c3_trajectory_generator/src/node.cpp:190-226 | Without a new goal the node is unchanged. With one, the commanded waypoint is the filtered goal, timed at `now`. The trajectory, its clock and the flag are never touched. |
| `C3Node.PreemptStage` | legacy/c3_trajectory_generator/src/node.cpp:227-236 | Without a preempt request nothing changes. With one, the waypoint is a stop at the current trajectory point; the trajectory restarts there and both clocks are `now`. |
| `C3Node.StepsShift` | legacy/c3_trajectory_generator/src/node.cpp:240-244 | One update followed by `k` more is the reference sequence of `k + 1` updates, each seeing the age measured from the waypoint time. |
| `C3Node.CatchUp` | legacy/c3_trajectory_generator/src/node.cpp:240-244 | For `traj_dt > 0` the loop terminates. The clock advances in whole steps and ends within one step of `now`. It passes `now` only when no update ran. The state equals that many updates with the fixed step and each step's age. |
| `C3Node.CatchUpStage` | legacy/c3_trajectory_generator/src/node.cpp:240-244 | Only the trajectory and its clock change. The clock never goes back, ends within one step of `now`, and is behind `now` whenever it moved. |
| `C3Node.TrajectoryOccupied` | legacy/c3_trajectory_generator/src/node.cpp:247-256 | The rollback trigger: the validity service reports the caught-up trajectory point's pose invalid with code 99. |
| `C3Node.RollbackStage` | legacy/c3_trajectory_generator/src/node.cpp:238-265 | When the caught-up point is reported occupied, the waypoint is a stop at the pre-update point, and the trajectory restarts there with both clocks at `now`. Otherwise nothing changes. |
| `C3Node.Succeeds` | legacy/c3_trajectory_generator/src/node.cpp:284-287 | The success test: an active goal, the current point approximately at the waypoint within `max(0.001, tolerance)`, and a waypoint with zero rates. |
| `C3Node.Tick` | legacy/c3_trajectory_generator/src/node.cpp:183-291 | Without a trajectory nothing changes and nothing is published. Otherwise both messages carry the trajectory clock, which is within one step of `now`. The published point and pose come from the final state. A new goal sets the waypoint time and tolerances. Success is reported exactly when the goal is active, the point is within `max(0.001, tolerance)` both ways (`MinTolerance`), and the waypoint rates are all zero. |
| `C3Types.PoseOf` | legacy/c3_trajectory_generator/src/node.cpp:66-74 | A waypoint's pose position is `q[0]`, `q[1]`, `q[2]`. |
| `C3Types.WaypointAt` | legacy/c3_trajectory_generator/src/node.cpp:179 | The implicit `Point` to `Waypoint` conversion commands exactly that point, with the configured default speed and `coordinated` flag. |
| `C3Types.StopAt` | legacy/c3_trajectory_generator/src/node.cpp:229-230 | A stop command keeps the pose and zeroes every rate. |
| `C3Types.GoalWaypoint` | legacy/c3_trajectory_generator/src/node.cpp:195-196 | A goal commands its point and speed, with `coordinated` equal to the negation of `uncoordinated`. |
| `C3Properties.RotationOnlyMoveKept` | legacy/c3_trajectory_generator/src/node.cpp:208-218 | Under code 50, a move that keeps x and y is accepted whatever its rotation. |
| `C3Properties.UnknownRegionThreshold` | legacy/c3_trajectory_generator/src/node.cpp:208-218 | Under code 50, a 0.51 move along x is refused and a 0.49 move is accepted. |
| `C3Properties.TickGoalOutcome` | legacy/c3_trajectory_generator/src/node.cpp:190-265 | On a tick without preemption or rollback, a new goal ends up commanded exactly as the filter decides. A refused goal leaves the previous waypoint. |
| `C3Properties.PreemptionStops` | legacy/c3_trajectory_generator/src/node.cpp:227-265 | A preempting tick ends at rest. The waypoint has zero rates; the trajectory restarts at that point with its clock at `now` and no update run. The point is the trajectory point current when the tick began, or the restarted integrator's own point after a rollback. |
| `C3Properties.RollbackOnOccupied` | legacy/c3_trajectory_generator/src/node.cpp:238-265 | If the caught-up point is occupied (99), the waypoint becomes the pre-update point with zero rates and the trajectory restarts there with its clock at `now`. Otherwise the caught-up state is kept unchanged. |
| `C3Properties.UnknownTrajectoryPointKept` | legacy/c3_trajectory_generator/src/node.cpp:252-265 | Code 50 on the trajectory point causes no rollback. |
| `C3Properties.StampTrailsWallClock` | legacy/c3_trajectory_generator/src/node.cpp:240-282 | Without preemption or rollback, when at least one update runs, the published stamp is the trajectory clock: later than the old clock, earlier than wall-clock `now`. |
| `C3Properties.MovingWaypointNeverSucceeds` | legacy/c3_trajectory_generator/src/node.cpp:284-290 | Success is never reported while the commanded waypoint has a nonzero rate. |
| `C3Properties.PreemptedActiveGoalSucceeds` | legacy/c3_trajectory_generator/src/node.cpp:227-290 | A cancelled goal still reported active is set succeeded on the preempting tick itself, once the restart point is within tolerance and not occupied. |
| `C3Properties.Step` | legacy/c3_trajectory_generator/src/node.cpp:108-186 | Each event is one callback. Raising the kill alarm sets the kill state and destroys the trajectory. Clearing it resets the kill state and leaves the node alone. No other event changes the kill state, and only the set-disabled service changes the flag. |
| `C3Properties.DefaultStepLag` | legacy/c3_trajectory_generator/src/node.cpp:147-244 | With the default `traj_dt` of 0.0001 s, every tick leaves the trajectory clock, and so the published stamp, at most 100 microseconds behind `now`. |
| `C3Properties.StepPreservesSafe` | legacy/c3_trajectory_generator/src/node.cpp:108-186 | No callback can create a trajectory while the vehicle is killed or disabled. |
| `C3Properties.RunPreservesSafe` | legacy/c3_trajectory_generator/src/node.cpp:108-291 | From any state without a trajectory while killed or disabled, every sequence of events keeps that invariant. |
| `C3Properties.InitialIsSafe` | legacy/c3_trajectory_generator/src/node.cpp:118-124 | The constructed node satisfies the invariant. |
| `C3Properties.KillThenOdomReinitialises` | legacy/c3_trajectory_generator/src/node.cpp:126-181 | A kill destroys the trajectory; clearing the kill and re-enabling do not bring it back. The next odometry sample starts a fresh one at that sample's pose. |
| `C3Properties.OdomOnlyOnce` | legacy/c3_trajectory_generator/src/node.cpp:163-166 | Once a trajectory exists, further odometry changes nothing. |
| `HistogramPeaks.MaximaFrom` | gnc/sub8_perception/src/sub8_pcl/cv_utils.cc:65-71 | The scan lists exactly the interior bins above their left and not below their right neighbour, each with its value, in increasing index order. |
| `HistogramPeaks.MinimaFrom` | gnc/sub8_perception/src/sub8_pcl/cv_utils.cc:102-108 | The scan lists exactly the interior bins not above their left and below their right neighbour, each with its value, in increasing index order. |
| `HistogramPeaks.MaxY` | gnc/sub8_perception/src/sub8_pcl/cv_utils.cc:62-69 | The running maximum is attained by some point and bounds every point. |
| `HistogramPeaks.MinY` | gnc/sub8_perception/src/sub8_pcl/cv_utils.cc:99-106 | The running minimum is attained by some point and is below or equal to every point. |
| `HistogramPeaks.Keep` | gnc/sub8_perception/src/sub8_pcl/cv_utils.cc:75-80 | The filter keeps exactly the points that pass the threshold, in their original order. |
| `HistogramPeaks.PeakValue` | gnc/sub8_perception/src/sub8_pcl/cv_utils.cc:62-71 | `global_maximum` is the largest candidate value. |
| `HistogramPeaks.TroughValue` | gnc/sub8_perception/src/sub8_pcl/cv_utils.cc:99-108 | `global_minimum` is the smallest candidate value. |
| `HistogramPeaks.MaximaPeak` | gnc/sub8_perception/src/sub8_pcl/cv_utils.cc:62-80 | The maximum over the scan's list equals the maximum over all candidates. |
| `HistogramPeaks.MinimaTrough` | gnc/sub8_perception/src/sub8_pcl/cv_utils.cc:99-117 | The minimum over the scan's list equals the minimum over all candidates. |
| `HistogramPeaks.FindLocalMaxima` | gnc/sub8_perception/src/sub8_pcl/cv_utils.cc:60-94 | Every result is a candidate carrying its bin value, listed in increasing index order. A candidate is returned exactly when its value exceeds the largest candidate value times the multiplier. No candidates means an empty result. |
| `HistogramPeaks.FindLocalMinima` | gnc/sub8_perception/src/sub8_pcl/cv_utils.cc:97-131 | The mirror image: a candidate is returned exactly when its value is below the smallest candidate value times the multiplier. |
| `HistogramPeaks.SelectHistMode` | gnc/sub8_perception/src/sub8_pcl/cv_utils.cc:134-144 | For a non-empty list the result is the `x` of an entry nearest the target. Every later entry is strictly farther, so a tie goes to the last entry. |
| `ThresholdSearch.TargetMode` | gnc/sub8_perception/src/sub8_pcl/cv_utils.cc:173-174 | The ghost result is the list of histogram modes. The target mode is one of them and a local maximum; no mode is nearer the target, and every later mode in the list is strictly farther, so a tie goes to the last one. |
| `ThresholdSearch.NearestMember` | gnc/sub8_perception/src/sub8_pcl/cv_utils.cc:134-144 | The index-based guarantee of the mode selection, restated over list membership. |
| `ThresholdSearch.HighSearchStart` | gnc/sub8_perception/src/sub8_pcl/cv_utils.cc:188-203 | The high start is the first derivative minimum right of the target mode, or the target mode when there is none. |
| `ThresholdSearch.LowSearchStart` | gnc/sub8_perception/src/sub8_pcl/cv_utils.cc:207-218 | The low start is the last derivative maximum left of the target mode, or the target mode when there is none. |
| `ThresholdSearch.ScanUp` | gnc/sub8_perception/src/sub8_pcl/cv_utils.cc:219-233 | The high threshold is the first bin from the start on whose slope magnitude is below the cutoff, or the start when none is. |
| `ThresholdSearch.ScanDown` | gnc/sub8_perception/src/sub8_pcl/cv_utils.cc:239-248 | The low threshold is the first such bin scanning from the start down to bin 1, or the start when none is. |
| `ThresholdSearch.SearchStarts` | gnc/sub8_perception/src/sub8_pcl/cv_utils.cc:186-218 | Both starts are the extrema the loops pick. They bracket the mode and lie between bin 1 and the last bin; a high start other than the mode is an interior bin. |
| `ThresholdSearch.SegmentationThresholds` | gnc/sub8_perception/src/sub8_pcl/cv_utils.cc:173-248 | The mode is the histogram mode nearest the target, the last one in the mode list on ties. Each start and each band end is what its loop picks. `1 <= low <= lowStart <= mode <= highStart <= high`, with `high` inside the histogram. |
| `FrameHistory.Slot` | gnc/sub8_perception/src/sub8_pcl/cv_utils.cc:399 | The slot index is below the capacity. |
| `FrameHistory.SlotIsRemainder` | gnc/sub8_perception/src/sub8_pcl/cv_utils.cc:399 | The slot is `frame_count % history_size`. |
| `FrameHistory.Create` | gnc/sub8_perception/src/sub8_pcl/cv_utils.cc:384-402 | A fresh history is empty with count 0 and satisfies the invariant. |
| `FrameHistory.ImageCallback` | gnc/sub8_perception/src/sub8_pcl/cv_utils.cc:384-402 | The count grows by exactly one. A buffer that is not full gets the frame appended. A full buffer keeps its length, gets the frame in slot `frame_count % history_size`, and keeps every other slot. |
| `FrameHistory.CallbackKeepsValid` | gnc/sub8_perception/src/sub8_pcl/cv_utils.cc:389-401 | The buffer length stays `min(frame_count, history_size)` and never exceeds the capacity. The new frame always lands in slot `frame_count % history_size`. |
| `FrameHistory.Feed` | gnc/sub8_perception/src/sub8_pcl/cv_utils.cc:384-402 | Feeding frames keeps the capacity and counts every frame. |
| `FrameHistory.LatestIndex` | gnc/sub8_perception/src/sub8_pcl/cv_utils.cc:395-401 | The latest frame index of a slot really goes to that slot, and no later frame does. |
| `FrameHistory.LatestIsRecent` | gnc/sub8_perception/src/sub8_pcl/cv_utils.cc:395-401 | The frame a slot holds is among the last `history_size` frames. |
| `FrameHistory.CallbackKeepsLatest` | gnc/sub8_perception/src/sub8_pcl/cv_utils.cc:395-401 | One more frame keeps every slot holding the latest frame that went to it. |
| `FrameHistory.RingContents` | gnc/sub8_perception/src/sub8_pcl/cv_utils.cc:384-402 | After any number of frames from construction, the buffer holds `min(n, history_size)` frames and the count is `n`. Every slot holds the latest frame whose index is congruent to it modulo the capacity. |
| `FrameHistory.FeedLast` | gnc/sub8_perception/src/sub8_pcl/cv_utils.cc:384-402 | Feeding a sequence is feeding all but its last frame, then the last one. |
| `FrameHistory.Insert` | gnc/sub8_perception/src/sub8_pcl/cv_utils.cc:416 | Insertion into a sorted list keeps it sorted and adds exactly the one frame. |
| `FrameHistory.Sort` | gnc/sub8_perception/src/sub8_pcl/cv_utils.cc:416 | The sort result is in timestamp order and is a permutation of its input. |
| `FrameHistory.SortedPairs` | gnc/sub8_perception/src/sub8_pcl/cv_utils.cc:416 | In a sorted list no frame is later than a frame after it. |
| `FrameHistory.SortedSplit` | gnc/sub8_perception/src/sub8_pcl/cv_utils.cc:416-420 | The first `n` frames of a sorted list are sorted and come from the list. The rest is the remainder, and no front frame is later than a back one. |
| `FrameHistory.GetFrameHistory` | gnc/sub8_perception/src/sub8_pcl/cv_utils.cc:405-423 | Fewer stored frames than requested gives an empty result. Otherwise the result is exactly `frames_requested` stored frames, a sub-multiset of the buffer, in timestamp order, and none is later than a frame left out. |
| `NetworkCheck.Create` | command/sub8_alarm/listeners/network_listener.py:8-16 | A fresh monitor has count 0, the construction time as last time, and the given timeout and requirement. |
| `NetworkCheck.GotNetworkMsg` | command/sub8_alarm/listeners/network_listener.py:33-43 | Every message sets the last time and text. An `'auto'` message adds one to the count; any other resets it to 0. |
| `NetworkCheck.DefaultMonitor` | command/sub8_alarm/listeners/network_listener.py:8-49 | With the defaults (5 s, 50 messages), a silent monitor raises the alarm one nanosecond after 5 s and clears it at exactly 5 s. After 50 consecutive `'auto'` messages a timeout leaves the alarm alone. |
| `NetworkCheck.NeedKill` | command/sub8_alarm/listeners/network_listener.py:45-49 | A timeout: strictly more than `timeout` has passed since the last message. |
| `NetworkCheck.NeedKillAtTimeout` | command/sub8_alarm/listeners/network_listener.py:45-49 | The timeout is strict: exactly `timeout` after the last message is no timeout, one nanosecond more is. |
| `NetworkCheck.Check` | command/sub8_alarm/listeners/network_listener.py:22-31 | Raise exactly when timed out with too few `'auto'` messages. Clear exactly when not timed out. Leave the alarm alone exactly when timed out with enough. |
| `NetworkCheck.Deliver` | command/sub8_alarm/listeners/network_listener.py:33-43 | Messages never change the timeout or the requirement. |
| `NetworkCheck.CountIsTrailingRun` | command/sub8_alarm/listeners/network_listener.py:37-43 | The count is the trailing run of `'auto'` messages, plus the starting count when every message was `'auto'`. |
| `NetworkCheck.FreshCountIsTrailingRun` | command/sub8_alarm/listeners/network_listener.py:16-43 | From construction, the count is exactly the number of trailing consecutive `'auto'` messages. |
| `NetworkCheck.AllAutoTrailing` | command/sub8_alarm/listeners/network_listener.py:37-43 | When every message is `'auto'`, the trailing run is the whole list. |
| `NetworkCheck.LastMessageWins` | command/sub8_alarm/listeners/network_listener.py:33-35 | Last time and last text are those of the last message, whatever its content. |
| `NetworkCheck.RaiseIff` | command/sub8_alarm/listeners/network_listener.py:8-49 | After construction and any messages, the alarm is raised exactly when more than `timeout` passed since the last message (or since construction) and the trailing `'auto'` run is shorter than required. |
| `NetworkCheck.NoEarlyRaise` | command/sub8_alarm/listeners/network_listener.py:8-31 | A fresh monitor clears the alarm until more than `timeout` has elapsed. |

## Left out

- The C3 integrator (`C3Trajectory` construction, `update`, `getCurrentPoint`, `is_approximately`): C3Trajectory.h (the integrator) is outside this model. These are uninterpreted `Env` fields, so nothing is claimed about velocity or acceleration limits, overshoot, or the commanded point being reached.
- Because of that, the waypoint's rates being zero at the next tick after a stop is stated only for the commanded waypoint. The integrator's own output rates are not constrained.
- The speed and `coordinated` flag that the implicit `Point` to `Waypoint` conversion supplies are defined in C3Trajectory.h. They are `Config` fields here.
- The frame conversions (`Point_from_PoseTwist`, `PoseTwist_from_PointWithAcceleration` and the orientation part of `Pose_from_Waypoint`) are trigonometric floating-point work. A goal arrives as an already converted `Point`, and the orientation is an uninterpreted `orient` function. Only "position is `q[0..2]`" is modelled.
- ROS plumbing is left out: the action server, publishers, subscribers, timers, tf, parameter loading, and the kill listener's connection check with its exception. The action server's answers (new goal, preempt requested, active) are tick inputs.
- Concurrency between ROS callbacks is left out: each callback is one atomic step.
- Floating-point rounding is left out: tolerances, poses and the 0.1 / 0.01 multipliers are exact reals.
- The numeric steps of `statistical_image_segmentation` are left out: `calcHist`, `smooth_histogram`, the Gaussian kernel, the central difference, `meanStdDev`, `inRange` and the morphology. The smoothed histogram, its smoothed derivative and the two truncated cutoffs are parameters.
- `FrameHistory`'s constructor, its subscription and the image payloads are left out. A frame is a timestamp plus an opaque handle.
- `FrameHistory.GetFrameHistory`: `std::sort` uses `ImageWithCameraInfo::operator<` from cv_tools.hpp, which is outside this model. It is taken to order by `image_time`, ascending. "Never modifies the buffer" holds because the query is a pure function of the history.
- `FrameHistory.ImageCallback`: `frame_count` is unbounded here; its unsigned wrap-around after 2^32 frames is not modelled.
- `HistogramPeaks.FindLocalMaxima`: requires a non-empty histogram. For an empty one, the C++ code's unsigned loop bound `histogram.total() - 1` wraps around and the scan reads out of bounds. `HistogramPeaks.FindLocalMinima` requires the same.
- `HistogramPeaks.SelectHistMode`: requires a non-empty list, because the C++ code indexes the first entry unconditionally. `ThresholdSearch.SegmentationThresholds` therefore requires at least one histogram mode.
- `ThresholdSearch.ScanUp`: the upward scan is bounded by the derivative's length, which `statistical_image_segmentation` receives as `hist_size`.
- The alarm broadcaster and the log messages of `NetworkCheck` are left out, and so are the "autonomous mode armed" log and the `__main__` block's `timeout=0.1`. `check` returns its decision instead of calling the alarm.
- The node never calls `setPreempted` or `setAborted`, and a cancelled goal stays active until the action server is told otherwise. So a cancelled goal can be reported succeeded; see `C3Properties.PreemptedActiveGoalSucceeds`.
- `get_frame_history` returns the OLDEST `frames_requested` frames, given the ascending order assumed above, although its docstring speaks of "the last" frames. The model states what the code does. `operator<` is defined in cv_tools.hpp, outside this model, so this is not claimed as a defect.
- `C3Node.CatchUp` requires `traj_dt > 0`, and so do `C3Node.Tick` and `C3Node.CatchUpStage`. node.cpp:147 reads the parameter without checking it. With `traj_dt <= 0`, the loop at node.cpp:240-244 never ends once `c3trajectory_t < now`, so the timer callback hangs. The model does not describe that hang.
- `FrameHistory.Create` requires a positive capacity, and so do `FrameHistory.ImageCallback` and `FrameHistory.Slot`. The constructor (cv_utils.cc:360) accepts any unsigned `hist_size`. With 0 the buffer counts as full at once, so the first frame's `frame_count % history_size` (cv_utils.cc:399) divides by zero. The model does not describe that fault.
- Logging is left out: `ROS_ERROR` in node.cpp (lines 215, 222 and 258), and `ROS_DEBUG`, `ROS_WARN` and `ROS_INFO` in cv_utils.cc (lines 394, 412 and 256). None of them affects state.
