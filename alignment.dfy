/**
 * The state-alignment loop of the execution benchmark: one state per `pose`
 * message, carrying the latest steering value and turn-signal value seen so
 * far. Two cursors walk the steering and `vehicle_monitor` messages forward
 * while their `utime` is not after the pose's.
 */
module Alignment {
  import opened Common

  // ---------------------------------------------------------------------------
  // Reference definitions: what "the value in force at time t" means.

  /** The value of the last steering message (in list order) whose `utime` is at or before `t`; 0 when there is none. */
  function LastSteerAtOrBefore(msgs: seq<Stamped<real>>, t: int): real
    decreases |msgs|
  {
    if msgs == [] then 0.0
    else if msgs[|msgs| - 1].utime <= t then msgs[|msgs| - 1].payload
    else LastSteerAtOrBefore(msgs[..|msgs| - 1], t)
  }

  /**
   * The `turn_signal` of the last monitor message at or before `t` that has
   * one; 0 when there is none. A message without the key is `None`.
   */
  function LastSignalAtOrBefore(msgs: seq<Stamped<Option<int>>>, t: int): int
    decreases |msgs|
  {
    if msgs == [] then 0
    else
      var m := msgs[|msgs| - 1];
      if m.utime <= t && m.payload.Some? then m.payload.value
      else LastSignalAtOrBefore(msgs[..|msgs| - 1], t)
  }

  // What the cursors hold after consuming a prefix of their channel.

  /** `current_steer` after the first `k` steering messages were consumed. */
  function HeldSteer(msgs: seq<Stamped<real>>, k: nat): real
    requires k <= |msgs|
  {
    if k == 0 then 0.0 else msgs[k - 1].payload
  }

  /** `current_signal` after the monitor messages `consumed`: the last signal present, 0 if none. */
  function HeldSignal(consumed: seq<Stamped<Option<int>>>): int
    decreases |consumed|
  {
    if consumed == [] then 0
    else
      match consumed[|consumed| - 1].payload
      case Some(s) => s
      case None => HeldSignal(consumed[..|consumed| - 1])
  }

  /** When the first `k` messages are at or before `t` and the rest after it, the cursor at `k` holds the value in force at `t`. */
  lemma {:induction false} SteerCursorIsLastAtOrBefore(msgs: seq<Stamped<real>>, k: nat, t: int)
    requires k <= |msgs|
    requires forall j :: 0 <= j < k ==> msgs[j].utime <= t
    requires forall j :: k <= j < |msgs| ==> msgs[j].utime > t
    ensures LastSteerAtOrBefore(msgs, t) == HeldSteer(msgs, k)
    decreases |msgs|
  {
    if |msgs| > k {
      var pre := msgs[..|msgs| - 1];
      SteerCursorIsLastAtOrBefore(pre, k, t);
    }
  }

  /** The same for the turn signal, where messages without the key are passed over. */
  lemma {:induction false} SignalCursorIsLastAtOrBefore(msgs: seq<Stamped<Option<int>>>, k: nat, t: int)
    requires k <= |msgs|
    requires forall j :: 0 <= j < k ==> msgs[j].utime <= t
    requires forall j :: k <= j < |msgs| ==> msgs[j].utime > t
    ensures LastSignalAtOrBefore(msgs, t) == HeldSignal(msgs[..k])
    decreases |msgs|
  {
    if msgs != [] {
      var pre := msgs[..|msgs| - 1];
      if |msgs| > k {
        assert pre[..k] == msgs[..k];
        SignalCursorIsLastAtOrBefore(pre, k, t);
      } else {
        assert msgs[..k] == msgs;
        assert pre[..k - 1] == pre;
        SignalCursorIsLastAtOrBefore(pre, k - 1, t);
      }
    }
  }

  /** Before any message is due, the held values are 0. */
  lemma NothingDueHoldsZero(steers: seq<Stamped<real>>, monitors: seq<Stamped<Option<int>>>, t: int)
    requires forall j :: 0 <= j < |steers| ==> steers[j].utime > t
    requires forall j :: 0 <= j < |monitors| ==> monitors[j].utime > t
    ensures LastSteerAtOrBefore(steers, t) == 0.0
    ensures LastSignalAtOrBefore(monitors, t) == 0
  {
    SteerCursorIsLastAtOrBefore(steers, 0, t);
    SignalCursorIsLastAtOrBefore(monitors, 0, t);
  }

  /** A monitor message without `turn_signal` is consumed but leaves the held signal as it was. */
  lemma SignallessMessageKeepsSignal(consumed: seq<Stamped<Option<int>>>, u: int)
    ensures HeldSignal(consumed + [Stamped(u, None)]) == HeldSignal(consumed)
  {
    assert (consumed + [Stamped(u, None)])[..|consumed|] == consumed;
  }

  /** The state the loop builds for one pose from the held values. */
  function PoseState(pose: Pose, steer: real, signal: int, norm: (real, real) -> real): (f: Frame)
    ensures f.speed.Some? && f.yawRate.Some? && f.steeringAngle.Some? && f.turnSignal.Some?
  {
    Frame(Some(norm(pose.vel.0, pose.vel.1)), Some(steer), Some(pose.rotationRate.2), Some(signal), None, None)
  }

  /**
   * The steering cursor's inner loop: consume every message from `idx` on
   * whose `utime` is not after `t`, holding the last value consumed.
   */
  method AdvanceSteer(steers: seq<Stamped<real>>, idx: nat, current: real, t: int)
    returns (idx': nat, current': real)
    requires idx <= |steers| && current == HeldSteer(steers, idx)
    ensures idx <= idx' <= |steers|
    ensures current' == HeldSteer(steers, idx')
    ensures forall j :: idx <= j < idx' ==> steers[j].utime <= t
    ensures idx' == |steers| || steers[idx'].utime > t
  {
    idx', current' := idx, current;
    while idx' < |steers| && steers[idx'].utime <= t
      invariant idx <= idx' <= |steers|
      invariant current' == HeldSteer(steers, idx')
      invariant forall j :: idx <= j < idx' ==> steers[j].utime <= t
      decreases |steers| - idx'
    {
      current' := steers[idx'].payload;
      idx' := idx' + 1;
    }
  }

  /**
   * The monitor cursor's inner loop: consume every message from `idx` on
   * whose `utime` is not after `t`, taking the signal of those that carry one.
   */
  method AdvanceSignal(monitors: seq<Stamped<Option<int>>>, idx: nat, current: int, t: int)
    returns (idx': nat, current': int)
    requires idx <= |monitors| && current == HeldSignal(monitors[..idx])
    ensures idx <= idx' <= |monitors|
    ensures current' == HeldSignal(monitors[..idx'])
    ensures forall j :: idx <= j < idx' ==> monitors[j].utime <= t
    ensures idx' == |monitors| || monitors[idx'].utime > t
  {
    idx', current' := idx, current;
    while idx' < |monitors| && monitors[idx'].utime <= t
      invariant idx <= idx' <= |monitors|
      invariant current' == HeldSignal(monitors[..idx'])
      invariant forall j :: idx <= j < idx' ==> monitors[j].utime <= t
      decreases |monitors| - idx'
    {
      if monitors[idx'].payload.Some? {
        current' := monitors[idx'].payload.value;
      }
      assert monitors[..idx' + 1][..idx'] == monitors[..idx'];
      idx' := idx' + 1;
    }
  }

  /** The fields every aligned state takes from its pose, and the keys it has. */
  predicate FromPose(state: Frame, pose: Pose, norm: (real, real) -> real) {
    state.speed == Some(norm(pose.vel.0, pose.vel.1)) && state.yawRate == Some(pose.rotationRate.2) &&
    state.steeringAngle.Some? && state.turnSignal.Some? && state.gear == None && state.acceleration == None
  }

  /**
   * The alignment loop: one state per pose message, in pose order, with
   * speed and yaw rate from that pose and the steering and signal held by the
   * two forward-only cursors. `norm` stands for `np.linalg.norm([vx, vy])`.
   */
  method AlignStates(poses: seq<Stamped<Pose>>, steers: seq<Stamped<real>>,
                     monitors: seq<Stamped<Option<int>>>, norm: (real, real) -> real)
    returns (states: seq<Frame>)
    ensures |states| == |poses|
    ensures forall k :: 0 <= k < |poses| ==> FromPose(states[k], poses[k].payload, norm)
    ensures TimeSorted(poses) && TimeSorted(steers) ==>
              forall k :: 0 <= k < |poses| ==>
                states[k].steeringAngle == Some(LastSteerAtOrBefore(steers, poses[k].utime))
    ensures TimeSorted(poses) && TimeSorted(monitors) ==>
              forall k :: 0 <= k < |poses| ==>
                states[k].turnSignal == Some(LastSignalAtOrBefore(monitors, poses[k].utime))
  {
    var currentSteer := 0.0;
    var currentSignal := 0;
    var steerIdx, monitorIdx := 0, 0;
    states := [];
    for i := 0 to |poses|
      invariant steerIdx <= |steers| && monitorIdx <= |monitors|
      invariant i == 0 ==> steerIdx == 0 && monitorIdx == 0
      invariant currentSteer == HeldSteer(steers, steerIdx)
      invariant currentSignal == HeldSignal(monitors[..monitorIdx])
      invariant |states| == i
      invariant forall k :: 0 <= k < i ==> FromPose(states[k], poses[k].payload, norm)
      invariant TimeSorted(poses) && i > 0 ==>
                  (forall j :: 0 <= j < steerIdx ==> steers[j].utime <= poses[i - 1].utime) &&
                  (forall j :: 0 <= j < monitorIdx ==> monitors[j].utime <= poses[i - 1].utime)
      invariant TimeSorted(poses) && TimeSorted(steers) ==>
                  forall k :: 0 <= k < i ==> states[k].steeringAngle == Some(LastSteerAtOrBefore(steers, poses[k].utime))
      invariant TimeSorted(poses) && TimeSorted(monitors) ==>
                  forall k :: 0 <= k < i ==> states[k].turnSignal == Some(LastSignalAtOrBefore(monitors, poses[k].utime))
    {
      var timestamp := poses[i].utime;
      steerIdx, currentSteer := AdvanceSteer(steers, steerIdx, currentSteer, timestamp);
      monitorIdx, currentSignal := AdvanceSignal(monitors, monitorIdx, currentSignal, timestamp);
      if TimeSorted(poses) {
        assert i > 0 ==> poses[i - 1].utime <= timestamp;
        assert forall j :: 0 <= j < steerIdx ==> steers[j].utime <= timestamp;
        assert forall j :: 0 <= j < monitorIdx ==> monitors[j].utime <= timestamp;
        if TimeSorted(steers) {
          SteerCursorIsLastAtOrBefore(steers, steerIdx, timestamp);
        }
        if TimeSorted(monitors) {
          SignalCursorIsLastAtOrBefore(monitors, monitorIdx, timestamp);
        }
      }
      var state := PoseState(poses[i].payload, currentSteer, currentSignal, norm);
      assert forall k :: 0 <= k < i ==> (states + [state])[k] == states[k];
      states := states + [state];
    }
  }
}
