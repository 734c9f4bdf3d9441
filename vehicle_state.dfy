/**
 * `get_vehicle_state`: the state dictionary built for one sample timestamp
 * from the nearest `pose` message and the nearest steering message. The
 * labeler and the scene generator read steering from channel
 * `steeranglefeedback`, the single-scene demo from `steer_angle_feedback`;
 * the channels' message lists are inputs here, so one model serves all three.
 */
module VehicleState {
  import opened Common
  import opened ClosestMsg
  import opened Classifier

  /**
   * `get_vehicle_state(nusc_can, scene_name, timestamp, tolerance)` over the
   * scene's pose and steering messages. Every caller passes the default
   * tolerance, 50000 microseconds, but any `tol` is allowed here. `norm`
   * stands for `np.linalg.norm([vx, vy])`.
   */
  method GetVehicleState(poseMsgs: seq<Stamped<Pose>>, steerMsgs: seq<Stamped<real>>,
                         t: int, tol: int, norm: (real, real) -> real)
    returns (state: Frame)
    ensures state.speed.Some? <==> Closest(poseMsgs, t, tol).Some?
    ensures state.yawRate.Some? <==> Closest(poseMsgs, t, tol).Some?
    ensures Closest(poseMsgs, t, tol).Some? ==>
              var p := Closest(poseMsgs, t, tol).value.payload;
              state.speed == Some(norm(p.vel.0, p.vel.1)) && state.yawRate == Some(p.rotationRate.2)
    ensures state.steeringAngle ==
              match Closest(steerMsgs, t, tol)
              case Some(m) => Some(m.payload)
              case None => None
    ensures state.turnSignal == Some(0)
    ensures state.gear == None && state.acceleration == None
  {
    var pose := FindClosestMsg(poseMsgs, t, tol);
    var steer := FindClosestMsg(steerMsgs, t, tol);
    state := EmptyFrame;
    if pose.Some? {
      var p := pose.value.payload;
      state := state.(speed := Some(norm(p.vel.0, p.vel.1)));
      state := state.(yawRate := Some(p.rotationRate.2));
    }
    if steer.Some? {
      state := state.(steeringAngle := Some(steer.value.payload));
    }
    state := state.(turnSignal := Some(0));
  }

  /** What the cascade can make of such a state: the turn signal is always 0 and gear and acceleration are never set, so Reverse, Pull Over, Lane Change and Deceleration cannot occur. */
  lemma LookupStateLabels(state: Frame, th: Thresholds)
    requires state.turnSignal == Some(0) && state.gear == None && state.acceleration == None
    ensures ClassifyFrame(state, th) in {Stop, UTurn, LeftTurn, RightTurn, Cruising}
  {
  }

  /** Without a pose within tolerance the speed reads as 0: the frame is Stop exactly when the stop threshold is positive. */
  lemma NoPoseMeansStop(state: Frame, th: Thresholds)
    requires state.speed == None
    ensures ClassifyFrame(state, th) == Stop <==> 0.0 < th.stopSpeed
  {
  }
}
