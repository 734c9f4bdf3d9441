/** Types shared by the classifier, the message lookup and the state alignment. */
module Common {

  /** A value that may be absent: a missing dictionary key, or "no message found". */
  datatype Option<+T> = None | Some(value: T) {
    /** The value, or `default` when absent (Python's `dict.get(key, default)`). */
    function GetOr(default: T): T {
      match this
      case Some(v) => v
      case None => default
    }
  }

  /** A vehicle-bus message: its `utime` in microseconds and the rest of its fields. */
  datatype Stamped<P> = Stamped(utime: int, payload: P)

  /** The fields of a `pose` message that the core reads: `vel` and `rotation_rate`. */
  datatype Pose = Pose(vel: (real, real, real), rotationRate: (real, real, real))

  /**
   * One frame of vehicle state, the dictionary handed to the classifier.
   * Every key may be missing; `None` stands for a key that is not in the dictionary.
   */
  datatype Frame = Frame(
    speed: Option<real>,
    steeringAngle: Option<real>,
    yawRate: Option<real>,
    turnSignal: Option<int>,
    gear: Option<string>,
    acceleration: Option<real>)

  /** The dictionary with no keys at all. */
  const EmptyFrame := Frame(None, None, None, None, None, None)

  function Abs(x: int): (r: nat)
    ensures r == x || r == -x
  {
    if x < 0 then -x else x
  }

  function AbsReal(x: real): (r: real)
    ensures r >= 0.0 && (r == x || r == -x)
  {
    if x < 0.0 then -x else x
  }

  /** The messages' `utime`s in order: non-decreasing. */
  ghost predicate TimeSorted<P>(msgs: seq<Stamped<P>>) {
    forall i, j :: 0 <= i < j < |msgs| ==> msgs[i].utime <= msgs[j].utime
  }
}
