/**
 * The rule cascade of `RuleBasedClassifier`: one frame of vehicle state is
 * mapped to exactly one of nine scenario labels by an ordered list of strict
 * threshold tests, the first test that holds deciding the label.
 */
module Classifier {
  import opened Common

  /** The nine scenario labels, in the order the cascade tests for them. */
  datatype Label =
    | Stop | Reverse | UTurn | LeftTurn | RightTurn
    | PullOver | LaneChange | Deceleration | Cruising
  {
    /** The label string the classifier returns. */
    function Name(): (n: string)
      ensures n in LabelNames
    {
      match this
      case Stop => "Stop"
      case Reverse => "Reverse"
      case UTurn => "U-Turn"
      case LeftTurn => "Left Turn"
      case RightTurn => "Right Turn"
      case PullOver => "Pull Over"
      case LaneChange => "Lane Change"
      case Deceleration => "Deceleration"
      case Cruising => "Cruising"
    }
  }

  const LabelNames: set<string> := {
    "Stop", "Reverse", "U-Turn", "Left Turn", "Right Turn",
    "Pull Over", "Lane Change", "Deceleration", "Cruising"
  }

  /** The `thresholds` section of the classifier's configuration. */
  datatype Thresholds = Thresholds(
    stopSpeed: real,              // stop_speed_threshold
    uTurnSteering: real,          // u_turn_steering_threshold
    turnSteering: real,           // turn_steering_threshold
    laneChangeSteering: real,     // lane_change_steering_threshold
    pullOverSpeed: real)          // pull_over_speed_threshold

  /** The fixed deceleration cut-off of the cascade, in m/s². */
  const DecelerationLimit: real := -1.0

  // The values the cascade reads; a missing key reads as zero.
  function Speed(f: Frame): real { f.speed.GetOr(0.0) }
  function Steering(f: Frame): real { f.steeringAngle.GetOr(0.0) }
  function SteeringMagnitude(f: Frame): real { AbsReal(Steering(f)) }
  function Signal(f: Frame): int { f.turnSignal.GetOr(0) }
  function Acceleration(f: Frame): real { f.acceleration.GetOr(0.0) }

  /** `_classify_frame`: the cascade, first matching rule wins, `Cruising` last. */
  function ClassifyFrame(f: Frame, th: Thresholds): (l: Label)
    ensures l == Stop <==> Speed(f) < th.stopSpeed
  {
    var speed := Speed(f);
    var steering := SteeringMagnitude(f);
    var turnSignal := Signal(f);
    if speed < th.stopSpeed then Stop
    else if f.gear == Some("R") then Reverse
    else if steering > th.uTurnSteering then UTurn
    else if steering > th.turnSteering then
      (if Steering(f) > 0.0 then LeftTurn else RightTurn)
    else if turnSignal != 0 && steering > th.laneChangeSteering && speed < th.pullOverSpeed then PullOver
    else if turnSignal != 0 && steering > th.laneChangeSteering then LaneChange
    else if Acceleration(f) < DecelerationLimit then Deceleration
    else Cruising
  }

  /** `classify`: one label per frame, in frame order. */
  method Classify(frames: seq<Frame>, th: Thresholds) returns (labels: seq<Label>)
    ensures |labels| == |frames|
    ensures forall i :: 0 <= i < |frames| ==> labels[i] == ClassifyFrame(frames[i], th)
  {
    labels := [];
    for i := 0 to |frames|
      invariant |labels| == i
      invariant forall k :: 0 <= k < i ==> labels[k] == ClassifyFrame(frames[k], th)
    {
      labels := labels + [ClassifyFrame(frames[i], th)];
    }
  }

  // ---------------------------------------------------------------------------
  // A reference reading of the cascade: each rule's own test, taken alone,
  // and the rules tried in a fixed order.

  /** The test of the rule that yields `l`, independent of the rules before it. */
  predicate Fires(l: Label, f: Frame, th: Thresholds) {
    match l
    case Stop => Speed(f) < th.stopSpeed
    case Reverse => f.gear == Some("R")
    case UTurn => SteeringMagnitude(f) > th.uTurnSteering
    case LeftTurn => SteeringMagnitude(f) > th.turnSteering && Steering(f) > 0.0
    case RightTurn => SteeringMagnitude(f) > th.turnSteering && !(Steering(f) > 0.0)
    case PullOver =>
      Signal(f) != 0 && SteeringMagnitude(f) > th.laneChangeSteering && Speed(f) < th.pullOverSpeed
    case LaneChange => Signal(f) != 0 && SteeringMagnitude(f) > th.laneChangeSteering
    case Deceleration => Acceleration(f) < DecelerationLimit
    case Cruising => true
  }

  /** The rule order. */
  const Cascade: seq<Label> :=
    [Stop, Reverse, UTurn, LeftTurn, RightTurn, PullOver, LaneChange, Deceleration, Cruising]

  /** The position of a label's rule in `Cascade`. */
  function Rank(l: Label): (r: nat)
    ensures r < |Cascade| && Cascade[r] == l
  {
    match l
    case Stop => 0
    case Reverse => 1
    case UTurn => 2
    case LeftTurn => 3
    case RightTurn => 4
    case PullOver => 5
    case LaneChange => 6
    case Deceleration => 7
    case Cruising => 8
  }

  /** The first rule of `rules` whose test holds; `Cruising` when none does. */
  function FirstFiring(rules: seq<Label>, f: Frame, th: Thresholds): (l: Label)
    ensures l in rules || l == Cruising
    ensures l != Cruising ==> Fires(l, f, th)
  {
    if rules == [] then Cruising
    else if Fires(rules[0], f, th) then rules[0]
    else FirstFiring(rules[1..], f, th)
  }

  /** The cascade is "try the rules in `Cascade` order, first one that fires wins". */
  lemma ClassifyFrameIsFirstMatch(f: Frame, th: Thresholds)
    ensures ClassifyFrame(f, th) == FirstFiring(Cascade, f, th)
  {
    var c := Cascade;
    FirstFiringStep(c, 0, f, th); FirstFiringStep(c, 1, f, th); FirstFiringStep(c, 2, f, th);
    FirstFiringStep(c, 3, f, th); FirstFiringStep(c, 4, f, th); FirstFiringStep(c, 5, f, th);
    FirstFiringStep(c, 6, f, th); FirstFiringStep(c, 7, f, th); FirstFiringStep(c, 8, f, th);
    assert c[0..] == c;
  }

  lemma FirstFiringStep(rules: seq<Label>, k: nat, f: Frame, th: Thresholds)
    requires k < |rules|
    ensures FirstFiring(rules[k..], f, th) ==
            if Fires(rules[k], f, th) then rules[k] else FirstFiring(rules[k + 1..], f, th)
  {
    assert rules[k..][1..] == rules[k + 1..];
  }

  /**
   * Priority: the label is `l` exactly when the rule for `l` fires and no rule
   * earlier in the cascade does.
   */
  lemma CascadePriority(f: Frame, th: Thresholds, l: Label)
    ensures ClassifyFrame(f, th) == l <==>
            Fires(l, f, th) && forall e: Label :: Rank(e) < Rank(l) ==> !Fires(e, f, th)
  {
    if Fires(l, f, th) && forall e: Label :: Rank(e) < Rank(l) ==> !Fires(e, f, th) {
      assert Rank(Stop) < Rank(l) ==> !Fires(Stop, f, th);
      assert Rank(Reverse) < Rank(l) ==> !Fires(Reverse, f, th);
      assert Rank(UTurn) < Rank(l) ==> !Fires(UTurn, f, th);
      assert Rank(LeftTurn) < Rank(l) ==> !Fires(LeftTurn, f, th);
      assert Rank(RightTurn) < Rank(l) ==> !Fires(RightTurn, f, th);
      assert Rank(PullOver) < Rank(l) ==> !Fires(PullOver, f, th);
      assert Rank(LaneChange) < Rank(l) ==> !Fires(LaneChange, f, th);
      assert Rank(Deceleration) < Rank(l) ==> !Fires(Deceleration, f, th);
    }
  }

  /** Totality: the label is one of the nine names, and it is Cruising exactly when no other rule fires. */
  lemma CruisingIsFallthrough(f: Frame, th: Thresholds)
    ensures ClassifyFrame(f, th).Name() in LabelNames
    ensures ClassifyFrame(f, th) == Cruising <==> forall l: Label :: l != Cruising ==> !Fires(l, f, th)
  {
    CascadePriority(f, th, Cruising);
  }

  /** Once past Stop, Reverse and U-Turn, a steering magnitude above the turn threshold is a turn whose side is the sign of the raw angle. */
  lemma TurnDirection(f: Frame, th: Thresholds)
    requires Speed(f) >= th.stopSpeed && f.gear != Some("R")
    requires th.turnSteering < SteeringMagnitude(f) <= th.uTurnSteering
    ensures ClassifyFrame(f, th) == (if Steering(f) > 0.0 then LeftTurn else RightTurn)
  {
  }

  /** With a signal on and steering above the lane-change threshold (and no earlier rule), Pull Over exactly when slower than the pull-over threshold, else Lane Change. */
  lemma PullOverVersusLaneChange(f: Frame, th: Thresholds)
    requires Speed(f) >= th.stopSpeed && f.gear != Some("R")
    requires SteeringMagnitude(f) <= th.uTurnSteering && SteeringMagnitude(f) <= th.turnSteering
    requires Signal(f) != 0 && SteeringMagnitude(f) > th.laneChangeSteering
    ensures ClassifyFrame(f, th) == (if Speed(f) < th.pullOverSpeed then PullOver else LaneChange)
  {
  }

  /** All tests are strict: a value equal to its threshold does not trigger the rule. */
  lemma ThresholdsAreStrict(f: Frame, th: Thresholds)
    ensures Speed(f) == th.stopSpeed ==> ClassifyFrame(f, th) != Stop
    ensures SteeringMagnitude(f) == th.uTurnSteering ==> ClassifyFrame(f, th) != UTurn
    ensures SteeringMagnitude(f) == th.turnSteering ==> ClassifyFrame(f, th) !in {LeftTurn, RightTurn}
    ensures SteeringMagnitude(f) == th.laneChangeSteering ==> ClassifyFrame(f, th) !in {PullOver, LaneChange}
    ensures Speed(f) == th.pullOverSpeed ==> ClassifyFrame(f, th) != PullOver
    ensures Acceleration(f) == DecelerationLimit ==> ClassifyFrame(f, th) != Deceleration
  {
  }

  /** A missing key is read as zero: removing a key with value 0 changes nothing. */
  lemma MissingKeysReadAsZero(f: Frame, th: Thresholds)
    ensures ClassifyFrame(f.(speed := None), th) == ClassifyFrame(f.(speed := Some(0.0)), th)
    ensures ClassifyFrame(f.(steeringAngle := None), th) == ClassifyFrame(f.(steeringAngle := Some(0.0)), th)
    ensures ClassifyFrame(f.(turnSignal := None), th) == ClassifyFrame(f.(turnSignal := Some(0)), th)
    ensures ClassifyFrame(f.(acceleration := None), th) == ClassifyFrame(f.(acceleration := Some(0.0)), th)
  {
  }

  /** Without a `turn_signal` key a frame is never Pull Over or Lane Change; without `acceleration` never Deceleration; without `gear` never Reverse. */
  lemma MissingKeysDisableRules(f: Frame, th: Thresholds)
    ensures f.turnSignal == None ==> ClassifyFrame(f, th) !in {PullOver, LaneChange}
    ensures f.acceleration == None ==> ClassifyFrame(f, th) != Deceleration
    ensures f.gear == None ==> ClassifyFrame(f, th) != Reverse
  {
  }

  /** `yaw_rate` is read but never decides the label. */
  lemma YawRateIgnored(f: Frame, th: Thresholds, y: Option<real>)
    ensures ClassifyFrame(f.(yawRate := y), th) == ClassifyFrame(f, th)
  {
  }

  /** The nine label strings are pairwise different, so the string determines the label. */
  lemma NamesDistinct(a: Label, b: Label)
    ensures a.Name() == b.Name() ==> a == b
  {
  }

  function Scenario(speed: real, steering: real, yaw: real, signal: int): Frame {
    Frame(Some(speed), Some(steering), Some(yaw), Some(signal), None, None)
  }

  /** The four regression cases of the repository's scenario check, for any thresholds with its values. */
  lemma RegressionScenarios(th: Thresholds)
    requires th.uTurnSteering == 4.327 && th.turnSteering == 1.013
    requires th.laneChangeSteering == 0.282 && th.pullOverSpeed == 11.373
    requires th.stopSpeed <= 5.0
    ensures ClassifyFrame(Scenario(5.0, 5.0, 0.1, 1), th).Name() == "U-Turn"
    ensures ClassifyFrame(Scenario(5.0, 0.3, 0.05, 1), th).Name() == "Pull Over"
    ensures ClassifyFrame(Scenario(5.0, 1.5, 0.1, 1), th).Name() == "Left Turn"
    ensures ClassifyFrame(Scenario(12.0, 0.3, 0.05, 1), th).Name() == "Lane Change"
  {
  }
}
