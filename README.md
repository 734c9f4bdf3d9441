# Scenario labelling of vehicle-bus data, in Dafny

This project models the sequential core of the CAN-bus scenario labeller (DriveDataFilterExperiments, `canbus_scenalializer`):

- **Rule cascade** (`classifier.dfy`, module `Classifier`). One frame of vehicle state is mapped to one of nine scenario labels by `RuleBasedClassifier._classify_frame`:
  - Stop, Reverse, U-Turn, Left Turn, Right Turn, Pull Over, Lane Change, Deceleration, Cruising;
  - the rules are strict threshold tests tried in a fixed order, the first that holds decides, and Cruising is the fallback;
  - a missing key reads as zero;
  - `classify` maps the cascade over a list of frames.

  Besides the cascade as written (`ClassifyFrame`), the module gives a rule table (`Fires`, `Cascade`, `FirstFiring`) and proves that the cascade is "first rule of the table that fires".
- **Nearest message lookup** (`closest_msg.dfy`, module `ClosestMsg`). `find_closest_msg` appears in three identical copies:
  - it runs `bisect_left` over the channel's `utime`s;
  - it takes the message at the bisection point and the one before it as candidates;
  - it keeps the nearer one within an inclusive tolerance, and the later one on a tie.

  `BisectLeft` is the lo/hi loop of `bisect_left`, and `FindClosestMsg` is the candidate loop with `min_diff` starting at infinity. Both are proved equal to reference functions (`Bisect`, `Closest`), and the lemmas prove the properties of those functions: insertion point, neighbours, tolerance, nearest, tie-breaking.
- **State lookup** (`vehicle_state.dfy`, module `VehicleState`). `get_vehicle_state` builds the state dictionary for one sample time:
  - speed and yaw rate from the nearest pose message;
  - the steering angle from the nearest steering message;
  - a turn signal that is always 0.
- **Sample-and-hold alignment** (`alignment.dfy`, module `Alignment`). This is the loop of the execution benchmark: two forward-only cursors carry the last steering value and the last turn signal seen into one state per pose message. For time-sorted input, each state's steering and signal are proved to be the values of the last message at or before the pose's time.
- **JSON extraction** (`json_extract.dfy`, module `JsonExtract`). `extract_json` cuts the JSON out of a language-model reply:
  - it cuts out a `` ```json `` fence, or else a plain `` ``` `` fence, and strips the result;
  - it tries to decode it;
  - if that fails, it retries on the span from the first `{` to the last `}`.

  Python's `str.find`, `str.rfind`, `str.split`, `str.strip` and slicing are modelled as written. The decoder is a parameter. The call's outcome is a returned value (possibly `None`), or an exception that escapes it.

`common.dfy` (module `Common`) holds the shared types:
- `Option`;
- `Stamped`, a message with its `utime`;
- `Pose`;
- `Frame`, the state dictionary: one `Option` per key the cascade reads, where `None` is an absent key.

Opaque library calls are parameters:
- `norm: (real, real) -> real` stands for `np.linalg.norm([vx, vy])`;
- `loads: string -> Loaded<J>` stands for `json.loads`. It tells three outcomes apart: a decoded value, a `json.JSONDecodeError`, and any other exception (a `RecursionError` on deep nesting, say). `extract_json` treats them differently. Its first decode catches only the decode error, so any other exception escapes the call, which is the `Raises` outcome. The retry's bare `except:` turns every exception into `None`.

Timestamps are unbounded integers (microseconds), and sensor values are `real`s.

Three points where the code is followed as written:
- The cascade substitutes zero for a missing key. The model does the same: no presence flags are added, and the threshold order is not validated.
- The lookup (nearest within a tolerance) and the benchmark alignment (last at or before, no tolerance) are different selections. They are modelled as two different functions and are not claimed equivalent.
- `demo.py` reads steering from channel `steer_angle_feedback` and the other copies from `steeranglefeedback`. Since the message lists are inputs, one model serves all copies of `find_closest_msg` (`rule_based/generate_demo_scenes.py:154-178`, `rule_based/demo.py:140-168`) and of `get_vehicle_state` (`rule_based/generate_demo_scenes.py:127-152`, `rule_based/demo.py:102-138`).

## Model

| member | source | states |
|---|---|---|
| `Classifier.ClassifyFrame` | canbus_scenalializer/rule_based/classifier.py:27-81 | The label is Stop exactly when the speed (0 when absent) is below the stop threshold; Stop takes priority over gear, steering, signal and acceleration. |
| `Classifier.Classify` | canbus_scenalializer/rule_based/classifier.py:22-25 | One label per frame, same length and order; label i is the cascade's label for frame i. |
| `Classifier.FirstFiring` | canbus_scenalializer/rule_based/classifier.py:42-81 | Trying rules in order yields a rule of the list whose own test holds, or Cruising. |
| `Classifier.ClassifyFrameIsFirstMatch` | canbus_scenalializer/rule_based/classifier.py:42-81 | The if-cascade equals "first rule of Stop, Reverse, U-Turn, Left Turn, Right Turn, Pull Over, Lane Change, Deceleration, Cruising whose test holds". |
| `Classifier.CascadePriority` | canbus_scenalializer/rule_based/classifier.py:42-81 | For every label l: the result is l if and only if l's test holds and the test of no earlier rule does. |
| `Classifier.CruisingIsFallthrough` | canbus_scenalializer/rule_based/classifier.py:42-81 | Totality: the result's name is one of the nine label strings, and the result is Cruising exactly when no other rule's test holds. |
| `Classifier.TurnDirection` | canbus_scenalializer/rule_based/classifier.py:53-64 | Past Stop and Reverse, with turn threshold < abs(steering) <= U-turn threshold, the result is Left Turn if the raw angle is positive and Right Turn otherwise. |
| `Classifier.PullOverVersusLaneChange` | canbus_scenalializer/rule_based/classifier.py:66-73 | With no earlier rule matching, a non-zero signal and abs(steering) above the lane-change threshold, the result is Pull Over if speed is below the pull-over threshold and Lane Change otherwise. |
| `Classifier.ThresholdsAreStrict` | canbus_scenalializer/rule_based/classifier.py:43-78 | A value equal to its threshold (stop, U-turn, turn, lane change, pull over, -1.0 deceleration) does not trigger that rule. |
| `Classifier.MissingKeysReadAsZero` | canbus_scenalializer/rule_based/classifier.py:37-76 | Removing `speed`, `steering_angle`, `turn_signal` or `acceleration` classifies like setting it to 0. |
| `Classifier.MissingKeysDisableRules` | canbus_scenalializer/rule_based/classifier.py:37-78 | No `turn_signal`: never Pull Over or Lane Change. No `acceleration`: never Deceleration. No `gear`: never Reverse. |
| `Classifier.YawRateIgnored` | canbus_scenalializer/rule_based/classifier.py:39 | Changing or removing `yaw_rate` never changes the label. |
| `Classifier.NamesDistinct` | canbus_scenalializer/rule_based/classifier.py:42-81 | The nine label strings are pairwise different. |
| `Classifier.RegressionScenarios` | canbus_scenalializer/rule_based/verify_new_scenarios.py:15-56 | With the scenario check's thresholds, its four frames give U-Turn, Pull Over, Left Turn and Lane Change. |
| `ClosestMsg.Times` | canbus_scenalializer/gemini_labeler/labeler_cli.py:52 | The list of `utime`s has one entry per message, in order. |
| `ClosestMsg.Bisect` | canbus_scenalializer/gemini_labeler/labeler_cli.py:53 | The binary search over a[lo..hi] ends inside [lo, hi], for any input, sorted or not. |
| `ClosestMsg.BisectIsInsertionPoint` | canbus_scenalializer/gemini_labeler/labeler_cli.py:53 | On sorted times the search ends at the insertion point: every earlier time is below x and no later time is. |
| `ClosestMsg.BisectLeft` | canbus_scenalializer/gemini_labeler/labeler_cli.py:53 | The lo/hi loop returns the reference search's index, in [0, len]; on sorted input it is the leftmost insertion point. |
| `ClosestMsg.BisectPoint` | canbus_scenalializer/gemini_labeler/labeler_cli.py:52-53 | The bisection point of the query time lies in [0, len(msgs)]. |
| `ClosestMsg.Neighbours` | canbus_scenalializer/gemini_labeler/labeler_cli.py:55-59 | The candidates are the message at the bisection point, if there is one, followed by the message before it, if there is one. |
| `ClosestMsg.FirstNearestIsClosest` | canbus_scenalializer/gemini_labeler/labeler_cli.py:55-68 | Among the candidates, the first one within the tolerance at the least distance (or nothing, when none is within it) is the reference selection `Closest`. |
| `ClosestMsg.FindClosestMsg` | canbus_scenalializer/gemini_labeler/labeler_cli.py:47-70 | The candidate loop returns exactly the reference selection `Closest`: None for an empty list, otherwise the in-tolerance neighbour kept by the strict `<`. After each candidate, the loop's `best` is the first of the candidates so far within the tolerance at the least distance, or None when none of them is within it. |
| `ClosestMsg.ClosestWithinTolerance` | canbus_scenalializer/gemini_labeler/labeler_cli.py:48-68 | An empty list gives None; a found message is within the tolerance, bound included. |
| `ClosestMsg.ClosestIsNeighbour` | canbus_scenalializer/gemini_labeler/labeler_cli.py:53-59 | A found message is msgs[idx] or msgs[idx-1]; it is msgs[0] when idx is 0 and the last message when idx is the length. |
| `ClosestMsg.ClosestTieGoesRight` | canbus_scenalializer/gemini_labeler/labeler_cli.py:55-68 | When both neighbours are at the same in-tolerance distance, msgs[idx] is returned. |
| `ClosestMsg.BisectPointBrackets` | canbus_scenalializer/gemini_labeler/labeler_cli.py:53 | On sorted times, messages before the bisection point are earlier than t and the rest are not. |
| `ClosestMsg.ClosestIsNearest` | canbus_scenalializer/gemini_labeler/labeler_cli.py:51-70 | On sorted times, a found message is at least as near to t as every message of the list. |
| `ClosestMsg.ClosestNoneIff` | canbus_scenalializer/gemini_labeler/labeler_cli.py:51-70 | On sorted times, the result is None if and only if no message lies within the tolerance. |
| `ClosestMsg.ClosestPrefersLater` | canbus_scenalializer/gemini_labeler/labeler_cli.py:61-68 | On sorted times, a found message earlier than t is strictly nearer than every message at or after t. |
| `ClosestMsg.ClosestOutsideWindow` | canbus_scenalializer/gemini_labeler/labeler_cli.py:47-70 | On sorted times, a query more than the tolerance before the first or after the last message finds nothing. |
| `VehicleState.GetVehicleState` | canbus_scenalializer/gemini_labeler/labeler_cli.py:20-45 | `speed` and `yaw_rate` are present exactly when a pose is found, with norm(vx, vy) and the z rotation rate of that pose. `steering_angle` is present exactly when a steering message is found, with its value. `turn_signal` is 0. No other key is set. |
| `VehicleState.LookupStateLabels` | canbus_scenalializer/gemini_labeler/labeler_cli.py:33-45 | A looked-up state can only be Stop, U-Turn, Left Turn, Right Turn or Cruising. |
| `VehicleState.NoPoseMeansStop` | canbus_scenalializer/gemini_labeler/labeler_cli.py:34-36 | Without a pose in tolerance, the state is Stop exactly when the stop threshold is positive. |
| `Alignment.SteerCursorIsLastAtOrBefore` | canbus_scenalializer/rule_based/benchmark_execution.py:101-104 | When the consumed messages are at or before t and the rest are after it, the held steering is the last steering value at or before t (0 if none). |
| `Alignment.SignalCursorIsLastAtOrBefore` | canbus_scenalializer/rule_based/benchmark_execution.py:106-110 | The same for the turn signal: the held signal is the last signal present at or before t (0 if none). |
| `Alignment.NothingDueHoldsZero` | canbus_scenalializer/rule_based/benchmark_execution.py:91-92 | Before any message is due, the values in force are 0. |
| `Alignment.SignallessMessageKeepsSignal` | canbus_scenalializer/rule_based/benchmark_execution.py:108-110 | Consuming a monitor message without `turn_signal` leaves the held signal unchanged. |
| `Alignment.PoseState` | canbus_scenalializer/rule_based/benchmark_execution.py:112-117 | A state has all four keys `speed`, `yaw_rate`, `steering_angle`, `turn_signal`. |
| `Alignment.AdvanceSteer` | canbus_scenalializer/rule_based/benchmark_execution.py:102-104 | The steering cursor only moves forward, stays within the list, and consumes exactly the messages not after t; it holds the value of the last one consumed. |
| `Alignment.AdvanceSignal` | canbus_scenalializer/rule_based/benchmark_execution.py:107-110 | The monitor cursor only moves forward, stays within the list, and consumes exactly the messages not after t; it holds the last signal present among all consumed. |
| `Alignment.AlignStates` | canbus_scenalializer/rule_based/benchmark_execution.py:84-118 | One state per pose, in pose order. Speed and yaw come from that pose, all four keys are present, and nothing else is set. For sorted poses and steering, steering is the last value at or before the pose. For sorted poses and monitors, the signal is the last signal at or before the pose. |
| `JsonExtract.Find` | canbus_scenalializer/gemini_labeler/labeler_cli.py:129 | `str.find`: the first occurrence, or -1 exactly when there is none. |
| `JsonExtract.RFind` | canbus_scenalializer/gemini_labeler/labeler_cli.py:130 | `str.rfind`: the last occurrence, or -1 exactly when there is none. |
| `JsonExtract.Before` | canbus_scenalializer/gemini_labeler/labeler_cli.py:122 | `s.split(sep)[0]`: a prefix of s in which no separator starts. It is all of s, or it is followed by an occurrence of the separator. |
| `JsonExtract.After` | canbus_scenalializer/gemini_labeler/labeler_cli.py:122 | The rest after the first separator: s is the text before it, the separator, and this rest. |
| `JsonExtract.Split` | canbus_scenalializer/gemini_labeler/labeler_cli.py:122 | `str.split` splits leftmost first. Piece 0 is the text before the first separator. When the separator occurs there is a piece 1, the text between the first and the next separator. |
| `JsonExtract.JoinSplit` | canbus_scenalializer/gemini_labeler/labeler_cli.py:122 | Joining the pieces of a split with the separator gives back the string. |
| `JsonExtract.SplitPiecesAvoidSeparator` | canbus_scenalializer/gemini_labeler/labeler_cli.py:122 | No piece of a split contains the separator. |
| `JsonExtract.Strip` | canbus_scenalializer/gemini_labeler/labeler_cli.py:122 | `str.strip` leaves an infix of the input with only white space around it and none at either end. |
| `JsonExtract.StripTrimmed` | canbus_scenalializer/gemini_labeler/labeler_cli.py:122-124 | Stripping a string with no white space at its ends changes nothing. |
| `JsonExtract.Slice` | canbus_scenalializer/gemini_labeler/labeler_cli.py:133 | `text[a:b]` has length b - a and is empty when b <= a. Its characters are text[a], text[a+1], and so on. |
| `JsonExtract.FenceStrip` | canbus_scenalializer/gemini_labeler/labeler_cli.py:121-124 | With a ```` ```json ```` in the reply, the candidate is the text after the first one, cut at the next ```` ```json ```` and then at the next ```` ``` ````, stripped. Else, with a ```` ``` ````, it is the text between the first ```` ``` ```` and the next, stripped. Else it is the reply unchanged, not stripped. |
| `JsonExtract.Caught` | canbus_scenalializer/gemini_labeler/labeler_cli.py:133-135 | The retry's bare `except:` turns every exception into None and keeps a decoded value. |
| `JsonExtract.ExtractJson` | canbus_scenalializer/gemini_labeler/labeler_cli.py:116-136 | A candidate that decodes is returned. The call raises exactly when the first decode raises something other than a decode error. After a decode error, the result is None unless the candidate holds both `{` and `}`. If it holds both, the result is the retry on the span from the first `{` to the last `}`, with any exception read as None. |
| `JsonExtract.FencedTail` | canbus_scenalializer/gemini_labeler/labeler_cli.py:122 | After a ```` ```json ```` fence, the text cut at the next ```` ```json ```` and then at the next ```` ``` ```` is the body before the closing fence. This holds when no ```` ``` ```` starts inside the body (one running on into the closing fence included) and no backtick follows the closing fence at once. |
| `JsonExtract.JsonFencedReply` | canbus_scenalializer/gemini_labeler/labeler_cli.py:121-122 | For pre + ```` ```json ```` + body + ```` ``` ```` + post, the candidate is strip(body). This holds when no ```` ```json ```` starts in pre, no ```` ``` ```` starts in body, and no backtick follows the closing fence at once. |
| `JsonExtract.PlainFencedReply` | canbus_scenalializer/gemini_labeler/labeler_cli.py:123-124 | For pre + ```` ``` ```` + body + ```` ``` ```` + post, the candidate is strip(body). This holds when the reply has no ```` ```json ```` and no ```` ``` ```` starts in pre or in body. |
| `JsonExtract.InlineBacktickKept` | canbus_scenalializer/gemini_labeler/labeler_cli.py:121-122 | A single backtick inside a ```` ```json ```` block stays in the candidate: for any non-space character c other than a backtick, the reply ```` ```json ```` + `` ` `` + c + ```` ``` ```` yields `` ` `` + c. |
| `JsonExtract.BraceSpan` | canbus_scenalializer/gemini_labeler/labeler_cli.py:129-133 | In pre + `{` + mid + `}` + post, with no `{` in pre and no `}` in post, the braces found are those around mid and the slice is `{` + mid + `}`. |
| `JsonExtract.BracedFallback` | canbus_scenalializer/gemini_labeler/labeler_cli.py:127-135 | Take any reply, fenced or not, whose candidate fails with a decode error. If the candidate is pre + `{` + mid + `}` + post, with no `{` in pre and no `}` in post, the result is the retry's outcome on `{` + mid + `}`. |

## Left out

- Dataset access is not part of this model: `NuScenes`, `NuScenesCanBus.get_messages`, the scene scans, and JSON/YAML file writes. Message lists are inputs.
- `RuleBasedClassifier.__init__` is not part of this model; the thresholds are a record. It reads the configuration handle twice (`yaml.safe_load`, then `json.load`). The first read consumes the whole file, so `json.load` sees an empty string and raises `JSONDecodeError`. As written, `RuleBasedClassifier` cannot be constructed, and every caller of the cascade, `verify_new_scenarios.py` included, fails before anything is classified. A missing threshold key, which raises `KeyError`, is not modelled either: the record always has all five.
- The video overlay and `cv2` rendering in the `main` functions are not modelled. Neither are the Gemini CLI subprocess and API calls, the dead first `main` of `labeler_cli.py`, `tune_thresholds.py` (mixture fitting and plotting), or the benchmark's timing and FPS arithmetic. The FPS arithmetic divides by zero when no frame is processed.
- Floating point: sensor values and thresholds are `real`s, so NaN and infinities are not modelled. `np.linalg.norm` is an uninterpreted parameter.
- `json.loads` is a parameter returning `Loaded`. A reply that decodes to JSON `null` makes Python's `extract_json` return `None`; here it is a `Some` of whatever value the parameter gives. Which inputs make `json.loads` raise, and which exception it raises, is left to the parameter.
- A key present with value `None` (JSON `null`) in a frame is not modelled; `Frame` distinguishes only present and absent keys.
- AlignStates: held values are promised only for sorted input. If the poses, or the steering or monitor messages, are not sorted by `utime`, only the shape of the result is specified: one state per pose, all keys present, speed and yaw from the pose. Which held value each state carries is not.
- Python's `str.strip` white-space set is modelled as the fixed list of characters for which `str.isspace` holds; Unicode tables are not consulted.
