# ARMCtrl vision-to-arm core, in Dafny

This project models the decision logic of ARMCtrl_Arduino_OpenCV. That
repository watches a camera and finds coloured triangles and squares. It
turns each (colour, shape) pair into an action code A–D. It then sends the
code to an Arduino over a serial port, or drives four relays of a Raspberry
Pi arm controller.

The model covers these parts:

- **Vision chain** (`utils/vision_processing`):
  - the shape validator and the confidence score;
  - `detect_target`, with its labels in colour-then-contour order and the
    union of the colour masks;
  - the configuration module, with its action table and its global colour
    table;
  - the `StateManager` majority-vote debouncer.
- **Older detectors**:
  - `OpenCV2Arduino/detector.py`, which uses a strict 0.7 threshold;
  - the top-level `detector.py`, where the first mapped contour wins;
  - `core/object_detector.py`, which keeps convex quadrilaterals;
  - `OpenCV2Arduino/pySerial.py`, which has its own first-action search and
    a send gate that is never reset.
- **Send gates**:
  - the frame loop of `main.py`, which resets when nothing is seen;
  - `controller/auto_runner.py`, which scans the slot codes in sorted order,
    stops at the first hit and sends when the code changes.
- **Configuration stores**:
  - the slot table of `controller/signal_mapper.py`, with the zero-range
    fill on load, the guarded update and the twelve default slots;
  - the colour database of `json_storage.py` and `core/json_storage.py`
    (the two files hold the same code, modelled once);
  - the hot reload of `main_stream.py`, keyed on the file's modification
    time and checked at most every 5 seconds.
- **Relay driver** (`pi_gpio_controller.py`):
  - the mapping from logical state to pin level through `inverse_logic`;
  - the all-relays setters;
  - the strobe protocol that puts the 3-bit code of an action on R2–R4
    and uses R1 as the strobe.

OpenCV's results for one contour are plain values in the model (`Geometry.Contour`):

- area;
- bounding-box width and height;
- vertex count;
- convexity;
- the number of set mask pixels in the box.

A mask is a set of pixels. Ratios and scores are exact reals or integer
cross-multiplications.

Files are values of the form `Missing | Malformed | Holds(content)`. A store
object counts its `json.dump` calls in `writes`. A Python dict is an
association list with distinct keys in insertion order (`PyDict`), so the
first-match searches and the iteration order are exact.

Hardware and serial output become ordered logs:

- the GPIO writes of the relay driver;
- the codes sent by the auto runner;
- the labels sent by `main.py`;
- the actions written to the serial port by `pySerial.py`.

Two behaviours of the code are worth stating up front:

1. **`StateManager`.** `get_stable_label` answers `None` until the deque is
   full (state_manager.py lines 16-17). With window 5 and threshold 3, the
   run X, X, X, None, None therefore answers X on the fifth call, not
   earlier. `Stabilizer.DefaultScenario` proves this.
2. **`update_slot`.** For an unknown code, `update_slot` returns `False`
   (signal_mapper.py lines 51-53). Its `load_signal_map` call may still have
   written the file, when it had to fill a missing range (lines 20-21).
   `SignalMapper.SignalStore.UpdateSlot` states that write.

## Model

| member | source | states |
|---|---|---|
| FeatureValidator.ValidateShape | utils/vision_processing/feature_validator.py:5-23 | accepts exactly when area ≥ 1000, a Square's box satisfies 4h ≤ 5w ≤ 6h (ratio in [0.8, 1.2], both ends included), and a Triangle has 3 vertices and area ≥ 1500; any other shape name is judged by the area floor alone; callers must not pass a zero-height candidate that clears the floor |
| FeatureValidator.AspectBand | utils/vision_processing/feature_validator.py:10-15 | for h > 0 the comparisons w/h < 0.8 and w/h > 1.2 are exactly 5w < 4h and 5w > 6h |
| FeatureValidator.SmallTriangleRejected | utils/vision_processing/feature_validator.py:17-21 | a triangle with 1000 ≤ area < 1500 is refused, although the same candidate passes under a name judged by the floor alone |
| ConfidenceScorer.AspectRatio | utils/vision_processing/confidence_scorer.py:10-11 | never negative, and for h > 0 it is the real w/h (r·h = w) |
| ConfidenceScorer.ShapeScore | utils/vision_processing/confidence_scorer.py:13-19 | every shape score lies in [0, 1] |
| ConfidenceScorer.Density | utils/vision_processing/confidence_scorer.py:21-24 | the density is non-negative, and below 1 whenever the box holds at most w·h set pixels |
| ConfidenceScorer.ComputeConfidence | utils/vision_processing/confidence_scorer.py:5-28 | 0 below the area floor; otherwise 0 ≤ score < 1 for every well-formed contour |
| ConfidenceScorer.SquareScorePeak | utils/vision_processing/confidence_scorer.py:14-15 | for h > 0 a Square's shape score is 1 exactly when w = h |
| ConfidenceScorer.ZeroHeightSquare | utils/vision_processing/confidence_scorer.py:11-15 | with h = 0 the aspect ratio is 0 and a Square scores 0 |
| ConfidenceScorer.ConfidenceMonotone | utils/vision_processing/confidence_scorer.py:21-27 | more set pixels in the box never lower the score |
| Geometry.ShapeOf | utils/vision_processing/detector.py:40-44 | 3 vertices gives Triangle, 4 gives Square, and any other count gives no shape, each in both directions |
| Geometry.MaskUnion | utils/vision_processing/detector.py:17-29 | a pixel is in the total mask exactly when it is in some colour's mask |
| VisionConfig.ActionMapInjective | utils/vision_processing/config.py:14-19 | the action table's values are A, B, C and D, and distinct keys map to distinct codes |
| VisionConfig.SavedFile | utils/vision_processing/config.py:41-50 | after a successful write the file loads back as the new table; a failed open leaves the file as it was; a failed dump leaves a file that loads as empty |
| VisionConfig.ColorConfig.constructor | utils/vision_processing/config.py:51-52 | importing the module sets the global to what the file loads as |
| VisionConfig.ColorConfig.LoadColorRanges | utils/vision_processing/config.py:21-39 | returns exactly the value it stores in the global, which is what the file loads as |
| VisionConfig.ColorConfig.SaveColorRanges | utils/vision_processing/config.py:41-50 | the file becomes the saved file for this outcome, and the global follows only a write that succeeded |
| VisionConfig.SaveThenLoad | utils/vision_processing/config.py:21-50 | a successful save followed by a load returns the saved table and leaves it in the global |
| VisionDetector.ContourLabel | utils/vision_processing/detector.py:36-52 | a contour's label, when there is one, is a value of the action table, and its (colour, shape) is a key of the table |
| VisionDetector.ColorLabels | utils/vision_processing/detector.py:36-52 | the inner loop appends exactly the labels of one colour's contours, in contour order |
| VisionDetector.DetectTarget | utils/vision_processing/detector.py:9-59 | the label list is the per-colour labels in table order, and the mask is the union of the colour masks |
| VisionDetector.UnshapedGivesNoLabel | utils/vision_processing/detector.py:40-46 | a contour with neither 3 nor 4 vertices gives no label, whatever its height, because the validator is never reached |
| VisionDetector.LabelsAreActions | utils/vision_processing/detector.py:50-52 | every returned label is a value of the action table |
| VisionDetector.DetectedIff | utils/vision_processing/detector.py:40-52 | a label is returned exactly when some contour has a shape, passes the validator, scores at least 0.7, and has its (colour, shape) mapped to that label |
| VisionDetector.LabelsFollowContourOrder | utils/vision_processing/detector.py:36-52 | the labels of concatenated contour lists are the concatenated labels, so the order follows the contours and duplicates are kept |
| VisionDetector.EmptyTable | utils/vision_processing/detector.py:17-59 | an empty colour table gives no labels and an all-zero mask |
| VisionDetector.ThresholdInclusive | utils/vision_processing/detector.py:49-52 | a mapped, validated candidate scoring exactly 0.7 is labelled |
| VisionDetector.RedSquareIsB | utils/vision_processing/detector.py:40-52 | a red quadrilateral with a square box that clears the area floor and fills a quarter of its box is reported as B |
| ArduinoDetector.Decide | OpenCV2Arduino/detector.py:29-46 | a label is a value of the action table, given only to a shaped, validated contour scoring strictly above 0.7 |
| ArduinoDetector.ColorLabels | OpenCV2Arduino/detector.py:29-46 | the inner loop appends exactly the labels of one colour's contours, in contour order |
| ArduinoDetector.DetectTarget | OpenCV2Arduino/detector.py:9-52 | the label list is the per-colour labels in table order, and the mask is the union of the raw colour masks |
| ArduinoDetector.ThresholdStrict | OpenCV2Arduino/detector.py:43 | a candidate scoring exactly 0.7 is never labelled |
| ArduinoDetector.LabelsAreActions | OpenCV2Arduino/detector.py:39-46 | every label is a value of the action table, coming from a validated contour that scores above 0.7 and whose (colour, shape) is mapped to it |
| ArduinoDetector.EmptyTable | OpenCV2Arduino/detector.py:12-52 | an empty colour table gives no labels and an all-zero mask |
| RootDetector.ContourAction | detector.py:19-36 | a contour offers an action exactly when its area is at least 500, it has a shape, and its (colour, shape) is mapped; the action is the mapped one |
| RootDetector.DetectTarget | detector.py:7-42 | the result is the first offered action in colour-then-contour order, or None |
| RootDetector.ResultIsAction | detector.py:34-36 | a returned label is a value of the action table |
| RootDetector.NoneIffNothingMapped | detector.py:12-42 | None is returned exactly when no contour of area at least 500 has a mapped (colour, shape) |
| RootDetector.FirstQualifyingWins | detector.py:12-40 | when nothing earlier qualifies, the answer is the action of the first qualifying contour |
| RootDetector.AreaFloorBoundary | detector.py:20-22 | a red triangle of area exactly 500 is reported as A; a smaller one is skipped |
| ObjectDetector.DetectValidContours | core/object_detector.py:4-23 | the loop returns exactly the filtered contours, in input order |
| ObjectDetector.FilteredIsSubsequence | core/object_detector.py:10-23 | the result is an order-preserving subsequence of the input |
| ObjectDetector.FilteredExactly | core/object_detector.py:12-21 | every returned contour passes the area and convex-quadrilateral test; every input that passes is returned, as often as it occurs |
| ObjectDetector.ThresholdBoundary | core/object_detector.py:4-15 | a convex quadrilateral of area exactly 3000 is kept; one below 3000 is dropped |
| PySerial.ActionMapInjective | OpenCV2Arduino/pySerial.py:27-32 | Red/Green × Triangle/Square map to A–D, distinct keys to distinct codes |
| PySerial.ContourAction | OpenCV2Arduino/pySerial.py:48-64 | a contour offers an action exactly when its area is strictly above 1000, it has a shape, and its (colour, shape) is mapped |
| PySerial.FindShapes | OpenCV2Arduino/pySerial.py:41-73 | `find_shapes` returns the first offered action in colour-then-contour order, or None |
| PySerial.AreaThresholdStrict | OpenCV2Arduino/pySerial.py:49-50 | a contour of area exactly 1000 offers nothing |
| PySerial.FindShapesSpec | OpenCV2Arduino/pySerial.py:41-73 | None exactly when no contour above the threshold has a mapped (colour, shape); otherwise a value of the table |
| PySerial.FirstDetectionKept | OpenCV2Arduino/pySerial.py:64-66 | later detections never overwrite the first qualifying one |
| PySerial.MainLoop | OpenCV2Arduino/pySerial.py:76-99 | the main loop's writes and `last_action` are those of the send gate applied to the frames' actions |
| PySerial.SerialRunIsCompress | OpenCV2Arduino/pySerial.py:89-99 | what is written is the detected actions with repeats collapsed, and `last_action` is the last action ever detected |
| PySerial.NeverTwiceInARow | OpenCV2Arduino/pySerial.py:89-99 | the same action is never written twice in a row |
| PySerial.NoResetOnAbsence | OpenCV2Arduino/pySerial.py:96-99 | A, nothing, A writes A only once, because the reset is commented out |
| MainLoop.Run | main.py:23-38 | the loop's sends and `last_action` are those of the send/reset gate applied to the detector's labels |
| MainLoop.LastActionIsLatest | main.py:32-38 | `last_action` is the latest label when that label is non-empty, and None otherwise |
| MainLoop.SendsAreChangePoints | main.py:28-38 | the labels sent are exactly the non-empty labels whose preceding frame had a different label |
| MainLoop.RepeatSendsNothing | main.py:32-38 | a repeated identical label sends nothing and keeps `last_action` |
| MainLoop.ResendAfterAbsence | main.py:37-38 | A, nothing, A sends A twice |
| Stabilizer.Push | utils/vision_processing/state_manager.py:7-13 | the deque never exceeds its size; below it the label is appended, and at it the oldest label falls out and the rest keep their order |
| Stabilizer.BestIndex | utils/vision_processing/state_manager.py:19-23 | the chosen index has the highest count, and every earlier label is strictly rarer |
| Stabilizer.MostCommon | utils/vision_processing/state_manager.py:19-23 | the chosen label is in the window, and no label occurs more often |
| Stabilizer.StableLabel | utils/vision_processing/state_manager.py:15-29 | None until the window is full; a label exactly when the window's most common label is not None, occurs at least `stable_threshold` times and differs from the last answer |
| Stabilizer.StateManager.constructor | utils/vision_processing/state_manager.py:6-9 | an empty window of the given size, the given threshold and no last label |
| Stabilizer.StateManager.Update | utils/vision_processing/state_manager.py:12-13 | only the window changes, by a bounded append |
| Stabilizer.StateManager.GetStableLabel | utils/vision_processing/state_manager.py:15-29 | the answer is the stable label of the window, and `last_sent_label` changes exactly when a label is answered |
| Stabilizer.ModeIndexUnique | utils/vision_processing/state_manager.py:19-23 | the choice among tied labels is determined: only one index has the highest count with every earlier label strictly rarer |
| Stabilizer.TieGoesToFirstSeen | utils/vision_processing/state_manager.py:19-23 | a label tied with the chosen one occurs only after the chosen one first occurs |
| Stabilizer.Pulse | utils/vision_processing/state_manager.py:25-27 | right after answering X, asking again without an update answers None |
| Stabilizer.NothingWhileFilling | utils/vision_processing/state_manager.py:16-17 | while the window fills, every answer is None and nothing is remembered |
| Stabilizer.WindowFills | utils/vision_processing/state_manager.py:16-27 | the fifth label of X, X, X, None, None fills the window, and X is answered and remembered |
| Stabilizer.NoneTakesOver | utils/vision_processing/state_manager.py:23-29 | one more None makes None the most common label, so nothing is answered and X stays remembered |
| Stabilizer.FirstAnswerOnFullWindow | utils/vision_processing/state_manager.py:6-27 | with (5, 3), X, X, X, None, None answers None four times, then X |
| Stabilizer.DefaultScenario | utils/vision_processing/state_manager.py:6-29 | with (5, 3), X, X, X, None, None, None answers X once, on the fifth call |
| SignalMapper.SignalStore.SaveSignalMap | controller/signal_mapper.py:26-28 | the file becomes the table, with one more write |
| SignalMapper.SignalStore.LoadSignalMap | controller/signal_mapper.py:8-23 | returns what the file loads as, and writes the filled table back exactly when a slot had no `hsv` key; a present `{}` or null `hsv` is kept and causes no write |
| SignalMapper.SignalStore.GetSignalCode | controller/signal_mapper.py:31-36 | raises for an undecodable file; otherwise the first code whose name and shape match, after the load's write-back |
| SignalMapper.SignalStore.GetAllSlots | controller/signal_mapper.py:39-40 | the loaded table |
| SignalMapper.SignalStore.GetSlotHsv | controller/signal_mapper.py:43-47 | raises for an undecodable file; otherwise the loaded slot's `hsv` value, falsy or not, or the zero range for an unknown code |
| SignalMapper.SignalStore.UpdateSlot | controller/signal_mapper.py:50-59 | an unknown code gives False with no write beyond the load's; a known code stores the updated slot with one more write and gives True |
| SignalMapper.SignalStore.InitEmptySlotMapping | controller/signal_mapper.py:62-71 | a missing file becomes the twelve default slots with one write; an existing file is left alone |
| SignalMapper.FillHsvSpec | controller/signal_mapper.py:15-21 | filling keeps the codes in order, leaves no slot without an `hsv` key, keeps every slot that had one (a falsy one included), and is the identity when nothing needs filling |
| SignalMapper.GetFillHsv | controller/signal_mapper.py:15-19 | looking a code up after loading finds the file's slot, filled only if its `hsv` key was missing |
| SignalMapper.FalsyHsvKept | controller/signal_mapper.py:43-47 | a slot whose `hsv` is `{}` or null is not filled on load, and `get_slot_hsv` returns that value rather than the zero range |
| SignalMapper.LoadIdempotent | controller/signal_mapper.py:8-23 | a second load returns the same table and writes nothing |
| SignalMapper.FindCodeSpec | controller/signal_mapper.py:31-36 | None exactly when no slot matches; otherwise the code of a matching slot with no match before it |
| SignalMapper.FindCodeIgnoresHsv | controller/signal_mapper.py:31-36 | filling ranges on load never changes which code a name and shape find |
| SignalMapper.DefaultSlotsSpec | controller/signal_mapper.py:62-71 | the default table holds exactly the distinct codes A to L in order, each with empty name and shape and the zero range, and loading it writes nothing |
| SignalMapper.UpdateSpec | controller/signal_mapper.py:54-59 | after an update the codes are the same, the slot holds the new name and shape, its range changes only when one was given, and no other code changes |
| AutoRunnerModel.SortCodes | controller/auto_runner.py:21 | `sorted` gives a permutation of the codes in Python string order |
| AutoRunnerModel.SendOnChange | controller/auto_runner.py:35-38 | a match is sent and remembered when it differs from the last code sent; no match changes nothing |
| AutoRunnerModel.AutoRunner.constructor | controller/auto_runner.py:8-10 | disabled, nothing sent and nothing remembered |
| AutoRunnerModel.AutoRunner.SetEnabled | controller/auto_runner.py:12-14 | sets the flag and forgets the last code sent |
| AutoRunnerModel.AutoRunner.ProcessFrame | controller/auto_runner.py:16-41 | disabled: returns the frame and changes nothing; enabled: loads the slots (raising on a bad file), and sends the first sorted code that hits (a slot with an empty label or shape, or an `hsv` of `{}` or null, never hits) when it differs from the last one sent, returning the frame |
| AutoRunnerModel.FirstHitSpec | controller/auto_runner.py:21-39 | None exactly when no code hits; otherwise the first code in scan order that hits, so at most one code per frame |
| AutoRunnerModel.FirstHitIsUsableSlot | controller/auto_runner.py:21-34 | a matched code is a slot code whose slot has a non-empty label and shape and an `hsv` range (not `{}` or null), and that range finds the slot's shape |
| AutoRunnerModel.HsvKeyDecidesScan | controller/auto_runner.py:20-34 | a slot whose `hsv` in the file is `{}` or null is never sent; a slot with no `hsv` key is filled on load and scanned with the zero range |
| AutoRunnerModel.SortedStrictly | controller/auto_runner.py:21 | with distinct codes the scan order is strictly increasing |
| AutoRunnerModel.RepeatSendsOnce | controller/auto_runner.py:35-38 | the same match twice in a row is sent once |
| AutoRunnerModel.ResendAfterModeSwitch | controller/auto_runner.py:12-14 | after a mode switch the first match is sent even if it was the code sent before the switch |
| PiGpio.Level | utils/arm_controller/pi_gpio_controller.py:61-64 | the pin is HIGH exactly when the logical state differs from `inverse_logic` |
| PiGpio.PiGpioController.Create | utils/arm_controller/pi_gpio_controller.py:14-48 | raises exactly when GPIO is present and there are not four pins; in simulation nothing is written; otherwise it ends with the all-OFF writes |
| PiGpio.PiGpioController.SetRelayState | utils/arm_controller/pi_gpio_controller.py:50-64 | one write of the relay's pin at its level, or nothing in simulation |
| PiGpio.PiGpioController.SetAllRelays | utils/arm_controller/pi_gpio_controller.py:66-77 | the four relay writes in order, or nothing in simulation |
| PiGpio.PiGpioController.AllRelaysOff | utils/arm_controller/pi_gpio_controller.py:81-82 | the four OFF writes |
| PiGpio.PiGpioController.RunPlainSequence | utils/arm_controller/pi_gpio_controller.py:85-112 | set all four, then all OFF |
| PiGpio.PiGpioController.RunEncodingSequence | utils/arm_controller/pi_gpio_controller.py:120-128 | R1 ON, the code on R2–R4, then all OFF |
| PiGpio.PiGpioController.RunProtocolSequence | utils/arm_controller/pi_gpio_controller.py:139-152 | R1 OFF, the code on R2–R4, R1 ON, then all OFF |
| PiGpio.PiGpioController.TriggerAction | utils/arm_controller/pi_gpio_controller.py:157-167 | the protocol sequence with the action's code |
| PiGpio.PiGpioController.Cleanup | utils/arm_controller/pi_gpio_controller.py:182-190 | all relays OFF with GPIO present; nothing in simulation |
| PiGpio.LevelSpec | utils/arm_controller/pi_gpio_controller.py:61-64 | ON and OFF give different levels, and ON with inverse logic is LOW |
| PiGpio.AllOffLeavesOff | utils/arm_controller/pi_gpio_controller.py:81-82 | after `all_relays_off` every relay pin is at the OFF level, whatever came before |
| PiGpio.SetAllSetsEach | utils/arm_controller/pi_gpio_controller.py:75-77 | with distinct pins, relay i ends at the level of state i |
| PiGpio.SetAllTouchesOnlyRelays | utils/arm_controller/pi_gpio_controller.py:75-77 | a pin that is not a relay pin keeps its level |
| PiGpio.EncodingIsBinaryOrdinal | utils/arm_controller/pi_gpio_controller.py:157-167 | A–D send 001, 010, 011 and 100, the binary of 1–4, so distinct actions send distinct codes |
| PiGpio.ProtocolCodeSet | utils/arm_controller/pi_gpio_controller.py:141-144 | after the first four writes R1 is OFF and R2–R4 hold the code |
| PiGpio.ProtocolStrobe | utils/arm_controller/pi_gpio_controller.py:148 | the fifth write raises R1 and leaves R2–R4 as they were |
| PiGpio.ProtocolEndsOff | utils/arm_controller/pi_gpio_controller.py:152 | the protocol ends with all four relays OFF |
| PiGpio.EncodingCodeSet | utils/arm_controller/pi_gpio_controller.py:122-125 | R1 is ON together with the code on R2–R4 |
| PiGpio.EncodingEndsOff | utils/arm_controller/pi_gpio_controller.py:128 | the encoding variant ends with all four relays OFF |
| MainStream.StreamApp.constructor | main_stream.py:39-62 | the active table and the global are what the file loads as, and the cached time is the initial time |
| MainStream.StreamApp.CheckAndReload | main_stream.py:65-95 | the table and cached time follow the reload rule for the probe, and the global is reloaded only on a new time |
| MainStream.StreamApp.Run | main_stream.py:183-194 | after a run of clock readings, the table and cached time are those of the checks the 5-second gate lets through |
| MainStream.ReloadIdempotent | main_stream.py:65-95 | checking twice against an unchanged file does nothing more than checking once |
| MainStream.StampSynchronises | main_stream.py:76-82 | after reading a time the cached time is that time, and the table is reloaded exactly when the time had changed |
| MainStream.RangesChangeOnlyOnNewStampOrLoss | main_stream.py:65-95 | the table changes only by a reload on a new time, or by being cleared when the file is gone |
| MainStream.LossPaths | main_stream.py:68-95 | a vanished file clears a non-empty table; with an empty table a failed existence check keeps the cached time but `FileNotFoundError` resets it to 0; another `OSError` changes nothing |
| MainStream.ChecksSpaced | main_stream.py:183-194 | checks happen strictly more than 5 seconds apart, and the last check time is the latest check |
| MainStream.GateClosed | main_stream.py:192-194 | a reading at most 5 seconds after the last check does nothing |
| JsonStorage.ColorStore.LoadAllColors | json_storage.py:5-13 | returns what the file loads as, with distinct names |
| JsonStorage.ColorStore.SaveColor | json_storage.py:16-21 | the file becomes the loaded map with the name set to the new range, with one write |
| JsonStorage.ColorStore.DeleteColor | json_storage.py:24-30 | a present name is removed with one write; an absent name writes nothing |
| JsonStorage.ColorStore.ColorExists | json_storage.py:33-36 | true exactly when the name is a key of the loaded map |
| JsonStorage.SaveThenLoad | core/json_storage.py:16-21 | after saving, the name exists and loads back as the saved range, and every other name is unchanged |
| JsonStorage.DeleteThenLoad | core/json_storage.py:24-30 | after deleting a stored name it no longer exists, and every other name is unchanged |
| JsonStorage.SavePlacement | json_storage.py:18-19 | a new name is added at the end; overwriting an existing name keeps the order of the names |

## Left out

- OpenCV calls are not modelled. This covers `cvtColor`, `inRange`, `dilate`/`erode`, `findContours`, `approxPolyDP`, `contourArea`, `boundingRect`, `countNonZero` and `isContourConvex`. They are foreign library code; their per-contour results are inputs. Drawing, `imshow` and the returned result frame are left out too, since no decision depends on them.
- Floating point is not modelled. Ratios, scores, clock readings and the 5-second gate use exact reals, so IEEE rounding at the 0.7, 0.8 and 1.2 boundaries is not captured.
- Threads and sleeps are left out. This covers `threading.Thread` and `time.sleep` in the relay sequences and `time.sleep` in `pySerial.py`. Each relay sequence runs to completion as one ordered list of writes.
- Only `GPIO.output` is kept from the relay hardware, as the log of writes. `GPIO.setmode`, `setwarnings`, `setup`, `cleanup`, the LED pin and `run_test_led_sequence` are left out. They drive hardware state that no decision in the core reads.
- The serial port and the senders are logs. `serial.Serial`, the start-up test byte `'t'`, `SignalSender.send_async` and `send_signal` each become an append to a log of sent codes, because their modules are not part of this model.
- `apply_hsv_filter` and `detect_shape` are a function parameter of `ProcessFrame`. `core/object_detector.py` defines no `detect_shape`, and `core/hsv_filter.py` is not part of this model.
- `OpenCV2Arduino/detector.py` gets its colour table, action table, validator and scorer as parameters. Those modules are not part of this model.
- Paths, file opening and JSON encoding are left out. A file is missing, malformed or holds a value. Writes always succeed, except in `save_color_ranges`, which catches write errors. An `open` that fails on an existing file, which propagates in the source, is not modelled.
- SignalMapper.Slot: a missing `label` or `shape` key, or a JSON null, is `None`, and an empty string stays `Some("")`, as `conf.get("label") == ""` needs. The `hsv` key has three states: missing, falsy (`{}` or null) and a range. Other falsy or malformed values, and slots that are not JSON objects, are not modelled.
- SignalMapper.SignalStore.UpdateSlot: a falsy `hsv_range` argument (None or an empty dict) is `None`.
- main_stream.py: the camera, the frame processing, the RTSP pusher and the mediamtx process are left out. They hold no configuration logic.
- main_stream.py: the `reloaded_ranges is None` branch is unreachable, because `load_color_ranges` always returns a dict. The model has no such path.
- main_stream.py: modification times are abstract integers. Each check's file-system probe (exists, `getmtime` result) is an input.
- `StateManager.locked` is not modelled; nothing reads it.
- main.py, pySerial.py and main_stream.py loop until a key press or an error. Their runs are modelled as finite sequences of frames or clock readings.
- FeatureValidator.ValidateShape: requires that a candidate clearing the area floor has h > 0. The source raises `ZeroDivisionError` there instead of answering.
- VisionDetector.DetectTarget: requires, through `NoZeroDivision`, that every contour with 3 or 4 vertices and area at least 1000 has a non-zero box height. Such a contour would make `validate_shape` raise `ZeroDivisionError`, which is not modelled. Unshaped contours need no such height, as in the source.
- Determinism needs no lemma: every detector is a function of its inputs.
- The `__main__` demos of `json_storage.py` and `pi_gpio_controller.py` are left out.
