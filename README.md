# Hand gesture frame loop: landmark regrouping and temporal stabilizer

This project models the decision logic in the frame loop of the hand-gesture
recogniser (`Hand-Tracking/gesture/main.py`). Two parts are modelled, plus the
glue that joins them:

- **Landmark adapter** (`landmarks.dfy`, module `Landmarks`). The tracker reports
  the landmarks of one hand in index order. A loop appends each one to one of
  six lists: index 0 (wrist), 1-4 (thumb), 5-8 (index finger), 9-12 (middle),
  13-16 (ring) and 17-20 (pinky). An index above 20 matches no branch and is
  dropped. The six lists are then unpacked by position into the `all_points`
  table, whose key `pointK` holds landmark K.
- **Temporal stabilizer** (`stabilizer.dfy`, module `Stabilizer`). This is
  `recent_states`, a list of 30 gesture labels that starts as 30 empty strings.
  On every frame with a detected hand it drops its oldest label and appends
  the newest. It reports a gesture only when the set of its labels has exactly
  one element.
- **One frame** (`pipeline.dfy`, module `Pipeline`). This runs the regroup, the
  unpack, an abstract resolver and the window update, in the order the loop
  body runs them.

Points are integer pixel pairs. Gesture labels are strings. The label the
resolver produces for a frame is a parameter of the model.

Three consequences of the code are worth stating:

- A hand with more than 21 landmarks is accepted. The if/elif chain has no
  `else` branch, so landmarks past index 20 are dropped and the first 21 are
  kept.
- A hand with fewer than 21 landmarks makes the positional unpack raise an
  uncaught `IndexError` (empty wrist list) or `ValueError` (a finger list
  without four points). The model returns this as a `Failure` that names the
  group that failed, and the window is left untouched.
- The initial window of 30 empty labels is itself uniform. So a frame whose
  resolved label is the empty string is confirmed at once, as
  `Stabilizer.FirstConfirmationAtCapacity` states. The resolver is not part of
  this model, so whether it can ever return the empty string is left open.

## Model

| member | source | states |
|---|---|---|
| `Landmarks.GroupOf` | Hand-Tracking/gesture/main.py:36-47 | The if/elif chain accepts an index exactly when it is at most 20. An accepted index goes to a group g with First(g) <= i < Limit(g). |
| `Landmarks.GroupOfIff` | Hand-Tracking/gesture/main.py:36-47 | Index i goes to group g exactly when i lies in g's range: {0}, 1-4, 5-8, 9-12, 13-16 or 17-20 (both directions). |
| `Landmarks.Regroup` | Hand-Tracking/gesture/main.py:30-47 | The loop's six lists equal the specification `Regrouped`, where each group is filtered from the input in order. Group g is the contiguous slice of landmarks First(g) .. Limit(g) - 1 that are present. |
| `Landmarks.MembersSlice` | Hand-Tracking/gesture/main.py:33-47 | The points that group g receives are exactly the input slice between its first and limit index, cut at the input length. Order is kept and nothing is added. |
| `Landmarks.RegroupedSlices` | Hand-Tracking/gesture/main.py:30-47 | There are always six groups, and each is the slice MembersSlice gives. |
| `Landmarks.GroupSizes` | Hand-Tracking/gesture/main.py:30-47 | Each group holds as many points as its index range has indices present in the input. |
| `Landmarks.RegroupedConcat` | Hand-Tracking/gesture/main.py:33-47 | Concatenating the six groups in order gives back the first min(n, 21) landmarks. So a 21-landmark hand is reproduced exactly and indices above 20 are dropped. |
| `Landmarks.FullHandShape` | Hand-Tracking/gesture/main.py:30-55 | A hand of at least 21 landmarks gives groups of sizes 1, 4, 4, 4, 4, 4, so the positional unpack matches. Group g is landmarks First(g) .. Limit(g) - 1. |
| `Landmarks.FirstMisfit` | Hand-Tracking/gesture/main.py:51-55 | It finds the first finger group, from g on, whose size is not 4, and all groups before it have size 4. It finds none exactly when every remaining group has size 4. |
| `Landmarks.FirstMisfitIs` | Hand-Tracking/gesture/main.py:51-55 | If groups 1 .. g-1 have four points and group g does not, the unpack stops at group g. |
| `Landmarks.AllPoints` | Hand-Tracking/gesture/main.py:50-65 | An empty wrist group fails with MissingWrist. Otherwise the first finger group without exactly 4 points fails with WrongArity and its size. On success the table has 21 entries, and entry First(g)+j is point j of group g. |
| `Landmarks.FullHandPoints` | Hand-Tracking/gesture/main.py:50-65 | For a hand of 21 or more landmarks, the unpack succeeds and the table is exactly the first 21 landmarks, so pointK is the K-th input landmark for every K. |
| `Landmarks.ShortHandFails` | Hand-Tracking/gesture/main.py:50-55 | With no landmarks, the unpack fails at the wrist. With 1 to 20 landmarks, it fails with WrongArity for the group of the first missing index, whose size is the count of its indices that are present. |
| `Stabilizer.Shift` | Hand-Tracking/gesture/main.py:74-75 | The window's length is unchanged, its last entry is the new label, and every other entry moves one place towards the front. |
| `Stabilizer.AllSameIff` | Hand-Tracking/gesture/main.py:78 | "The set of labels has one element" holds exactly when the window is non-empty and every entry equals the first. |
| `Stabilizer.Confirmation` | Hand-Tracking/gesture/main.py:78-79 | A gesture is reported exactly when all entries are equal, and the reported label is that common entry. |
| `Stabilizer.Feed` | Hand-Tracking/gesture/main.py:74-75 | A run of updates keeps the window's length. |
| `Stabilizer.FeedKeepsLatest` | Hand-Tracking/gesture/main.py:74-75 | After any run of updates, the window is the last |w| entries of the starting window followed by the labels fed. |
| `Stabilizer.ConfirmedIffHistoryAgrees` | Hand-Tracking/gesture/main.py:74-78 | After a run of updates, label l is confirmed exactly when the latest |w| entries of that history all equal l (both directions). |
| `Stabilizer.ConfirmedIffLastThirtyAgree` | Hand-Tracking/gesture/main.py:74-78 | Once 30 or more labels have been fed, l is confirmed exactly when the last 30 labels are all l. |
| `Stabilizer.DifferingLabelBlocks` | Hand-Tracking/gesture/main.py:74-78 | Two different labels among the last 30 updates mean no gesture is confirmed, whatever the window held before. |
| `Stabilizer.FirstConfirmationAtCapacity` | Hand-Tracking/gesture/main.py:12-78 | Start from the 30 sentinels and feed a non-sentinel label l k times. Nothing is confirmed for 1 <= k < 30. l is confirmed from the 30th update on. Feeding the sentinel confirms the sentinel at once. |
| `Stabilizer.ReportsAt` | Hand-Tracking/gesture/main.py:25-79 | Frame i's report depends only on the frames up to i: nothing without a hand, otherwise the confirmation of the window fed with the labels detected so far. |
| `Stabilizer.Window.constructor` | Hand-Tracking/gesture/main.py:12 | The window starts as 30 copies of the empty label. |
| `Stabilizer.Window.Update` | Hand-Tracking/gesture/main.py:74-75 | After `pop(0)` and `append`, the window is the old window shifted by the new label, and its length stays 30. |
| `Stabilizer.Window.Step` | Hand-Tracking/gesture/main.py:25-80 | A frame with no hand leaves the window unchanged and reports nothing. A frame with a hand shifts in its label and reports the window's confirmation. A reported label is always this frame's label. |
| `Stabilizer.RunSession` | Hand-Tracking/gesture/main.py:18-80 | Over a whole session, frame i reports nothing without a hand. Otherwise it reports the confirmation of the window fed with every detected label up to frame i, so no-hand frames change nothing. |
| `Pipeline.ProcessFrame` | Hand-Tracking/gesture/main.py:25-78 | Without a hand, the frame is a no-op. An unpack error stops the frame with the window unchanged, and that happens exactly when there are fewer than 21 landmarks. Otherwise the resolver sees the first 21 landmarks in index order, and its label shifts the window and is confirmed or not. |

## Left out

- Camera capture, mirroring, colour conversion, on-screen drawing, the window display and the `q` key that ends the loop are I/O. None of them is modelled.
- The MediaPipe hand detector is third-party code. The model takes its output as given: an optional list of landmarks per frame.
- The conversion of normalised coordinates to pixels, `int(landmark.x * w)`, is floating-point arithmetic. The model takes integer pixel points as input.
- The frame-rate computation uses floating-point wall-clock time and only feeds the display.
- The finger classifier `detect_all_finger_state` and the gesture resolver `detect_hand_state` are imported from `gesture_judgment`, which is not part of this model. Together they are the parameter `resolve` of `Pipeline.ProcessFrame`. In `Stabilizer.RunSession` they are the already-resolved label of each frame.
- The `print` and `putText` calls on confirmation are output. Only the reported label is modelled.
- Landmarks.AllPoints: the `all_points` dictionary has the string keys `'point0'` .. `'point20'`. The model stores it as a 21-entry sequence whose entry K is the value under `'pointK'`.
- Landmarks.AllPoints: Python distinguishes an `IndexError` (empty wrist list) from a `ValueError` (a finger list of the wrong length). The model keeps the same distinction as `MissingWrist` and `WrongArity`. In the source either exception ends the whole program. The model stops only the frame and does not model termination of the session.
- Stabilizer.RunSession: frames are given as already-resolved labels, so a session that would crash on a short hand is not modelled there. `Pipeline.ProcessFrame` covers that case frame by frame.
