# Hole in the Camera — a Dafny model of the game core

Hole in the Camera is a webcam game: a mask (a silhouette with a pose
cut out) is shown, the player fits their body into it before a countdown
runs out, and a pose estimator reports where the player's joints are. The
game compares those joints with the joint positions stored for that mask and
scores the fit from 0 to 100. A trial scoring 70 or more wins.

This project models that core and proves properties of the model:

- `CameraModel`: the game model class `HoleInTheCameraGame`. It holds the
  catalog of masks still to play, the live joint map parsed from the latest
  estimate, and the trial and total scores. It draws masks, parses the
  estimate, scores a trial and decides a win.
- `CameraController`: the controller class `OpenCVController`. It covers the
  round countdown (`10 - elapsed // 500`, time up after 5000 ms) and turns
  the event list into the next screen ("quit", "continue" or "stay").
- `ReferenceCsv`: the script that writes each mask's reference CSV from the
  first person of an estimate.
- `WallModel`: `HoleInTheWallGame`, the older model the camera game grew
  out of, with tighter tiers (20/30/40 px) and a parser that always raises
  on a found joint.
- Shared pieces:
  - `Joints`: slot extraction, the specification both parsers and the script
    are proved against.
  - `Scoring`: the tiered credit and the row-by-row tally, the specification
    of both scorers.
  - `Decimal`: how `str()` writes integers, and how the scorer reads that
    text back (key cells by exact text, coordinates by `int(float(text))`).
- `CameraScenarios`: two whole-session behaviours the test suite checks.

Modelling choices:

- Ints and strings:
  - Joint coordinates are integers.
  - A joint key is held as its slot number. Its text `str(n)` is matched
    exactly (`Decimal.ParseKeyExact`).
  - A CSV file is its rows of cells (`seq<seq<string>>`).
- Scoring arithmetic:
  - Credit is counted in quarters (4, 2, 1, 0), so scores are exact `real`s.
  - Distances are compared squared. `Scoring.SquaredComparison` shows this
    decides the same tier as the Euclidean distance.
- Python exceptions become error results:
  - `IndexError` on a short row becomes `FieldMissing`.
  - `ValueError` from `float()` becomes `NotANumber`.
  - `ZeroDivisionError` becomes `NoComparableJoints`.
  - `IndexError` on a candidate index is returned as the failing slot.
  - `AttributeError` in the wall parser becomes `CandidateAttributeMissing`.
  - State written before the exception is kept. Assignments after it are not
    made.
- Two quirks of the scorer are modelled as written:
  - The test `self._joint_positions[joint[0]][1] != '-1'` compares a number
    with a string, so it always holds. A live joint at (-1, -1) is scored like
    any other. The comment at `hole_in_the_camera_model.py:215-216` says
    comparisons are made only with joints that are present, but joints
    stored as (-1, -1) are not skipped.
  - Nothing guards the division by the count of compared rows. When no row
    is compared (no person parsed, say) the scorer raises, and the model
    returns `NoComparableJoints` with both scores unchanged. The white-image
    cases in `test_hole_in_the_camera_model.py:413-439` expect a score of 0,
    which the code as written does not produce.
- The random draw in `get_mask_and_joints` is a parameter `pick` that
  stands for `random.randint`'s result. `pygame.time.get_ticks()` and
  `pygame.event.get()` are parameters as well.

## Model

| member | source | states |
|---|---|---|
| CameraModel.MaskEntriesDistinct | hole_in_the_camera_model.py:48-49 | the seven mask names give seven different catalog entries |
| CameraModel.RemovalKeepsDistinct | hole_in_the_camera_model.py:151-154 | popping entry i of a repeat-free catalog leaves a repeat-free catalog without that entry, and the popped entry plus the rest is the old catalog as a multiset |
| CameraModel.ChosenIndex | hole_in_the_camera_model.py:145-150 | with one mask left the index is 0, otherwise it is the random pick. It is in range whenever the catalog is non-empty and the pick lies in randint's range |
| CameraModel.HoleInTheCameraGame.constructor | hole_in_the_camera_model.py:51-75 | a new game holds the seven masks in list order with their `mask_joint_positions/<mask>.csv` paths, an empty joint map and zero scores |
| CameraModel.HoleInTheCameraGame.NumHolesRemaining | hole_in_the_camera_model.py:123-132 | the number of masks left is at most seven, and zero exactly when the catalog is empty |
| CameraModel.HoleInTheCameraGame.GetMaskAndJoints | hole_in_the_camera_model.py:134-155 | with one mask left that mask is drawn, otherwise the mask at the random index. It is returned and removed, so it is no longer in the catalog and nothing else is lost. An empty catalog is the randint error and nothing changes |
| CameraModel.HoleInTheCameraGame.ParseForJointPositions | hole_in_the_camera_model.py:171-192 | with no person the map is unchanged. Otherwise slots 0 .. 17 of the first person are written over the old map, each as its candidate's position or (-1, -1). A candidate index past the end stops at that slot, with the earlier slots written, and that slot is reported |
| CameraModel.HoleInTheCameraGame.ComputeAccuracy | hole_in_the_camera_model.py:194-240 | the loop is `Scoring.ScoreRows` over the live map with the 30/40/50 px tiers. On success the trial score becomes 100 × credit / counted rows and is added to the total. On a short row, an unreadable coordinate or a zero count the error is returned and both scores stay |
| CameraModel.HoleInTheCameraGame.CheckWin | hole_in_the_camera_model.py:242-253 | a win exactly when the trial score is 70 or more |
| Joints.SlotsRead | hole_in_the_camera_model.py:181-192 | the parser visits min(record length, 18) slots |
| Joints.FirstBadSlot | hole_in_the_camera_model.py:183-185 | the slot where reading `candidates[value]` raises: every earlier visited slot resolves, and that slot's index is past the end |
| Joints.SlotPoint | hole_in_the_camera_model.py:183-187 | a slot's value is always a candidate's position or (-1, -1), and a slot holding an index gives that candidate's position |
| Joints.ExtractedKeys | hole_in_the_camera_model.py:184-187 | the slots written are exactly the keys of the resulting map |
| Joints.ExtractedFullRecord | hole_in_the_camera_model.py:188-192 | a full record gives keys 0 .. 17, each the candidate's position or (-1, -1), and the values after slot 17 play no part |
| Decimal.NatToString | hole_in_the_camera_model.py:184 | the key text `f'{index}'` of a slot is a non-empty string of decimal digits |
| Decimal.IntToString | hole_in_the_camera_controller.py:156 | the timer text `f"{...}"` of an int is non-empty, starts with '-' exactly when the int is negative, and is all digits otherwise |
| Decimal.ParseKey | hole_in_the_camera_model.py:217 | a key cell names a joint exactly when it is canonical decimal text |
| Decimal.KeyTextRoundTrip | hole_in_the_camera_model.py:184 | the key text `f'{index}'` written for slot n names slot n again when read back |
| Decimal.ParseKeyExact | hole_in_the_camera_model.py:217 | a key cell names joint n if and only if it equals `str(n)` |
| Decimal.KeyTextNames | hole_in_the_camera_model.py:217 | for every n at once: the cell names n exactly when it is `str(n)` |
| Decimal.ParseTruncated | hole_in_the_camera_model.py:221 | a coordinate cell that reads has a sign, digits before any '.', and a value whose magnitude is those digits' value. The value is negative only after a '-' and never positive after one, so "-12.7" reads as -12: `int()` truncates toward zero. Rounding to a double is not modelled (see Left out) |
| Decimal.CoordinateRoundTrip | hole_in_the_camera_model.py:221 | reading `str(i)` and `str(i) + ".0"` back as an exact decimal and truncating gives i, for negative i too. This is `int(float(...))` only while i fits a double exactly (see Left out) |
| Scoring.CountedByKeyText | hole_in_the_camera_model.py:217-218 | a row is compared exactly when its key cell is `str(n)` for a joint n of the live map. The `!= '-1'` test adds no condition |
| Scoring.RowStepOutcome | hole_in_the_camera_model.py:214-236 | one row fails exactly when it has no cells, or is compared but lacks a readable x and y. A bad x is reported before a missing y cell. Otherwise an uncompared row changes nothing, and a compared row adds one to the count and at most full credit |
| Scoring.Credit | hole_in_the_camera_model.py:231-236 | full credit exactly below the first tier radius, and never more than full credit |
| Scoring.SquaredComparison | hole_in_the_camera_model.py:225-226 | comparing the squared distance with b² decides the same as comparing the Euclidean distance with b |
| Scoring.CreditNonIncreasing | hole_in_the_camera_model.py:231-236 | a farther joint never earns more credit |
| Scoring.CreditTiers | hole_in_the_camera_model.py:231-236 | half, quarter and no credit each hold exactly on their band of squared distance |
| Scoring.CameraCreditByDistance | hole_in_the_camera_model.py:225-236 | by Euclidean distance: full credit below 30 px, half below 40, a quarter below 50, none from 50 on |
| Scoring.WallCreditByDistance | hole_in_the_wall_model.py:58-65 | by Euclidean distance: full credit below 20 px, half below 30, a quarter below 40, none from 40 on |
| Scoring.TallyRows | hole_in_the_camera_model.py:214-236 | the credit never exceeds full credit for every counted row, there are at most as many counted rows as rows, and a row error is never the zero-count error |
| Scoring.Evaluate | hole_in_the_camera_model.py:239 | a successful tally has at least one counted row |
| Scoring.Percent | hole_in_the_camera_model.py:239-240 | the score lies in [0, 100] and is 100 exactly when every counted row earned full credit |
| Scoring.Fraction | hole_in_the_wall_model.py:66 | the fraction lies in [0, 1] and is 1 exactly when every counted row earned full credit |
| Scoring.CameraAccuracy | hole_in_the_camera_model.py:194-240 | a camera trial score lies in [0, 100] |
| Scoring.WallAccuracy | hole_in_the_wall_model.py:43-66 | a wall score lies in [0, 1] |
| Scoring.ScoreRows | hole_in_the_camera_model.py:214-236 | the loop shared by both scorers: its 1 / 0.5 / 0.25 accuracy sum and joint count are the tally divided by four, or it returns the first row's error |
| Scoring.TallyFailurePersists | hole_in_the_camera_model.py:214-221 | once a row raises, later rows do not change the outcome |
| Scoring.ExactRowsFullCredit | hole_in_the_camera_model.py:214-236 | rows that each give a live joint's exact position earn full credit each, all of them counted |
| Scoring.ExactOrSkippedFullCredit | hole_in_the_camera_model.py:214-236 | when every row is either passed over (its key names no live joint) or gives its live joint's exact position, every counted row earns full credit |
| Scoring.ExactRowCounted | hole_in_the_camera_model.py:217-218 | a tally over rows that include an exact row counts at least one row |
| Scoring.ExactRowsScoreFull | hole_in_the_camera_model.py:194-240 | when every compared row matches its live joint exactly and at least one row is compared, the score is 100 in the camera game and 1.0 in the wall game, whatever rows name no live joint |
| Scoring.NoLiveJointsCountsNothing | hole_in_the_camera_model.py:217-240 | with an empty live map no row is counted, and the score ends in the zero-count error |
| Scoring.MissingLiveJointStillCounts | hole_in_the_camera_model.py:217-218 | a live joint at (-1, -1) is still compared: a row ("0", "100", "100") against it scores 0.0, not an error |
| CameraController.Countdown | hole_in_the_camera_controller.py:156 | the countdown c shown after elapsed ms satisfies 500(10 - c) <= elapsed < 500(11 - c), floor division included |
| CameraController.CountdownNonIncreasing | hole_in_the_camera_controller.py:153-156 | the countdown never goes up as time passes |
| CameraController.EndShowsZeroOrLess | hole_in_the_camera_controller.py:159-170 | once time is up the countdown shows zero or less |
| CameraController.CountdownTexts | hole_in_the_camera_controller.py:156 | the timer texts after 0, 2000, 5000 and 7000 ms are "10", "6", "0" and "-4" |
| CameraController.Reaction | hole_in_the_camera_controller.py:118-122 | an event asks for quit exactly when it is escape or the close button, and for continue exactly when it is another key |
| CameraController.FirstReaction | hole_in_the_camera_controller.py:117-123 | any answer other than "stay" is what some event in the list asks for |
| CameraController.FirstReactionDecides | hole_in_the_camera_controller.py:116-123 | the answer is "stay" exactly when no event asks for a screen. Otherwise it is what the first such event asks for |
| CameraController.EscapeBeforeLetterQuits | hole_in_the_camera_controller.py:117-120 | escape ahead of a letter quits |
| CameraController.OtherEventsSkipped | hole_in_the_camera_controller.py:117-123 | an event that is neither a key nor the close button does not change the answer |
| CameraController.OpenCVController.constructor | hole_in_the_camera_controller.py:18-23 | both times start at zero |
| CameraController.OpenCVController.StartTimer | hole_in_the_camera_controller.py:125-129 | the start time becomes the current tick count |
| CameraController.OpenCVController.GetTimerString | hole_in_the_camera_controller.py:146-157 | the elapsed time is recorded, and the text returned reads back as the countdown for it |
| CameraController.OpenCVController.DetermineEndTimer | hole_in_the_camera_controller.py:159-170 | time is up exactly when more than 5000 ms had elapsed at the last reading, and then the countdown shows zero or less |
| CameraController.OpenCVController.NextScreen | hole_in_the_camera_controller.py:103-123 | the scan returns what the first deciding event asks for, and "stay" exactly when no event decides |
| ReferenceCsv.ExtractedEntries | create_csv.py:18-26 | one entry per visited slot, in slot order, keyed by slot number |
| ReferenceCsv.ExtractedEntriesMap | create_csv.py:18-26 | the script's dict holds exactly the joint map the game's parser builds from the same record |
| ReferenceCsv.ExtractJointPositions | create_csv.py:18-26 | with no person the script raises. Otherwise it raises at the first slot past the candidates, or returns the entries for all visited slots |
| ReferenceCsv.RowOf | create_csv.py:31 | each written row has three cells |
| ReferenceCsv.RowRoundTrip | create_csv.py:28-31 | a written row, read back as the scorer reads it, gives the entry it was written from |
| ReferenceCsv.FloatRowRoundTrip | create_csv.py:28-31 | the same for coordinates written as whole floats ("12.0") |
| ReferenceCsv.WriteCsv | create_csv.py:28-31 | for a dict (entries with distinct keys) the mask's file holds one row per entry, in dict order, and every other file is untouched |
| ReferenceCsv.AsMap | create_csv.py:21-24 | the dict's keys are exactly the keys inserted, and the last insertion holds its key's value |
| ReferenceCsv.KeyedInOrderDistinct | create_csv.py:18-26 | the entries the script inserts in slot order never repeat a key, as a dict's items do not |
| ReferenceCsv.AsMapKeyedInOrder | create_csv.py:30 | a dict of in-order entries maps key j to entry j and has no other key |
| ReferenceCsv.WrittenRowsExact | create_csv.py:28-31 | rows written from the dict match that dict exactly, row by row |
| ReferenceCsv.ExtractedEntriesKeyed | create_csv.py:18-26 | the script inserts keys 0, 1, 2 … in order |
| ReferenceCsv.SameEstimateScoresFull | test_hole_in_the_camera_model.py:441-468 | the reference written from an estimate, scored against the map parsed from that same estimate, scores 100 (and 1.0 in the wall scorer) |
| WallModel.FirstFoundSlot | hole_in_the_wall_model.py:35-37 | the first visited slot holding a candidate index, where the attribute lookup raises |
| WallModel.AllMissing | hole_in_the_wall_model.py:38-39 | the slots marked not found are among 0 .. k-1, all at (-1, -1) |
| WallModel.AllMissingKeys | hole_in_the_wall_model.py:38-39 | k slots marked not found give keys 0 .. k-1, all at (-1, -1) |
| WallModel.AllMissingIsExtracted | hole_in_the_wall_model.py:34-41 | on a record the wall parser accepts, it writes the same map as the camera game's parser |
| WallModel.HoleInTheWallGame.constructor | hole_in_the_wall_model.py:14-17 | the joint map starts empty |
| WallModel.HoleInTheWallGame.ParseForJointPositions | hole_in_the_wall_model.py:34-41 | with no person it raises and nothing changes. Otherwise the slots before the first found joint are written as (-1, -1) and that slot raises. It succeeds exactly when every visited slot is negative |
| WallModel.HoleInTheWallGame.ComputeAccuracy | hole_in_the_wall_model.py:43-66 | the loop is `Scoring.ScoreRows` with the 20/30/40 px tiers. Returns the wall score (credit / counted rows with the 20/30/40 px tiers) or the same errors as the camera scorer |
| CameraScenarios.DrawAll | test_hole_in_the_camera_model.py:74-81 | drawing as many times as there are masks empties the catalog and draws each mask exactly once |
| CameraScenarios.ThreeSameEstimateTrials | test_hole_in_the_camera_model.py:471-502 | three trials against the reference written from the same estimate give trial score 100, total 300, and a win |

## Left out

- The pose estimator (`Body`, `analyze_frame`) is left out. Its output (candidate positions and subset records) is an input to the parsers.
- Image loading, resizing and colour conversion (`cv.imread`, `cv.resize`, `cv.cvtColor`) are left out. A catalog entry holds the mask's name in place of its image.
- Reading the CSV file is modelled by the rows it holds. Writing models the file system as a map from path to rows. A missing file (`FileNotFoundError`) is not modelled.
- The camera, `get_display_frame` and `release_camera` (OpenCV capture) are left out, and so is the abstract base class `HoleInTheCameraController`. Its two times are fields of `OpenCVController` here.
- The views, the runners, `game_workflow.py` and the mask-making scripts are left out. They are drawing and I/O.
- The outer loop of `create_csv.py` over the seven masks (lines 13-16) is left out. It reads images and runs the estimator; one iteration's body is modelled.
- Read-only properties (`joint_positions`, `total_score`, …) are left out. They are the fields themselves.
- Decimal.ParseTruncated: accepts only the float text `str()` writes for numbers: sign, digits, and an optional fraction. Exponents, `inf`, `nan`, surrounding whitespace and underscores, which `float()` also takes, are read as `NotANumber`. Also, the text is read exactly: `float()`'s rounding to the nearest double is not modelled. Text with more than 15-17 significant digits, or a whole part beyond 2^53, can differ. For example, "29.99999999999999999" reads as 29 here, where Python gives 30.
- Decimal.CoordinateRoundTrip: proved for the exact reading of `Decimal.ParseTruncated`. With `float()`'s rounding to a double, `int(float(str(i)))` gives i only while |i| <= 2^53. Larger coordinates are not modelled.
- Scoring.CameraAccuracy: scores are exact reals. The source's floating-point rounding of `accuracy / joint_counts * 100` is not modelled.
- Scoring.WallAccuracy: scores are exact reals. The floating-point rounding of `accuracy/joint_counts` (`hole_in_the_wall_model.py:66`) is not modelled.
- Scoring.Fraction: the same exact division as `Scoring.WallAccuracy`, with no floating-point rounding.
- CameraModel.HoleInTheCameraGame.ParseForJointPositions: candidate coordinates are integers. The estimator reports floats, which the scorer compares unrounded. Subset values are integers; `int(value)` of a float slot is not modelled.
- CameraModel.HoleInTheCameraGame.GetMaskAndJoints: the draw is the parameter `pick`. Its range `0 <= pick < size` is what `random.randint` guarantees, stated as a precondition.
