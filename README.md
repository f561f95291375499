# wechat-jump: target selection and press time, verified

This project models the decision core of the wechat-jump bot. The bot plays
the "jump" mini-game by doing four things:

1. It takes a screenshot.
2. A YOLO detector finds the player (class "humen") and the platforms
   (class "cube").
3. It picks one platform as the target.
4. It presses the screen for a time proportional to the distance.

The repository contains three versions of the target selector, and they do
not agree. Each is modelled as written:

- `Jump` (`main.py`) is the production selector and the `jump` step.
  - The player is the class-1 box of highest confidence.
  - Platforms whose `y + h/2` is not above the player's `y + h` are dropped.
  - Platforms within 50 pixels of the player's anchor `(x, y + h/2)` are dropped.
  - The widest remaining platform wins.
  - The result is `round(distance, 3)`, or 0 when there is no target.
  - The press lasts `int(distance * k)` milliseconds. It lands at a random
    point of the band from 30 to 70 per cent of the width and 60 to 80 per
    cent of the height.
- `DebugJump` (`debug_jump.py`) is an older selector.
  - It takes the last "humen" detection as the player.
  - It takes the platform of strictly greatest confidence and does not
    filter platforms behind the player.
  - Its `debug_jump` skips the press when the distance is 0.
  - Its `run_debug_mode` loop counts jumps up to a maximum and reads a pause
    key and a quit key.
- `AnalyzeScreenshot` (`analyze_screenshot.py`) is an offline analyser.
  - It counts the players and the platforms.
  - The target is the lowest platform on screen among those more than 20
    pixels above the player.
  - It prints the press time for five coefficients.

The support code is modelled too:

- `DatasetSplit` (`dataset_split.py`) builds the YOLO dataset:
  - stem matching between screenshots and labels;
  - the shuffle;
  - the three contiguous train/val/test slices;
  - the guarded copy loop.
- `DeviceController` (`device_controller.py`) covers two controllers.
  - ADB controller: the parser for the `wm size` output with its fallbacks,
    and the press command.
  - Windows controller: a class whose window handle is found lazily. Taps
    are converted from window coordinates to screen coordinates.

Shared modules:

- `Detections`: corner boxes, their centres, the last player.
- `Actuation`: the tap band.
- `Seqs`: filtering and the first maximum, `np.argmax` and `max`.
- `Numeric`: Python's `int()` truncation toward zero.
- `Numeric` also computes exact square roots without floating point.
  - Distances are kept squared and compared with 2500.
  - `int(sqrt(q) * k)` and `round(sqrt(q), 3)` are computed through an
    integer square root.
  - Lemmas show both agree with the real root `d` for every `d >= 0` with
    `d * d == q`.
- `PyStr`: `strip`, `find`, `split`, `join`, `int()` and `str()` on strings.
- `Wrappers`: `Option` and `Result`.

Behaviour of the code that a reader may not expect, which the model keeps:

- **Behind filter.** The comment at `main.py:54` calls `y + h` the player's
  bottom. In YOLO `xywh` boxes `y` is the centre, so the bottom edge is
  `y + h/2`, and that is the anchor the distance uses (`main.py:90`). The
  filter at `main.py:75` therefore compares against a line half a box below
  the feet. `Jump.PlatformBelowFeetCanBeTarget` shows a platform below the
  feet becoming the target.
- **Nearest or widest.** The comment at `main.py:84` says the nearest platform
  ahead is chosen. The code at `main.py:101-104` chooses the widest one
  beyond 50 pixels. The model follows the code.
- **Tie-break.** `np.argmax` on the widths keeps the first of equally wide
  platforms, so the selection depends on the order of the detections: see
  `Jump.OrderMatters`.
- **Press time.** `int(distance * k)` truncates (`main.py:141`): in
  `Jump.WidestWinsExample`, 377.78 ms becomes 377.
- **Zero distance.** `Jump.jump` presses even when `predict` returned 0, for
  0 ms (`main.py:149`, `Jump.JumpOnce`). `debug_jump` skips when the distance
  is 0 (`debug_jump.py:257`). A positive distance with a small `k` still
  presses there for 0 ms.

## Model

| member | source | states |
|---|---|---|
| Jump.Predict | main.py:25-112 | the loop that collects the platforms ahead, plus the filters and the argmax, returns exactly `Value(Select(bs))` |
| Jump.SelectReasons | main.py:33-49 | the result is "no boxes" iff the list is empty, and "no player" iff boxes exist but none has class 1 |
| Jump.NoPlatformIff | main.py:56-63 | once a player exists, the result is "no platform" iff no box has class 0 |
| Jump.OtherClassesIgnored | main.py:42-58 | inserting a box of another class at any position leaves the selection (once some other box exists) and the value returned unchanged |
| Jump.PlayerChoice | main.py:52-53 | the player is a class-1 box of maximal confidence, and every earlier class-1 box has lower confidence |
| Jump.AllBehindIff | main.py:65-82 | "all behind" is given iff some platform exists and every platform fails `y + h/2 < player.y + player.h` |
| Jump.CandidatesAre | main.py:69-102 | the behind filter, then the distance filter, keeps exactly the platforms that pass both, in input order |
| Jump.TargetIff | main.py:88-106 | with a player present, a target is chosen iff some box is a class-0 platform that passes the behind filter and lies more than 50 px from the anchor |
| Jump.NoneFarEnoughIff | main.py:93-99 | with a player present, "none far enough" is given iff some platform passes the behind filter and every such platform lies within 50 px of the anchor |
| Jump.TargetChoice | main.py:88-112 | a target is the earliest widest candidate, lies more than 50 px from the anchor, and is reported as `round(distance, 3)`, at least 50 |
| Jump.WidestCandidate | main.py:101-106 | the widest filtered platform is the first maximum of width among all candidates |
| Jump.ValueOfTarget | main.py:112 | a target more than 50 px away is reported as its distance rounded to thousandths, at least 50 |
| Jump.ValueZeroOrAtLeast50 | main.py:112 | the value is 0 iff there is no target; otherwise it is at least 50 |
| Jump.PickOfTwo | main.py:101-106 | of two candidates the wider wins, and the first wins on equal widths |
| Jump.WiderWinsInEitherOrder | main.py:101-106 | a strictly wider candidate wins in either input order |
| Jump.OrderMatters | main.py:101-106 | two distinct, equally wide candidates give different targets in the two orders |
| Jump.PlatformBelowFeetCanBeTarget | main.py:54-75 | a platform whose centre lies below the player's bottom edge still passes the behind filter and becomes the target |
| Jump.WidestWinsExample | main.py:88-141 | for the worked scenario the 80-px platform wins at 320.156, and with k = 1.18 the press lasts 377 ms |
| Jump.RootOfScenario | main.py:112 | `round(sqrt(102500), 3)` is 320.156 |
| Jump.JumpOnce | main.py:134-151 | a press happens iff the band is non-empty; it lasts `int(value * k)` ms, even when that is 0, and lands inside the band; the sleep after it raises `ValueError` iff that press time is below -1000 ms |
| Jump.SleepRaisesIff | main.py:151 | `press_time / 1000 + 1` is negative iff `press_time < -1000` |
| Jump.NonNegativeCoefficientSleeps | main.py:141-151 | with `k >= 0` the press time is never negative, so the sleep after the press never raises |
| Actuation.ChooseTapPoint | main.py:144-148 | the point exists iff both `randint` ranges are non-empty, and it lies in `[int(.3w), int(.7w)] x [int(.6h), int(.8h)]` |
| Actuation.BandInsideScreen | main.py:144-148 | for a non-negative screen size the band is non-empty and inside the screen |
| Actuation.NegativeWidthEmptiesBand | main.py:144-148 | a width of -2 or less makes `randint` raise |
| Numeric.Trunc | main.py:141 | `int(x)` truncates toward zero: `r <= x < r + 1` for `x >= 0`, and `r - 1 < x <= r` for `x < 0` |
| Numeric.RoundRootMeaning | main.py:112 | the rounded root lies within 1/2 of every real root, and an exact half goes to the even neighbour |
| Numeric.RoundMilliMeaning | main.py:112 | `RoundMilli(q)` is a whole number of thousandths within 0.0005 of the root `d` of `q` |
| Numeric.TruncRootTimesMeaning | debug_jump.py:262 | `TruncRootTimes(q, k)` equals `int(d * k)` for the real root `d` of `q`, for either sign of `k` |
| Numeric.TruncRootTimesMonotone | analyze_screenshot.py:165-166 | the press time does not decrease as the coefficient grows |
| Seqs.Filter | main.py:42-45 | the kept elements are drawn from the input, satisfy the mask, and include every input element that satisfies it |
| Seqs.FilterAppend | main.py:69-78 | filtering distributes over concatenation, so survivors keep their relative order |
| Seqs.FilterEmptyIff | main.py:47-49 | nothing survives iff no element satisfies the mask |
| Seqs.ArgMax | main.py:52-53 | the index holds a maximal key, and every earlier key is strictly smaller (the first maximum) |
| Seqs.FilterArgMax | main.py:52-53 | the argmax over a masked sequence is the first maximum among the masked elements of the whole sequence |
| DebugJump.PredictWithDebug | debug_jump.py:30-153 | an unreadable image gives `(0, {})`; otherwise the loop's debug info equals `Inspect(ds)` and the distance is its distance |
| DebugJump.RecordsFollowDetections | debug_jump.py:77-87 | one record per detection, in order, with its class, confidence, truncated corners and centre; the centre lies in the box up to truncation |
| DebugJump.NoPlatformChosenIff | debug_jump.py:115-122 | no platform is chosen iff every "cube" detection has confidence at most 0 |
| DebugJump.ChosenConfPositive | debug_jump.py:115-122 | a chosen platform has confidence above 0 |
| DebugJump.ChosenIsStrictlyBest | debug_jump.py:115-122 | the chosen platform is a "cube" detection: none has higher confidence and every earlier one has strictly lower |
| DebugJump.DistanceNeedsBoth | debug_jump.py:124-131 | the distance is non-zero only with both a player and a platform; it is then the squared distance of the two centres, zero iff they coincide |
| DebugJump.JumpWithDebug | debug_jump.py:214-284 | skips or raises exactly as `JumpEffect` says (an unreadable image leaves the debug dict empty and the first lookup raises `KeyError`); otherwise presses once for the computed duration at a point in the band |
| DebugJump.SkipIff | debug_jump.py:230-259 | a debug jump is skipped iff the screenshot fails, or the image is readable but lacks a player or a chosen platform, or their centres coincide |
| DebugJump.PressMeaning | debug_jump.py:262 | the press lasts `int(d * k)` ms for the true distance `d` between the two centres |
| DebugJump.LowByte | debug_jump.py:312 | `key & 0xFF` lies in 0..255 and leaves byte-sized keys unchanged |
| DebugJump.RunDebugMode | debug_jump.py:286-344 | the while loop ends in the state `Run` describes, with one tap per recorded press duration, each inside the band of the screen measured on the pass that issued it, at most one tap per pass |
| DebugJump.CountBounded | debug_jump.py:305-337 | the counter only grows, never passes `max_jumps`, grows at most once per pass, and is below the maximum after a quit |
| DebugJump.QuitFirst | debug_jump.py:311-315 | 'q' on the first pass ends the loop with the counter and the pause flag unchanged |
| DebugJump.PausedMakesNoJumps | debug_jump.py:324-330 | while paused and without a 'p', no jump is counted and nothing is pressed |
| DebugJump.NoDebugCountsEveryPass | debug_jump.py:309-337 | without the debug window, and with no jump raising, every pass counts one jump until the maximum |
| Detections.Center | debug_jump.py:77-78 | the truncated midpoint lies within the box, up to one pixel of truncation |
| Detections.SqDist | debug_jump.py:127-130 | the squared distance is zero iff the points coincide |
| Detections.NoPlayerIff | debug_jump.py:111-114 | there is no player iff no detection is named "humen" |
| Detections.LastPlayerIsLast | debug_jump.py:111-114 | the player is the centre of a "humen" detection that no later "humen" detection follows |
| AnalyzeScreenshot.AnalyzeImage | analyze_screenshot.py:15-321 | `None` iff a file is missing, the model fails or the image is unreadable; otherwise the loop's result equals `Analyze(ds)` |
| AnalyzeScreenshot.EntriesFollowDetections | analyze_screenshot.py:77-89 | one entry per detection, in order, with class, centre and size `(int(x2-x1), int(y2-y1))`, non-negative for a well-formed box |
| AnalyzeScreenshot.PlatformsAreThePlatformDetections | analyze_screenshot.py:92-101 | the platform list holds one entry per "cube" detection, each with `y` equal to its centre's `y` |
| AnalyzeScreenshot.CountsAreClassCounts | analyze_screenshot.py:107-108 | the counts are the multiplicities of "humen" and "cube" among the class names, together at most the number of detections |
| AnalyzeScreenshot.PlayerCenterIffCounted | analyze_screenshot.py:92-108 | a player centre is reported iff the player count is positive |
| AnalyzeScreenshot.TargetChoice | analyze_screenshot.py:122-149 | a target exists iff there is a player and a platform with `y < player_y - 20`; it is then the first valid platform of greatest `y` |
| AnalyzeScreenshot.DistanceWhenTargeted | analyze_screenshot.py:151-157 | with a target the squared distance exceeds 400; without one it is 0 |
| AnalyzeScreenshot.AboveIsFar | analyze_screenshot.py:127-131 | a point more than 20 px above another is more than 20 px away from it |
| AnalyzeScreenshot.PressTableMeaning | analyze_screenshot.py:165-167 | five press times, each `int(d * k)` for `k` in `[0.5, 1.0, 1.18, 1.5, 2.0]` |
| AnalyzeScreenshot.PressTableNondecreasing | analyze_screenshot.py:165-166 | the printed press times never decrease along the list |
| DatasetSplit.Root | dataset_split.py:15 | `splitext(name)[0]` is a prefix of the name |
| DatasetSplit.RootOfExtension | dataset_split.py:15 | a name ending in a one-dot extension loses exactly that extension, unless only dots precede it |
| DatasetSplit.PlainStem | dataset_split.py:15-16 | `stem.png` and `stem.txt` both have the stem `stem` |
| DatasetSplit.HiddenImageMatchesLabel | dataset_split.py:15-17 | the image `.png` keeps its whole name as stem and so matches the label `.png.txt` |
| DatasetSplit.Stems | dataset_split.py:15-16 | a stem is listed iff some listed file with the extension has it as its root |
| DatasetSplit.Matched | dataset_split.py:17 | a stem is matched iff it comes from both a `.png` image and a `.txt` label |
| DatasetSplit.ToList | dataset_split.py:17 | `list(set)` holds every element exactly once |
| DatasetSplit.Shuffle | dataset_split.py:20 | the in-place shuffle permutes the array: its multiset is unchanged |
| DatasetSplit.ShuffledList | dataset_split.py:17-20 | the shuffled list holds each matched stem exactly once |
| DatasetSplit.Bound | dataset_split.py:23-25 | a slice bound counts from the end when negative and is clamped to `0..n` |
| DatasetSplit.Slice | dataset_split.py:23-25 | `xs[start:stop]` is the run of elements between the two bounds, or empty when they cross |
| DatasetSplit.Count | dataset_split.py:21-22 | `int(n * ratio)` is non-negative, at most `n * ratio`, and at most `n` when the ratio is at most 1 |
| DatasetSplit.PlanSlices | dataset_split.py:23-25 | the three slices are `s[..a]`, `s[a..b]` and `s[b..]` for the clamped counts `a` and `b` |
| DatasetSplit.Partition | dataset_split.py:20-25 | train, val and test concatenate to the shuffled list; their sizes follow the clamped counts; they are pairwise disjoint when the list has no duplicates |
| DatasetSplit.DefaultRatios | dataset_split.py:21-25 | with ratios 0.8 and 0.1, ten stems split 8 / 1 / 1 |
| DatasetSplit.OversizedTrainRatio | dataset_split.py:21-25 | a train ratio of 1 or more puts every stem in train, and val and test are empty |
| DatasetSplit.MoveFiles | dataset_split.py:28-37 | the loop records exactly the copies `Copies(stems)` describes |
| DatasetSplit.CopiesAreGuardedPairs | dataset_split.py:35-37 | the copies are the image and the label of each stem whose two sources exist, in list order |
| DatasetSplit.CopiedStemsPassTheGuard | dataset_split.py:29-37 | every copy belongs to a listed stem whose image and label both exist |
| DatasetSplit.GuardedStemIsCopied | dataset_split.py:29-37 | a listed stem whose two sources exist has both files copied |
| DatasetSplit.HiddenImageIsNotCopied | dataset_split.py:30-35 | the matched stem `.png` is never copied, because the guard looks for `.png.png` |
| DatasetSplit.MakeYoloDataset | dataset_split.py:5-42 | the copies are those of some shuffle of the matched stems, cut into the three slices and copied into the train, val and test folders |
| DeviceController.ParsePair | device_controller.py:155 | the parse fails iff the text split on 'x' is not two pieces or a piece is not an integer literal, and the failure is always `ValueError`; on success each piece parses to its number |
| DeviceController.ParseWmSize | device_controller.py:152-157 | without the marker the default `(1080, 1920)`; an error only when the marker is present |
| DeviceController.AdbScreenSize | device_controller.py:137-160 | a failed command gives the default size; otherwise the parse of its output |
| DeviceController.WmSizeRoundTrip | device_controller.py:151-156 | `"Physical size: WxH"`, plus trailing whitespace, parses to `(W, H)` |
| DeviceController.MarkerWithoutSpaceRaises | device_controller.py:153-154 | `"Physical size:WxH"` contains the marker, but indexing the split raises `IndexError` |
| DeviceController.OverrideOutputRejected | device_controller.py:154-155 | the two-line output with `Override size:` raises `ValueError` |
| DeviceController.ParseWmSizeFixed | device_controller.py:152-157 | the corrected parser also gives the default size without the marker |
| DeviceController.FixedAgreesOnOneLine | device_controller.py:152-157 | on single-line output the corrected parser equals the original |
| DeviceController.FixedParsesOverride | device_controller.py:152-157 | the corrected parser reads the physical size from the two-line output |
| DeviceController.AdbTapArgs | device_controller.py:117-130 | the press is a swipe of nine arguments that starts and ends at the same point |
| DeviceController.AdbTapArgsRoundTrip | device_controller.py:117-130 | parsing the arguments back gives the position and the duration |
| DeviceController.WindowsController.constructor | device_controller.py:166-181 | keeps the title and searches for the window once |
| DeviceController.WindowsController.FindWindow | device_controller.py:183-207 | finds iff a visible window's text contains the title; then takes the first such handle, otherwise keeps the old one |
| DeviceController.WindowsController.EnsureWindow | device_controller.py:216-218 | searches only when no handle is set, and goes on iff a handle is then known |
| DeviceController.WindowsController.GetScreenSize | device_controller.py:433-452 | the client size, or `(800, 600)` when the window cannot be found or queried |
| DeviceController.WindowsController.Tap | device_controller.py:380-431 | presses iff the window is available, at `(left + x, top + y)` for the requested duration; a negative duration leaves the button down and returns False, so True is returned iff the window is available and the duration is non-negative |
| DeviceController.WindowsController.Screenshot | device_controller.py:315-378 | captures the client area iff the window is available and its client width and height are positive |
| DeviceController.WindowsController.WindowRectWithDpi | device_controller.py:287-313 | `(0, 0, 0, 0)` without a handle or window; otherwise the rectangle scaled and truncated |
| DeviceController.UnscaledRect | device_controller.py:305-308 | at scale 1 the rectangle is the window's own corner and size |
| DeviceController.ResolvedIsAMatch | device_controller.py:191-202 | the handle found belongs to a visible window whose text contains the title |
| DeviceController.HandleIsSticky | device_controller.py:216-218 | once a handle is set no operation searches again, and the handle stays |
| PyStr.Strip | device_controller.py:152 | `strip()` is a slice with only whitespace around it, neither starting nor ending in whitespace |
| PyStr.SplitJoin | device_controller.py:154-155 | joining the pieces of `split(sep)` gives the string back, and no piece contains `sep` |
| PyStr.ParseIntToString | device_controller.py:155 | `int(str(n)) == n` |
| PyStr.ParseIntIgnoresSpace | device_controller.py:155 | `int()` ignores trailing whitespace |

## Left out

- YOLO inference and model loading: the detector is external. Its output is
  an input sequence of detections.
- The annotated result image that `Jump.predict` saves, and the
  `os.makedirs` of its folder (`main.py:28-30`): these are file-system I/O
  with no effect on the distance returned.
- OpenCV drawing, windows and `cv2.waitKey`: these are user interface. The
  key read on each pass of `run_debug_mode` is an input.
- The 's' key of `run_debug_mode`: its file copy under a time-stamped name is
  I/O. The model treats the key as a pass with no other effect.
- Window activation (`_activate_window`): the source ignores its result
  except in a warning.
- The ADB subprocesses and the return flags of the ADB `screenshot` and `tap`: these
  are I/O. The `wm size` output, or its failure, is an input.
- The Win32, mss and PIL capture calls: the windows are input data, and a
  screenshot is the region it would capture.
- The DPI query (`_get_dpi_scale`): a foreign call. The scale is a parameter
  of `WindowRectWithDpi`.
- `time.sleep`: the wait itself is not modelled. Its `ValueError` on a
  negative argument is modelled where the argument can be negative: after
  the press in `Jump.JumpOnce` (`main.py:151`) and between button-down and
  button-up in `WindowsController.Tap` (`device_controller.py:418`). The
  other sleeps take constants.
- `random.randint` and `random.shuffle`: the draws are free choices, so
  every contract holds for every outcome.
- IEEE floating point: the model uses exact reals.
  - Distances are exact square roots.
  - `round(x, 3)` rounds the exact value half to even.
  - This is not the float that numpy computes.
- Unicode digits and whitespace: only ASCII digits are modelled, although
  Python's `int()` also accepts other Unicode digits. Whitespace is Python's
  `isspace` set, and `strip` uses the same set.
- `DebugJump.RunDebugMode`: the key stream is finite. The loop also ends
  (`NoMoreInput`) when the modelled keys run out.
- `KeyboardInterrupt` in `run_debug_mode`: it is an external event.
- `os.makedirs` and errors from `shutil.copy`: these are file-system I/O.
  The copies are recorded as a list of (source, destination) pairs. Every
  copy is assumed to succeed.
- `os.path.join` and `splitext`: only POSIX paths are modelled, and names
  from a directory listing contain no separator.
- `test_ratio`: `make_yolo_dataset` takes it but never uses it. The model
  shows that the test slice is everything after the first two.

## Findings

| source | as written | input that shows it | evidently intended | confidence | as-written member | corrected member |
|---|---|---|---|---|---|---|
| device_controller.py:152-156 | the text after `"Physical size: "` is split on 'x' and unpacked into two values | `"Physical size: 1080x2340\nOverride size: 720x1560\n"`, which a device with a changed resolution prints; the split gives three pieces and `ValueError` escapes, because only `CalledProcessError` is caught | read the physical size from the first line after the marker | high, not executed | DeviceController.OverrideOutputRejected | DeviceController.FixedParsesOverride |
