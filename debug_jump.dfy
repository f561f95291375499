/**
 * The debugging variant of the jumper (`DebugJump`): its own, older target
 * selection over the detector's output, one debug jump, and the interactive
 * loop with its jump counter, pause toggle and quit key.
 */
module DebugJump {
  import opened Wrappers
  import opened Numeric
  import opened Detections
  import opened Actuation

  /** The platform chosen so far: its centre and its confidence. */
  datatype Chosen = Chosen(center: Point, conf: real)

  /**
   * The `debug_info` dictionary. The distance is kept squared: the source's
   * distance is the square root of `distanceSq`.
   */
  datatype DebugInfo = DebugInfo(
    playerDetected: bool,
    platformDetected: bool,
    playerCenter: Option<Point>,
    platformCenter: Option<Point>,
    distanceSq: nat,
    detections: seq<Record>)

  /**
   * The platform the loop ends up with: a platform replaces the current
   * choice only when its confidence is strictly greater than the best so far,
   * which starts at 0.
   */
  function ChosenPlatform(ds: seq<Raw>): Option<Chosen>
    decreases |ds|, 0
  {
    if ds == [] then None
    else
      var d := ds[|ds| - 1];
      if d.name != PlayerClass && d.name == PlatformClass && d.conf > BestConf(ds[..|ds| - 1])
      then Some(Chosen(Center(d), d.conf))
      else ChosenPlatform(ds[..|ds| - 1])
  }

  /** The best confidence so far: the chosen platform's, or the initial 0. */
  function BestConf(ds: seq<Raw>): real
    decreases |ds|, 1
  {
    var c := ChosenPlatform(ds);
    if c.Some? then c.value.conf else 0.0
  }

  /** The chosen platform's centre, if any. */
  function ChosenCenter(ds: seq<Raw>): Option<Point>
  {
    var c := ChosenPlatform(ds);
    if c.Some? then Some(c.value.center) else None
  }

  /** The `debug_info` that `predict_with_debug` builds from a readable image. */
  function Inspect(ds: seq<Raw>): DebugInfo
  {
    var player := LastPlayer(ds);
    var platform := ChosenPlatform(ds);
    var platformCenter := ChosenCenter(ds);
    DebugInfo(
      player.Some?,
      platform.Some?,
      player,
      platformCenter,
      if player.Some? && platform.Some? then SqDist(player.value, platform.value.center) else 0,
      seq(|ds|, i requires 0 <= i < |ds| => ToRecord(ds[i])))
  }

  /**
   * `predict_with_debug`: the squared distance between the player and the
   * chosen platform, and the debug information; an unreadable image gives
   * `(0, {})`, written `(0, None)` here.
   */
  method PredictWithDebug(readable: bool, ds: seq<Raw>) returns (distanceSq: nat, info: Option<DebugInfo>)
    ensures !readable ==> distanceSq == 0 && info.None?
    ensures readable ==> info == Some(Inspect(ds)) && distanceSq == info.value.distanceSq
  {
    if !readable {
      return 0, None;
    }
    var playerDetected, platformDetected := false, false;
    var playerCenter: Option<Point> := None;
    var platformCenter: Option<Point> := None;
    var bestConf := 0.0;
    var detections: seq<Record> := [];
    var i := 0;
    while i < |ds|
      invariant 0 <= i <= |ds|
      invariant |detections| == i
      invariant forall j :: 0 <= j < i ==> detections[j] == ToRecord(ds[j])
      invariant playerCenter == LastPlayer(ds[..i]) && playerDetected == playerCenter.Some?
      invariant platformDetected == ChosenPlatform(ds[..i]).Some?
      invariant platformCenter == ChosenCenter(ds[..i])
      invariant bestConf == BestConf(ds[..i])
    {
      PrefixStep(ds, i);
      var d := ds[i];
      var center := Center(d);
      detections := detections + [ToRecord(d)];
      if d.name == PlayerClass {
        playerCenter := Some(center);
        playerDetected := true;
      } else if d.name == PlatformClass {
        if d.conf > bestConf {
          bestConf := d.conf;
          platformCenter := Some(center);
          platformDetected := true;
        }
      }
      i := i + 1;
    }
    assert ds[..i] == ds;
    assert detections == Inspect(ds).detections;
    distanceSq := 0;
    if playerCenter.Some? && platformCenter.Some? {
      distanceSq := SqDist(playerCenter.value, platformCenter.value);
    }
    info := Some(DebugInfo(playerDetected, platformDetected, playerCenter, platformCenter, distanceSq, detections));
  }

  /** Extending the prefix by `ds[i]` updates the player and the platform as one loop step does. */
  lemma PrefixStep(ds: seq<Raw>, i: nat)
    requires i < |ds|
    ensures var d := ds[i];
      && LastPlayer(ds[..i + 1]) == (if d.name == PlayerClass then Some(Center(d)) else LastPlayer(ds[..i]))
      && ChosenPlatform(ds[..i + 1]) ==
        (if d.name != PlayerClass && d.name == PlatformClass && d.conf > BestConf(ds[..i])
         then Some(Chosen(Center(d), d.conf)) else ChosenPlatform(ds[..i]))
  {
    assert ds[..i + 1][..i] == ds[..i];
  }

  // ---------------------------------------------------------------------
  // What the debug selection guarantees.

  /**
   * One record per detection, in order: its class, confidence, truncated
   * corners and centre, the centre inside the box up to truncation.
   */
  lemma RecordsFollowDetections(ds: seq<Raw>)
    ensures |Inspect(ds).detections| == |ds|
    ensures forall i :: 0 <= i < |ds| ==>
      var d, r := ds[i], Inspect(ds).detections[i];
      && r.name == d.name && r.conf == d.conf && r.center == Center(d)
      && r.bbox == (Trunc(d.x1), Trunc(d.y1), Trunc(d.x2), Trunc(d.y2))
      && (0.0 <= d.x1 <= d.x2 ==> d.x1 - 1.0 < r.center.x as real <= d.x2)
      && (0.0 <= d.y1 <= d.y2 ==> d.y1 - 1.0 < r.center.y as real <= d.y2)
  {
  }

  /** No platform is chosen exactly when every platform detection has confidence at most 0. */
  lemma {:induction false} NoPlatformChosenIff(ds: seq<Raw>)
    ensures ChosenPlatform(ds).None? <==>
      forall i :: 0 <= i < |ds| && ds[i].name == PlatformClass ==> ds[i].conf <= 0.0
  {
    if ds != [] {
      var ds' := ds[..|ds| - 1];
      NoPlatformChosenIff(ds');
      assert forall i :: 0 <= i < |ds'| ==> ds'[i] == ds[i];
      if ChosenPlatform(ds').Some? {
        ChosenConfPositive(ds');
      }
    }
  }

  /** A chosen platform always has positive confidence. */
  lemma {:induction false} ChosenConfPositive(ds: seq<Raw>)
    requires ChosenPlatform(ds).Some?
    ensures ChosenPlatform(ds).value.conf > 0.0
  {
    var ds' := ds[..|ds| - 1];
    if ChosenPlatform(ds').Some? {
      ChosenConfPositive(ds');
    }
  }

  /** The platform detection whose centre and confidence `c` records, at index `i` of `ds`. */
  ghost predicate StrictlyBestAt(ds: seq<Raw>, i: int, c: Chosen)
  {
    && 0 <= i < |ds|
    && ds[i].name == PlatformClass
    && 0.0 < ds[i].conf
    && c == Chosen(Center(ds[i]), ds[i].conf)
    && (forall j :: 0 <= j < |ds| && ds[j].name == PlatformClass ==> ds[j].conf <= ds[i].conf)
    && (forall j :: 0 <= j < i && ds[j].name == PlatformClass ==> ds[j].conf < ds[i].conf)
  }

  /**
   * The chosen platform is a platform detection of strictly greatest
   * confidence: no platform has more, every earlier platform has less, so
   * the earliest of equals wins.
   */
  lemma {:induction false} ChosenIsStrictlyBest(ds: seq<Raw>)
    requires ChosenPlatform(ds).Some?
    ensures exists i :: StrictlyBestAt(ds, i, ChosenPlatform(ds).value)
  {
    var n := |ds|;
    var ds' := ds[..n - 1];
    var d := ds[n - 1];
    assert forall j :: 0 <= j < n - 1 ==> ds'[j] == ds[j];
    var before := ChosenPlatform(ds');
    if before.None? {
      NoPlatformChosenIff(ds');
      assert StrictlyBestAt(ds, n - 1, ChosenPlatform(ds).value);
    } else {
      ChosenIsStrictlyBest(ds');
      var i :| StrictlyBestAt(ds', i, before.value);
      if ChosenPlatform(ds) == before {
        assert StrictlyBestAt(ds, i, before.value);
      } else {
        assert StrictlyBestAt(ds, n - 1, ChosenPlatform(ds).value);
      }
    }
  }

  /**
   * The debug distance is zero unless both a player and a platform were
   * found, and then it is the distance between their centres, with no
   * filtering of platforms behind the player.
   */
  lemma DistanceNeedsBoth(ds: seq<Raw>)
    ensures var info := Inspect(ds);
      && (info.distanceSq > 0 ==> info.playerDetected && info.platformDetected)
      && (info.playerDetected && info.platformDetected ==>
            info.distanceSq == SqDist(info.playerCenter.value, info.platformCenter.value))
      && (info.distanceSq == 0 <==>
            (!info.playerDetected || !info.platformDetected || info.playerCenter == info.platformCenter))
  {
  }

  // ---------------------------------------------------------------------
  // One debug jump.

  /** Exceptions that escape `debug_jump`. */
  datatype DebugError =
    | MissingKey   // `{}["player_detected"]` after an unreadable image
    | EmptyBand    // `random.randint` on an empty band

  /** What one call of `debug_jump` does; `Skip` is its `return False`. */
  datatype Effect = Skip | Press(durationMs: int) | Raise(error: DebugError)

  /** Everything one debug jump observes from the device and the detector. */
  datatype JumpInput = JumpInput(screenshotOk: bool, imageReadable: bool, detections: seq<Raw>, width: int, height: int)

  /** The effect of `debug_jump` with coefficient `k`, the tap point aside. */
  function JumpEffect(j: JumpInput, k: real): Effect
  {
    if !j.screenshotOk then Skip
    else if !j.imageReadable then Raise(MissingKey)
    else
      var q := Inspect(j.detections).distanceSq;
      if q == 0 then Skip
      else if !BandNonEmpty(j.width, j.height) then Raise(EmptyBand)
      else Press(TruncRootTimes(q as real, k))
  }

  /** The outcome of one debug jump, with the press it issued. */
  datatype Outcome = Skipped | Tapped(tap: Tap) | Failed(error: DebugError)

  /**
   * `debug_jump`: screenshot, inspect, and press for `int(distance*k)`
   * milliseconds at a point drawn from the band, unless the screenshot
   * failed or the distance is 0.
   */
  method JumpWithDebug(j: JumpInput, k: real) returns (r: Outcome)
    ensures r.Skipped? <==> JumpEffect(j, k).Skip?
    ensures r.Failed? <==> JumpEffect(j, k).Raise?
    ensures r.Failed? ==> r.error == JumpEffect(j, k).error
    ensures r.Tapped? ==> JumpEffect(j, k) == Press(r.tap.durationMs)
    ensures r.Tapped? ==> InBand(r.tap.x, r.tap.y, j.width, j.height)
  {
    if !j.screenshotOk {
      return Skipped;
    }
    var distanceSq, info := PredictWithDebug(j.imageReadable, j.detections);
    if info.None? {
      return Failed(MissingKey);
    }
    if distanceSq == 0 {
      return Skipped;
    }
    var pressTime := TruncRootTimes(distanceSq as real, k);
    var point := ChooseTapPoint(j.width, j.height);
    if point.Err? {
      return Failed(EmptyBand);
    }
    r := Tapped(Tap(point.value.0, point.value.1, pressTime));
  }

  /**
   * A debug jump is skipped exactly when the screenshot fails, or the image
   * is readable but lacks a player or a platform of positive confidence (or
   * their centres coincide).
   */
  lemma SkipIff(j: JumpInput, k: real)
    ensures JumpEffect(j, k).Skip? <==>
      !j.screenshotOk
      || (j.imageReadable
          && (LastPlayer(j.detections).None? || ChosenPlatform(j.detections).None?
              || LastPlayer(j.detections).value == ChosenPlatform(j.detections).value.center))
  {
  }

  /**
   * A press lasts `int(d*k)` milliseconds for the true distance `d` between
   * the player's and the platform's centres.
   */
  lemma PressMeaning(j: JumpInput, k: real, d: real)
    requires JumpEffect(j, k).Press?
    requires 0.0 <= d && d * d == Inspect(j.detections).distanceSq as real
    ensures JumpEffect(j, k).durationMs == Trunc(d * k)
  {
    TruncRootTimesMeaning(Inspect(j.detections).distanceSq as real, k, d);
  }

  // ---------------------------------------------------------------------
  // The interactive loop.

  /** One pass of the loop: the key `cv2.waitKey` returned and what the jump would observe. */
  datatype Tick = Tick(key: int, jump: JumpInput)

  /** Why the loop ended; `NoMoreInput` marks the end of the modelled key stream. */
  datatype End = ReachedMax | UserQuit | Raised(error: DebugError) | NoMoreInput

  datatype Summary = Summary(jumpCount: int, paused: bool, presses: seq<int>, end: End)

  const QuitKey: int := 'q' as int
  const SaveKey: int := 's' as int
  const PauseKey: int := 'p' as int

  /** `cv2.waitKey(1) & 0xFF`: the low byte of the key code (-1 becomes 255). */
  function LowByte(key: int): (b: int)
    ensures 0 <= b < 256
    ensures 0 <= key < 256 ==> b == key
  {
    key % 256
  }

  /**
   * The loop from a given counter and pause flag, over the remaining ticks;
   * `presses` collects the durations pressed so far.
   */
  function Run(maxJumps: int, debug: bool, k: real, ticks: seq<Tick>, count: int, paused: bool, presses: seq<int>): Summary
    decreases |ticks|
  {
    if !(count < maxJumps) then Summary(count, paused, presses, ReachedMax)
    else if ticks == [] then Summary(count, paused, presses, NoMoreInput)
    else
      var key := LowByte(ticks[0].key);
      if debug && key == QuitKey then Summary(count, paused, presses, UserQuit)
      else
        var paused' := if debug && key == PauseKey then !paused else paused;
        if paused' then Run(maxJumps, debug, k, ticks[1..], count, paused', presses)
        else
          match JumpEffect(ticks[0].jump, k)
          case Raise(e) => Summary(count + 1, paused', presses, Raised(e))
          case Press(ms) => Run(maxJumps, debug, k, ticks[1..], count + 1, paused', presses + [ms])
          case Skip => Run(maxJumps, debug, k, ticks[1..], count + 1, paused', presses)
  }

  /** The tap lies in the band of the screen that was measured on that pass. */
  predicate TapInBandOf(tap: Tap, tick: Tick)
  {
    InBand(tap.x, tap.y, tick.jump.width, tick.jump.height)
  }

  /**
   * `run_debug_mode`: jump until `max_jumps` jumps were counted, the user
   * presses 'q', a jump raises, or the ticks run out; 'p' toggles the pause
   * and a paused pass counts no jump. Each tap lies in the band of the
   * screen measured on the pass that issued it (`origin` names that pass),
   * and each pass issues at most one tap.
   */
  method RunDebugMode(maxJumps: int, debug: bool, k: real, ticks: seq<Tick>) returns (s: Summary, taps: seq<Tap>, ghost origin: seq<nat>)
    ensures s == Run(maxJumps, debug, k, ticks, 0, false, [])
    ensures |taps| == |s.presses|
    ensures forall i :: 0 <= i < |taps| ==> taps[i].durationMs == s.presses[i]
    ensures forall i :: 0 <= i < |taps| ==> exists t :: 0 <= t < |ticks| && TapInBandOf(taps[i], ticks[t])
    ensures |origin| == |taps|
    ensures forall i :: 0 <= i < |taps| ==> origin[i] < |ticks| && TapInBandOf(taps[i], ticks[origin[i]])
    ensures forall i, j :: 0 <= i < j < |origin| ==> origin[i] < origin[j]
  {
    var jumpCount := 0;
    var paused := false;
    var presses: seq<int> := [];
    taps := [];
    origin := [];
    var i := 0;
    while jumpCount < maxJumps && i < |ticks|
      invariant 0 <= i <= |ticks|
      invariant Run(maxJumps, debug, k, ticks[i..], jumpCount, paused, presses) == Run(maxJumps, debug, k, ticks, 0, false, [])
      invariant |taps| == |presses| == |origin|
      invariant forall j :: 0 <= j < |taps| ==> taps[j].durationMs == presses[j]
      invariant forall j :: 0 <= j < |taps| ==> origin[j] < i && TapInBandOf(taps[j], ticks[origin[j]])
      invariant forall j, j' :: 0 <= j < j' < |origin| ==> origin[j] < origin[j']
    {
      var tick := ticks[i];
      assert ticks[i..][1..] == ticks[i + 1..];
      if debug {
        var key := LowByte(tick.key);
        if key == QuitKey {
          return Summary(jumpCount, paused, presses, UserQuit), taps, origin;
        } else if key == PauseKey {
          paused := !paused;
        }
      }
      i := i + 1;
      if paused {
        continue;
      }
      jumpCount := jumpCount + 1;
      var outcome := JumpWithDebug(tick.jump, k);
      match outcome
      case Failed(e) =>
        return Summary(jumpCount, paused, presses, Raised(e)), taps, origin;
      case Tapped(tap) =>
        presses := presses + [tap.durationMs];
        taps := taps + [tap];
        origin := origin + [i - 1];
      case Skipped =>
    }
    if jumpCount < maxJumps {
      s := Summary(jumpCount, paused, presses, NoMoreInput);
    } else {
      s := Summary(jumpCount, paused, presses, ReachedMax);
    }
  }

  // ---------------------------------------------------------------------
  // What the loop guarantees.

  /**
   * The counter only grows and never passes `max_jumps`; the loop stops at
   * the maximum only when the counter reached it, and a quit or the end of
   * input leaves it below.
   */
  lemma {:induction false} CountBounded(maxJumps: int, debug: bool, k: real, ticks: seq<Tick>, count: int, paused: bool, presses: seq<int>)
    requires count <= maxJumps
    ensures var s := Run(maxJumps, debug, k, ticks, count, paused, presses);
      && count <= s.jumpCount <= maxJumps
      && s.jumpCount <= count + |ticks|
      && (s.end.ReachedMax? ==> s.jumpCount == maxJumps)
      && (s.end.UserQuit? || s.end.NoMoreInput? ==> s.jumpCount < maxJumps)
    decreases |ticks|
  {
    if count < maxJumps && ticks != [] {
      var key := LowByte(ticks[0].key);
      if !(debug && key == QuitKey) {
        var paused' := if debug && key == PauseKey then !paused else paused;
        if paused' {
          CountBounded(maxJumps, debug, k, ticks[1..], count, paused', presses);
        } else {
          match JumpEffect(ticks[0].jump, k)
          case Raise(e) =>
          case Press(ms) => CountBounded(maxJumps, debug, k, ticks[1..], count + 1, paused', presses + [ms]);
          case Skip => CountBounded(maxJumps, debug, k, ticks[1..], count + 1, paused', presses);
        }
      }
    }
  }

  /** Pressing 'q' on the first pass quits at once with the counter unchanged. */
  lemma QuitFirst(maxJumps: int, k: real, ticks: seq<Tick>, count: int, paused: bool, presses: seq<int>)
    requires count < maxJumps && |ticks| > 0 && LowByte(ticks[0].key) == QuitKey
    ensures Run(maxJumps, true, k, ticks, count, paused, presses) == Summary(count, paused, presses, UserQuit)
  {
  }

  /** While paused and no 'p' arrives, no jump is counted and nothing is pressed. */
  lemma {:induction false} PausedMakesNoJumps(maxJumps: int, debug: bool, k: real, ticks: seq<Tick>, count: int, presses: seq<int>)
    requires debug ==> forall i :: 0 <= i < |ticks| ==> LowByte(ticks[i].key) != PauseKey
    ensures var s := Run(maxJumps, debug, k, ticks, count, true, presses);
      s.jumpCount == count && s.paused && s.presses == presses && !s.end.Raised?
    decreases |ticks|
  {
    if count < maxJumps && ticks != [] {
      assert forall i :: 0 <= i < |ticks[1..]| ==> ticks[1..][i] == ticks[i + 1];
      PausedMakesNoJumps(maxJumps, debug, k, ticks[1..], count, presses);
    }
  }

  /**
   * Without the debug window no key is read, so when no jump raises the
   * loop counts one jump per pass until the maximum.
   */
  lemma {:induction false} NoDebugCountsEveryPass(maxJumps: int, k: real, ticks: seq<Tick>, count: int, presses: seq<int>)
    requires count <= maxJumps
    requires forall i :: 0 <= i < |ticks| ==> !JumpEffect(ticks[i].jump, k).Raise?
    ensures var s := Run(maxJumps, false, k, ticks, count, false, presses);
      && s.jumpCount == count + (if |ticks| < maxJumps - count then |ticks| else maxJumps - count)
      && !s.paused
    decreases |ticks|
  {
    if count < maxJumps && ticks != [] {
      assert forall i :: 0 <= i < |ticks[1..]| ==> ticks[1..][i] == ticks[i + 1];
      match JumpEffect(ticks[0].jump, k)
      case Press(ms) => NoDebugCountsEveryPass(maxJumps, k, ticks[1..], count + 1, presses + [ms]);
      case Skip => NoDebugCountsEveryPass(maxJumps, k, ticks[1..], count + 1, presses);
    }
  }
}
