/**
 * The offline screenshot analyser (`analyze_image`): it records every
 * detection, counts players and platforms, and picks as target the platform
 * lowest on the screen among those more than 20 pixels above the player.
 */
module AnalyzeScreenshot {
  import opened Wrappers
  import opened Numeric
  import opened Seqs
  import opened Detections

  /** A detection as the analyser records it: the shared record plus the box size. */
  datatype Entry = Entry(record: Record, size: (int, int))

  /** One platform: its centre, its confidence, and the centre's `y` used for the choice. */
  datatype PlatformInfo = PlatformInfo(center: Point, conf: real, y: int)

  /** The dictionary `analyze_image` returns; the distance is kept squared. */
  datatype Analysis = Analysis(
    detections: seq<Entry>,
    playerCenter: Option<Point>,
    platformCenter: Option<Point>,
    distanceSq: nat,
    playerCount: nat,
    platformCount: nat)

  /** What the analyser checks before predicting; any `false` makes it return `None`. */
  datatype Preflight = Preflight(modelExists: bool, imageExists: bool, modelLoads: bool, imageReadable: bool)

  predicate Ready(f: Preflight)
  {
    f.modelExists && f.imageExists && f.modelLoads && f.imageReadable
  }

  /** The size `(int(x2 - x1), int(y2 - y1))` of a detection's box. */
  function Size(d: Raw): (int, int)
  {
    (Trunc(d.x2 - d.x1), Trunc(d.y2 - d.y1))
  }

  function ToEntry(d: Raw): Entry
  {
    Entry(ToRecord(d), Size(d))
  }

  predicate IsPlayerRaw(d: Raw) { d.name == PlayerClass }
  predicate IsPlatformRaw(d: Raw) { d.name == PlatformClass }

  function ToInfo(d: Raw): PlatformInfo
  {
    var c := Center(d);
    PlatformInfo(c, d.conf, c.y)
  }

  /** `all_platforms`: one entry per platform detection, in detection order. */
  function Platforms(ds: seq<Raw>): seq<PlatformInfo>
  {
    var cubes := Filter(ds, IsPlatformRaw);
    seq(|cubes|, i requires 0 <= i < |cubes| => ToInfo(cubes[i]))
  }

  /** The validity test `y < player_y - 20`. */
  predicate Above(p: PlatformInfo, playerY: int) { p.y < playerY - 20 }

  function AboveOf(playerY: int): PlatformInfo -> bool { p => Above(p, playerY) }

  function PlatformY(p: PlatformInfo): real { p.y as real }

  /**
   * The target platform's centre: the valid platform of greatest `y`, the
   * first on ties (`max`); `None` without a player or without a valid platform.
   */
  function TargetCenter(player: Option<Point>, platforms: seq<PlatformInfo>): Option<Point>
  {
    if player.None? || |platforms| == 0 then None
    else
      var valid := Filter(platforms, AboveOf(player.value.y));
      if |valid| == 0 then None
      else Some(valid[ArgMax(valid, PlatformY)].center)
  }

  /** The analysis of a readable screenshot's detections. */
  function Analyze(ds: seq<Raw>): Analysis
  {
    var player := LastPlayer(ds);
    var platform := TargetCenter(player, Platforms(ds));
    Analysis(
      seq(|ds|, i requires 0 <= i < |ds| => ToEntry(ds[i])),
      player,
      platform,
      if player.Some? && platform.Some? then SqDist(player.value, platform.value) else 0,
      |Filter(ds, IsPlayerRaw)|,
      |Filter(ds, IsPlatformRaw)|)
  }

  /**
   * `analyze_image`: `None` when a file is missing, the model does not load
   * or the image cannot be read; otherwise the analysis of the detections.
   * The detection loop appends entries and platforms and overwrites the
   * player's centre.
   */
  method AnalyzeImage(f: Preflight, ds: seq<Raw>) returns (r: Option<Analysis>)
    ensures r.None? <==> !Ready(f)
    ensures r.Some? ==> r.value == Analyze(ds)
  {
    if !f.modelExists || !f.imageExists || !f.modelLoads || !f.imageReadable {
      return None;
    }
    var detections: seq<Entry> := [];
    var playerCenter: Option<Point> := None;
    var allPlatforms: seq<PlatformInfo> := [];
    var i := 0;
    while i < |ds|
      invariant 0 <= i <= |ds|
      invariant |detections| == i
      invariant forall j :: 0 <= j < i ==> detections[j] == ToEntry(ds[j])
      invariant playerCenter == LastPlayer(ds[..i])
      invariant allPlatforms == Platforms(ds[..i])
    {
      PrefixStep(ds, i);
      var d := ds[i];
      var center := Center(d);
      detections := detections + [ToEntry(d)];
      if d.name == PlayerClass {
        playerCenter := Some(center);
      } else if d.name == PlatformClass {
        allPlatforms := allPlatforms + [PlatformInfo(center, d.conf, center.y)];
      }
      i := i + 1;
    }
    assert ds[..i] == ds;
    assert detections == Analyze(ds).detections;
    var playerCount := |Filter(ds, IsPlayerRaw)|;
    var platformCount := |Filter(ds, IsPlatformRaw)|;
    var platformCenter := TargetCenter(playerCenter, allPlatforms);
    var distanceSq := 0;
    if playerCenter.Some? && platformCenter.Some? {
      distanceSq := SqDist(playerCenter.value, platformCenter.value);
    }
    r := Some(Analysis(detections, playerCenter, platformCenter, distanceSq, playerCount, platformCount));
  }

  /** Extending the prefix by `ds[i]` updates the player and the platform list as one loop step does. */
  lemma PrefixStep(ds: seq<Raw>, i: nat)
    requires i < |ds|
    ensures LastPlayer(ds[..i + 1]) == (if IsPlayerRaw(ds[i]) then Some(Center(ds[i])) else LastPlayer(ds[..i]))
    ensures Platforms(ds[..i + 1]) == Platforms(ds[..i]) + (if IsPlatformRaw(ds[i]) then [ToInfo(ds[i])] else [])
  {
    assert ds[..i + 1][..i] == ds[..i];
    var before, after := Filter(ds[..i], IsPlatformRaw), Filter(ds[..i + 1], IsPlatformRaw);
    assert after == before + (if IsPlatformRaw(ds[i]) then [ds[i]] else []);
  }

  /** The jump coefficients for which the analyser prints a press time. */
  const Coefficients: seq<real> := [0.5, 1.0, 1.18, 1.5, 2.0]

  /** `int(distance * k)` for each coefficient, in order. */
  function PressTable(distanceSq: nat): seq<int>
  {
    seq(|Coefficients|, i requires 0 <= i < |Coefficients| => TruncRootTimes(distanceSq as real, Coefficients[i]))
  }

  // ---------------------------------------------------------------------
  // What the analysis guarantees.

  /**
   * One entry per detection, in order: its class, its centre (inside the
   * box, up to truncation) and its size `(int(x2 - x1), int(y2 - y1))`,
   * which is non-negative for a well-formed box.
   */
  lemma EntriesFollowDetections(ds: seq<Raw>)
    ensures |Analyze(ds).detections| == |ds|
    ensures forall i :: 0 <= i < |ds| ==>
      var d, e := ds[i], Analyze(ds).detections[i];
      && e.record.name == d.name && e.record.conf == d.conf && e.record.center == Center(d)
      && e.size == (Trunc(d.x2 - d.x1), Trunc(d.y2 - d.y1))
      && (d.x1 <= d.x2 && d.y1 <= d.y2 ==> 0 <= e.size.0 && 0 <= e.size.1)
      && (0.0 <= d.x1 <= d.x2 ==> d.x1 - 1.0 < e.record.center.x as real <= d.x2)
  {
    var es := Analyze(ds).detections;
    assert es == seq(|ds|, i requires 0 <= i < |ds| => ToEntry(ds[i]));
    forall i | 0 <= i < |ds|
      ensures var d, e := ds[i], es[i];
        && e.record.name == d.name && e.record.conf == d.conf && e.record.center == Center(d)
        && e.size == (Trunc(d.x2 - d.x1), Trunc(d.y2 - d.y1))
        && (d.x1 <= d.x2 && d.y1 <= d.y2 ==> 0 <= e.size.0 && 0 <= e.size.1)
        && (0.0 <= d.x1 <= d.x2 ==> d.x1 - 1.0 < e.record.center.x as real <= d.x2)
    {
      assert es[i] == ToEntry(ds[i]);
    }
  }

  /** `all_platforms` lists exactly the platform detections, in order, with `y` their centre's `y`. */
  lemma PlatformsAreThePlatformDetections(ds: seq<Raw>)
    ensures |Platforms(ds)| == Analyze(ds).platformCount
    ensures forall j :: 0 <= j < |Platforms(ds)| ==>
      Platforms(ds)[j].y == Platforms(ds)[j].center.y
      && exists i :: 0 <= i < |ds| && IsPlatformRaw(ds[i]) && Platforms(ds)[j] == ToInfo(ds[i])
  {
    var cubes := Filter(ds, IsPlatformRaw);
    var ps := Platforms(ds);
    forall j | 0 <= j < |ps|
      ensures ps[j].y == ps[j].center.y
      ensures exists i :: 0 <= i < |ds| && IsPlatformRaw(ds[i]) && ps[j] == ToInfo(ds[i])
    {
      assert ps[j] == ToInfo(cubes[j]);
      assert cubes[j] in ds && IsPlatformRaw(cubes[j]);
      var i :| 0 <= i < |ds| && ds[i] == cubes[j];
    }
  }

  /** The detections' class names, in order. */
  function Names(ds: seq<Raw>): seq<string>
  {
    seq(|ds|, i requires 0 <= i < |ds| => ds[i].name)
  }

  /** The counts are the numbers of detections named "humen" and "cube". */
  lemma CountsAreClassCounts(ds: seq<Raw>)
    ensures Analyze(ds).playerCount == multiset(Names(ds))[PlayerClass]
    ensures Analyze(ds).platformCount == multiset(Names(ds))[PlatformClass]
    ensures Analyze(ds).playerCount + Analyze(ds).platformCount <= |ds|
  {
    var a := Analyze(ds);
    assert a.playerCount == |Filter(ds, IsPlayerRaw)| && a.platformCount == |Filter(ds, IsPlatformRaw)|;
    CountIsMultiplicity(ds, PlayerClass);
    CountIsMultiplicity(ds, PlatformClass);
    CountsDisjoint(ds);
  }

  /** A player centre is reported exactly when the player count is positive. */
  lemma PlayerCenterIffCounted(ds: seq<Raw>)
    ensures Analyze(ds).playerCount == 0 <==> Analyze(ds).playerCenter.None?
  {
    var a := Analyze(ds);
    var players := Filter(ds, IsPlayerRaw);
    assert a.playerCount == |players| && a.playerCenter == LastPlayer(ds);
    NoPlayerIff(ds);
    if |players| > 0 {
      assert players[0] in ds && IsPlayerRaw(players[0]);
    }
  }

  /** Filtering by class name keeps as many detections as the name occurs among the names. */
  lemma {:induction false} CountIsMultiplicity(ds: seq<Raw>, name: string)
    requires name == PlayerClass || name == PlatformClass
    ensures name == PlayerClass ==> |Filter(ds, IsPlayerRaw)| == multiset(Names(ds))[name]
    ensures name == PlatformClass ==> |Filter(ds, IsPlatformRaw)| == multiset(Names(ds))[name]
    decreases |ds|
  {
    if ds != [] {
      var ds' := ds[..|ds| - 1];
      CountIsMultiplicity(ds', name);
      assert Names(ds) == Names(ds') + [ds[|ds| - 1].name];
    }
  }

  lemma {:induction false} CountsDisjoint(ds: seq<Raw>)
    ensures |Filter(ds, IsPlayerRaw)| + |Filter(ds, IsPlatformRaw)| <= |ds|
    decreases |ds|
  {
    if ds != [] {
      CountsDisjoint(ds[..|ds| - 1]);
    }
  }

  /**
   * The target exists exactly when there is a player and some platform at
   * least 21 pixels above it; it is then a platform detection's centre,
   * valid, of greatest `y` among the valid platforms, and the first of them
   * on ties.
   */
  lemma TargetChoice(ds: seq<Raw>)
    ensures var a := Analyze(ds);
      a.platformCenter.Some? <==>
        a.playerCenter.Some? && exists j :: 0 <= j < |Platforms(ds)| && Above(Platforms(ds)[j], a.playerCenter.value.y)
    ensures var a := Analyze(ds);
      a.platformCenter.Some? ==>
        exists t :: FirstMaxOf(Platforms(ds), AboveOf(a.playerCenter.value.y), PlatformY, t)
          && t.center == a.platformCenter.value
  {
    var a := Analyze(ds);
    var ps := Platforms(ds);
    if a.playerCenter.Some? && exists j :: 0 <= j < |ps| && Above(ps[j], a.playerCenter.value.y) {
      var py := a.playerCenter.value.y;
      var j :| 0 <= j < |ps| && Above(ps[j], py);
      FilterArgMax(ps, AboveOf(py), PlatformY, j);
    }
  }

  /**
   * A target lies more than 20 pixels above the player, so whenever a
   * target is found the distance exceeds 20; otherwise it is 0.
   */
  lemma DistanceWhenTargeted(ds: seq<Raw>)
    ensures var a := Analyze(ds);
      && (a.platformCenter.Some? ==> a.playerCenter.Some? && a.distanceSq > 400)
      && (a.platformCenter.None? ==> a.distanceSq == 0)
  {
    var a := Analyze(ds);
    if a.platformCenter.Some? {
      var player := a.playerCenter.value;
      var ps := Platforms(ds);
      var valid := Filter(ps, AboveOf(player.y));
      var t := valid[ArgMax(valid, PlatformY)];
      assert a.platformCenter.value == t.center;
      assert t in ps && Above(t, player.y);
      PlatformsAreThePlatformDetections(ds);
      assert t.y == t.center.y;
      AboveIsFar(player, t.center);
    }
  }

  /** A point more than 20 pixels above another is more than 20 pixels away from it. */
  lemma AboveIsFar(p: Point, c: Point)
    requires c.y < p.y - 20
    ensures SqDist(p, c) > 400
  {
    var dx, dy := p.x - c.x, p.y - c.y;
    NatSquareMonotone(21, dy);
    assert SqDist(p, c) == dx * dx + dy * dy;
  }

  /** Each printed press time is `int(d*k)` for the true distance `d`. */
  lemma PressTableMeaning(distanceSq: nat, d: real)
    requires 0.0 <= d && d * d == distanceSq as real
    ensures |PressTable(distanceSq)| == 5
    ensures forall i :: 0 <= i < 5 ==> PressTable(distanceSq)[i] == Trunc(d * Coefficients[i])
  {
    TableMeaning(distanceSq as real, d, Coefficients, PressTable(distanceSq));
  }

  lemma TableMeaning(q: real, d: real, ks: seq<real>, t: seq<int>)
    requires 0.0 <= d && d * d == q && |t| == |ks|
    requires forall j :: 0 <= j < |t| ==> t[j] == TruncRootTimes(q, ks[j])
    ensures forall j :: 0 <= j < |t| ==> t[j] == Trunc(d * ks[j])
  {
    forall j | 0 <= j < |t|
      ensures t[j] == Trunc(d * ks[j])
    {
      var k := ks[j];
      assert t[j] == TruncRootTimes(q, k);
      TruncRootTimesMeaning(q, k, d);
    }
  }

  /** The table grows with the coefficient. */
  lemma PressTableNondecreasing(distanceSq: nat)
    ensures forall i, j :: 0 <= i <= j < |PressTable(distanceSq)| ==> PressTable(distanceSq)[i] <= PressTable(distanceSq)[j]
  {
    var t := PressTable(distanceSq);
    forall i, j | 0 <= i <= j < |t|
      ensures t[i] <= t[j]
    {
      assert Coefficients[i] <= Coefficients[j];
      assert t[i] == TruncRootTimes(distanceSq as real, Coefficients[i]);
      assert t[j] == TruncRootTimes(distanceSq as real, Coefficients[j]);
      TruncRootTimesMonotone(distanceSq as real, Coefficients[i], Coefficients[j]);
    }
  }
}
