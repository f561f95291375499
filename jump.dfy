/**
 * The production selector and jump of `main.py`: from the detector's boxes to
 * one distance (`Jump.predict`) and from that distance to one press
 * (`Jump.jump`).
 */
module Jump {
  import opened Wrappers
  import opened Numeric
  import opened Seqs
  import opened Actuation

  /** One detection in YOLO `xywh` form: centre `(x, y)`, width, height; class id; confidence. */
  datatype Box = Box(cls: int, x: real, y: real, w: real, h: real, conf: real)

  /** Class 1 is the player ("humen"), class 0 a platform ("cube"); other classes are ignored. */
  predicate IsPlayer(b: Box) { b.cls == 1 }
  predicate IsPlatform(b: Box) { b.cls == 0 }

  function Conf(b: Box): real { b.conf }
  function Width(b: Box): real { b.w }

  /**
   * The "already passed" filter: a platform is kept when its `y + h/2` lies
   * above the player's `y + h`.
   */
  predicate Ahead(c: Box, p: Box) { c.y + c.h / 2.0 < p.y + p.h }

  /** Squared distance from a platform's `(x, y)` to the player's anchor `(x, y + h/2)`. */
  function DistSq(c: Box, p: Box): (q: real)
    ensures 0.0 <= q
  {
    var dx, dy := c.x - p.x, c.y - (p.y + p.h * 0.5);
    dx * dx + dy * dy
  }

  /** The minimum distance of 50 pixels, squared. */
  const MinDistSq: real := 2500.0

  predicate FarEnough(c: Box, p: Box) { DistSq(c, p) > MinDistSq }

  /** A platform that survives both filters for player `p`. */
  predicate Candidate(c: Box, p: Box) { IsPlatform(c) && Ahead(c, p) && FarEnough(c, p) }

  function AheadOf(p: Box): Box -> bool { c => Ahead(c, p) }
  function FarFrom(p: Box): Box -> bool { c => FarEnough(c, p) }
  function CandidateFor(p: Box): Box -> bool { c => Candidate(c, p) }

  /** What the selector decided, with the reason when there is no target. */
  datatype Selection =
    | NoBoxes
    | NoPlayer
    | NoPlatform
    | AllBehind
    | NoneFarEnough
    | Target(player: Box, target: Box, distSq: real)

  function Players(bs: seq<Box>): seq<Box> { Filter(bs, IsPlayer) }

  /** The player box: the class-1 box of highest confidence (`np.argmax`). */
  function BestPlayer(bs: seq<Box>): Box
    requires |Players(bs)| > 0
  {
    Players(bs)[ArgMax(Players(bs), Conf)]
  }

  /** The selection `Jump.predict` makes, step by step as the source does it. */
  function Select(bs: seq<Box>): Selection
  {
    if |bs| == 0 then NoBoxes
    else if |Players(bs)| == 0 then NoPlayer
    else SelectPlatform(bs, BestPlayer(bs))
  }

  /** The platform half of the selection, once the player `p` is known. */
  function SelectPlatform(bs: seq<Box>, p: Box): Selection
  {
    var cubes := Filter(bs, IsPlatform);
    if |cubes| == 0 then NoPlatform
    else
      var ahead := Filter(cubes, AheadOf(p));
      if |ahead| == 0 then AllBehind
      else
        var cands := Filter(ahead, FarFrom(p));
        if |cands| == 0 then NoneFarEnough
        else
          var t := cands[ArgMax(cands, Width)];
          Target(p, t, DistSq(t, p))
  }

  /** What `predict` returns for a selection: `0 if distance < 50 else round(distance, 3)`. */
  function Value(s: Selection): real
  {
    match s
    case Target(_, _, q) => if q < MinDistSq then 0.0 else RoundMilli(q)
    case _ => 0.0
  }

  /** `Jump.predict` on the detector's boxes; its loop builds the list of platforms ahead. */
  method Predict(bs: seq<Box>) returns (distance: real)
    ensures distance == Value(Select(bs))
  {
    if |bs| == 0 {
      return 0.0;
    }
    var humans := Filter(bs, IsPlayer);
    if |humans| == 0 {
      return 0.0;
    }
    var p := humans[ArgMax(humans, Conf)];
    var cubes := Filter(bs, IsPlatform);
    if |cubes| == 0 {
      return 0.0;
    }
    var valid: seq<Box> := [];
    var i := 0;
    while i < |cubes|
      invariant 0 <= i <= |cubes|
      invariant valid == Filter(cubes[..i], AheadOf(p))
    {
      assert cubes[..i + 1][..i] == cubes[..i];
      if cubes[i].y + cubes[i].h / 2.0 < p.y + p.h {
        valid := valid + [cubes[i]];
      }
      i := i + 1;
    }
    assert cubes[..i] == cubes;
    if |valid| == 0 {
      return 0.0;
    }
    var cands := Filter(valid, FarFrom(p));
    if |cands| == 0 {
      return 0.0;
    }
    var t := cands[ArgMax(cands, Width)];
    var q := DistSq(t, p);
    distance := if q < MinDistSq then 0.0 else RoundMilli(q);
  }

  /** `int(distance * k)`: the press duration in milliseconds, truncated. */
  function PressTime(distance: real, k: real): int
  {
    Trunc(distance * k)
  }

  /**
   * How `Jump.jump` ends after the screenshot: `randint` raised before any
   * press, or the press was made and the `time.sleep` after it either slept
   * or raised `ValueError` on a negative argument.
   */
  datatype JumpEnd = RandintRaised(error: TapError) | Pressed(tap: Tap, sleepRaised: bool)

  /** `time.sleep(press_time / 1000 + 1)` is given a negative number of seconds. */
  predicate SleepRaises(pressTime: int) { (pressTime as real) / 1000.0 + 1.0 < 0.0 }

  /**
   * `Jump.jump` after the screenshot: predict, convert to a press duration and
   * press once at a random point of the band, then sleep a second longer than
   * the press. A distance of 0 still presses, for 0 ms.
   */
  method JumpOnce(bs: seq<Box>, k: real, width: int, height: int) returns (r: JumpEnd)
    ensures r.RandintRaised? <==> !BandNonEmpty(width, height)
    ensures r.Pressed? ==> r.tap.durationMs == PressTime(Value(Select(bs)), k)
    ensures r.Pressed? ==> InBand(r.tap.x, r.tap.y, width, height)
    ensures r.Pressed? ==> (r.sleepRaised <==> PressTime(Value(Select(bs)), k) < -1000)
  {
    var distance := Predict(bs);
    var pressTime := PressTime(distance, k);
    var point := ChooseTapPoint(width, height);
    if point.Err? {
      return RandintRaised(point.error);
    }
    SleepRaisesIff(pressTime);
    r := Pressed(Tap(point.value.0, point.value.1, pressTime), SleepRaises(pressTime));
  }

  /** The sleep after the press raises exactly when the press time is below -1000 ms. */
  lemma SleepRaisesIff(pressTime: int)
    ensures SleepRaises(pressTime) <==> pressTime < -1000
  {
    var t := pressTime as real;
    assert t / 1000.0 + 1.0 == (t + 1000.0) / 1000.0;
  }

  lemma PressTimeNonNegative(v: real, k: real)
    requires 0.0 <= v && 0.0 <= k
    ensures 0 <= PressTime(v, k)
  {
    assert 0.0 <= v * k;
  }

  /** With a non-negative coefficient the press time is never negative, so the sleep never raises. */
  lemma NonNegativeCoefficientSleeps(bs: seq<Box>, k: real)
    requires 0.0 <= k
    ensures 0 <= PressTime(Value(Select(bs)), k)
    ensures !SleepRaises(PressTime(Value(Select(bs)), k))
  {
    var v := Value(Select(bs));
    ValueZeroOrAtLeast50(bs);
    PressTimeNonNegative(v, k);
    SleepRaisesIff(PressTime(v, k));
  }

  // ---------------------------------------------------------------------
  // What the selection guarantees.

  /** There is no box at all, or no player box, exactly when those reasons are given. */
  lemma SelectReasons(bs: seq<Box>)
    ensures Select(bs).NoBoxes? <==> |bs| == 0
    ensures Select(bs).NoPlayer? <==> |bs| > 0 && forall i :: 0 <= i < |bs| ==> !IsPlayer(bs[i])
  {
    FilterEmptyIff(bs, IsPlayer);
  }

  /** With a player present, "no platform" is given exactly when no class-0 box exists. */
  lemma NoPlatformIff(bs: seq<Box>)
    requires |Players(bs)| > 0
    ensures Select(bs).NoPlatform? <==> forall i :: 0 <= i < |bs| ==> !IsPlatform(bs[i])
  {
    assert Select(bs) == SelectPlatform(bs, BestPlayer(bs));
    FilterEmptyIff(bs, IsPlatform);
  }

  /** The player is the earliest class-1 box of maximal confidence. */
  lemma PlayerChoice(bs: seq<Box>, w: nat)
    requires w < |bs| && IsPlayer(bs[w])
    ensures |Players(bs)| > 0
    ensures FirstMaxOf(bs, IsPlayer, Conf, BestPlayer(bs))
  {
    FilterArgMax(bs, IsPlayer, Conf, w);
  }

  /** The candidates are exactly the platforms that pass both filters, in input order. */
  lemma CandidatesAre(bs: seq<Box>, p: Box)
    ensures Filter(Filter(Filter(bs, IsPlatform), AheadOf(p)), FarFrom(p)) == Filter(bs, CandidateFor(p))
  {
    var cubes := Filter(bs, IsPlatform);
    var both: Box -> bool := c => IsPlatform(c) && Ahead(c, p);
    FilterFilter(bs, IsPlatform, AheadOf(p), both);
    FilterFilter(bs, both, FarFrom(p), CandidateFor(p));
  }

  /** Helper of `TargetChoice`: unfolds `Select` into the filters a target comes from. */
  lemma TargetShape(bs: seq<Box>)
    requires Select(bs).Target?
    ensures var s := Select(bs);
      var cands := Filter(Filter(Filter(bs, IsPlatform), AheadOf(s.player)), FarFrom(s.player));
      && |Players(bs)| > 0 && s.player == BestPlayer(bs)
      && |cands| > 0 && s.target == cands[ArgMax(cands, Width)]
      && s.distSq == DistSq(s.target, s.player)
  {
  }

  /**
   * When there is a target it is the earliest widest candidate: a class-0 box
   * that passes the behind filter and lies more than 50 pixels from the
   * anchor; the value returned is its distance, rounded, at least 50.
   */
  lemma TargetChoice(bs: seq<Box>)
    requires Select(bs).Target?
    ensures var s := Select(bs);
      && s.player == BestPlayer(bs)
      && s.distSq == DistSq(s.target, s.player) && s.distSq > MinDistSq
      && FirstMaxOf(bs, CandidateFor(s.player), Width, s.target)
      && Value(s) == RoundMilli(s.distSq) && 50.0 <= Value(s)
  {
    var s := Select(bs);
    TargetShape(bs);
    WidestCandidate(bs, s.player);
    ValueOfTarget(s);
  }

  /** The widest of the filtered platforms is the earliest widest candidate, and it is far enough. */
  lemma WidestCandidate(bs: seq<Box>, p: Box)
    requires |Filter(Filter(Filter(bs, IsPlatform), AheadOf(p)), FarFrom(p))| > 0
    ensures var cands := Filter(Filter(Filter(bs, IsPlatform), AheadOf(p)), FarFrom(p));
      var t := cands[ArgMax(cands, Width)];
      FirstMaxOf(bs, CandidateFor(p), Width, t) && DistSq(t, p) > MinDistSq
  {
    CandidatesAre(bs, p);
    var cands := Filter(bs, CandidateFor(p));
    var t := cands[ArgMax(cands, Width)];
    assert t in cands && Candidate(t, p);
    var w :| 0 <= w < |bs| && bs[w] == t;
    FilterArgMax(bs, CandidateFor(p), Width, w);
  }

  /** A target beyond 50 pixels is reported as its rounded distance, at least 50. */
  lemma ValueOfTarget(s: Selection)
    requires s.Target? && s.distSq > MinDistSq
    ensures Value(s) == RoundMilli(s.distSq) && 50.0 <= Value(s)
  {
  }

  /** The platforms ahead are exactly the class-0 boxes that pass the behind filter. */
  lemma AllBehindIff(bs: seq<Box>)
    requires |Players(bs)| > 0
    ensures Select(bs).AllBehind? <==>
      (exists i :: 0 <= i < |bs| && IsPlatform(bs[i]))
      && forall i :: 0 <= i < |bs| && IsPlatform(bs[i]) ==> !Ahead(bs[i], BestPlayer(bs))
  {
    var p := BestPlayer(bs);
    assert Select(bs) == SelectPlatform(bs, p);
    var both: Box -> bool := c => IsPlatform(c) && Ahead(c, p);
    FilterFilter(bs, IsPlatform, AheadOf(p), both);
    FilterEmptyIff(bs, IsPlatform);
    FilterEmptyIff(bs, both);
  }

  /** With a player present, a target is chosen exactly when some box is a candidate. */
  lemma TargetIff(bs: seq<Box>)
    requires |Players(bs)| > 0
    ensures Select(bs).Target? <==> exists i :: 0 <= i < |bs| && Candidate(bs[i], BestPlayer(bs))
  {
    var p := BestPlayer(bs);
    assert Select(bs) == SelectPlatform(bs, p);
    CandidatesAre(bs, p);
    FilterEmptyIff(bs, CandidateFor(p));
  }

  /**
   * With a player present, "none far enough" is given exactly when some
   * platform passes the behind filter and every such platform lies within
   * 50 pixels of the anchor.
   */
  lemma NoneFarEnoughIff(bs: seq<Box>)
    requires |Players(bs)| > 0
    ensures var p := BestPlayer(bs);
      Select(bs).NoneFarEnough? <==>
        (exists i :: 0 <= i < |bs| && IsPlatform(bs[i]) && Ahead(bs[i], p))
        && forall i :: 0 <= i < |bs| && IsPlatform(bs[i]) && Ahead(bs[i], p) ==> !FarEnough(bs[i], p)
  {
    var p := BestPlayer(bs);
    assert Select(bs) == SelectPlatform(bs, p);
    NoPlatformIff(bs);
    AllBehindIff(bs);
    TargetIff(bs);
  }

  /** `predict` returns 0 exactly when there is no target, and otherwise at least 50. */
  lemma ValueZeroOrAtLeast50(bs: seq<Box>)
    ensures Value(Select(bs)) == 0.0 <==> !Select(bs).Target?
    ensures Value(Select(bs)) == 0.0 || 50.0 <= Value(Select(bs))
  {
    if Select(bs).Target? {
      TargetChoice(bs);
    }
  }

  /** A box of any class other than 0 and 1, wherever it stands, changes nothing once there is some other box. */
  lemma OtherClassesIgnored(a: seq<Box>, b: Box, c: seq<Box>)
    requires !IsPlayer(b) && !IsPlatform(b)
    ensures |a + c| > 0 ==> Select(a + [b] + c) == Select(a + c)
    ensures Value(Select(a + [b] + c)) == Value(Select(a + c))
  {
    var s := a + [b] + c;
    IgnoredAnywhere(a, b, c, IsPlayer);
    IgnoredAnywhere(a, b, c, IsPlatform);
    if |Players(a + c)| > 0 {
      assert BestPlayer(s) == BestPlayer(a + c);
      assert SelectPlatform(s, BestPlayer(s)) == SelectPlatform(a + c, BestPlayer(a + c));
    }
  }

  /** A box the mask rejects can be dropped from any position without changing the filtered list. */
  lemma IgnoredAnywhere(a: seq<Box>, b: Box, c: seq<Box>, p: Box -> bool)
    requires !p(b)
    ensures Filter(a + [b] + c, p) == Filter(a + c, p)
  {
    FilterAppend(a + [b], c, p);
    FilterAppend(a, [b], p);
    FilterAppend(a, c, p);
    assert Filter([b], p) == [];
  }

  // ---------------------------------------------------------------------
  // Worked examples.

  /** With one player and two candidates, the wider candidate wins, and the first of two equally wide. */
  lemma {:induction false} PickOfTwo(p: Box, a: Box, b: Box)
    requires IsPlayer(p) && Candidate(a, p) && Candidate(b, p)
    ensures var t := if a.w < b.w then b else a;
      Select([p, a, b]) == Target(p, t, DistSq(t, p))
  {
    FilterThree(p, a, b, IsPlayer);
    FilterThree(p, a, b, IsPlatform);
    var cubes := [a, b];
    assert cubes[..1] == [a] && [a][..0] == [];
    assert Filter(cubes, AheadOf(p)) == cubes;
    assert Filter(cubes, FarFrom(p)) == cubes;
  }

  /** The widest candidate is chosen whatever the order of the detections. */
  lemma WiderWinsInEitherOrder(p: Box, a: Box, b: Box)
    requires IsPlayer(p) && Candidate(a, p) && Candidate(b, p) && b.w < a.w
    ensures Select([p, a, b]).Target? && Select([p, a, b]).target == a
    ensures Select([p, b, a]).Target? && Select([p, b, a]).target == a
  {
    PickOfTwo(p, a, b);
    PickOfTwo(p, b, a);
  }

  /**
   * Between two equally wide candidates the earlier detection wins, so the
   * selection is not invariant under reordering the detector's output.
   */
  lemma OrderMatters(p: Box, a: Box, b: Box)
    requires IsPlayer(p) && Candidate(a, p) && Candidate(b, p) && a.w == b.w && a != b
    ensures Select([p, a, b]).Target? && Select([p, b, a]).Target?
    ensures Select([p, a, b]).target != Select([p, b, a]).target
  {
    PickOfTwo(p, a, b);
    PickOfTwo(p, b, a);
  }

  /**
   * Because the filter compares the platform's `y + h/2` with the player's
   * `y + h`, rather than with the player's bottom edge `y + h/2`, a platform
   * whose centre lies below the player's feet can still be the target.
   */
  lemma PlatformBelowFeetCanBeTarget(p: Box, c: Box)
    requires p == Box(1, 100.0, 500.0, 50.0, 100.0, 0.9)
    requires c == Box(0, 300.0, 560.0, 80.0, 20.0, 0.8)
    ensures c.y > p.y + p.h / 2.0
    ensures Select([p, c]) == Target(p, c, 40100.0)
  {
    var bs := [p, c];
    assert bs[..1] == [p] && [p][..0] == [] && [c][..0] == [];
    assert Filter([p], IsPlayer) == [p] && Filter([p], IsPlatform) == [];
    assert Players(bs) == [p];
    assert Filter(bs, IsPlatform) == [c];
    assert Filter([c], AheadOf(p)) == [c];
    assert Filter([c], FarFrom(p)) == [c];
  }

  /**
   * A player at (100, 800) of size 50 x 100 and platforms at (300, 600), 80
   * wide, and (400, 700), 40 wide: the wider one is the target, about 320.156
   * pixels away, and with k = 1.18 the press lasts 377 ms (the product
   * 377.78... is truncated, not rounded).
   */
  lemma WidestWinsExample(p: Box, wide: Box, narrow: Box)
    requires p == Box(1, 100.0, 800.0, 50.0, 100.0, 0.9)
    requires wide == Box(0, 300.0, 600.0, 80.0, 40.0, 0.8)
    requires narrow == Box(0, 400.0, 700.0, 40.0, 40.0, 0.7)
    ensures Select([p, wide, narrow]) == Target(p, wide, 102500.0)
    ensures Value(Select([p, wide, narrow])) == 320.156
    ensures PressTime(Value(Select([p, wide, narrow])), 1.18) == 377
  {
    PickOfTwo(p, wide, narrow);
    RootOfScenario(102500.0);
  }

  lemma RootOfScenario(q: real)
    requires q == 102500.0
    ensures RoundMilli(q) == 320.156
  {
    var v := q * 1000000.0;
    FloorSqrtUnique(v, 320156);
    assert RoundRoot(v) == 320156;
  }
}
