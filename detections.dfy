/**
 * Detections as the debugging and analysis tools read them from the detector:
 * a class name, a confidence and a corner box. Shared by `DebugJump` and
 * `AnalyzeScreenshot`, which convert them the same way.
 */
module Detections {
  import opened Wrappers
  import opened Numeric

  /** A pixel position with integer coordinates. */
  datatype Point = Point(x: int, y: int)

  /** One detection: class name, confidence and corners `(x1, y1, x2, y2)`. */
  datatype Raw = Raw(name: string, conf: real, x1: real, y1: real, x2: real, y2: real)

  /** The detector's class names for the player and for a platform. */
  const PlayerClass: string := "humen"
  const PlatformClass: string := "cube"

  /** A box's centre: each coordinate's midpoint truncated by `int`. */
  function Center(d: Raw): (c: Point)
    ensures 0.0 <= d.x1 <= d.x2 ==> d.x1 - 1.0 < c.x as real <= d.x2
    ensures 0.0 <= d.y1 <= d.y2 ==> d.y1 - 1.0 < c.y as real <= d.y2
  {
    Point(Trunc((d.x1 + d.x2) / 2.0), Trunc((d.y1 + d.y2) / 2.0))
  }

  /** The per-detection record both tools keep: class, confidence, integer box, centre. */
  datatype Record = Record(name: string, conf: real, bbox: (int, int, int, int), center: Point)

  function ToRecord(d: Raw): Record
  {
    Record(d.name, d.conf, (Trunc(d.x1), Trunc(d.y1), Trunc(d.x2), Trunc(d.y2)), Center(d))
  }

  /** Squared Euclidean distance between two points; zero exactly when they coincide. */
  function SqDist(a: Point, b: Point): (q: nat)
    ensures q == 0 <==> a == b
  {
    var dx, dy := a.x - b.x, a.y - b.y;
    SquarePositive(dx);
    SquarePositive(dy);
    dx * dx + dy * dy
  }

  lemma SquarePositive(z: int)
    ensures z != 0 ==> z * z > 0
  {
    if z < 0 { assert z * z == (-z) * (-z); }
  }

  /** The centre of the last player detection, if any (later ones overwrite earlier ones). */
  function LastPlayer(ds: seq<Raw>): Option<Point>
  {
    if ds == [] then None
    else if ds[|ds| - 1].name == PlayerClass then Some(Center(ds[|ds| - 1]))
    else LastPlayer(ds[..|ds| - 1])
  }

  /** `ds[i]` is a player detection and no later detection is one. */
  ghost predicate LastPlayerAt(ds: seq<Raw>, i: int)
  {
    0 <= i < |ds| && ds[i].name == PlayerClass && forall j :: i < j < |ds| ==> ds[j].name != PlayerClass
  }

  /** `LastPlayer` is `None` exactly when no detection is named "humen". */
  lemma {:induction false} NoPlayerIff(ds: seq<Raw>)
    ensures LastPlayer(ds).None? <==> forall i :: 0 <= i < |ds| ==> ds[i].name != PlayerClass
  {
    if ds != [] {
      var ds' := ds[..|ds| - 1];
      NoPlayerIff(ds');
      assert forall i :: 0 <= i < |ds'| ==> ds'[i] == ds[i];
    }
  }

  /** `LastPlayer` is the centre of the player detection that no later one follows. */
  lemma {:induction false} LastPlayerIsLast(ds: seq<Raw>)
    ensures LastPlayer(ds).Some? ==> exists i :: LastPlayerAt(ds, i) && LastPlayer(ds).value == Center(ds[i])
  {
    if ds != [] {
      var n := |ds|;
      if ds[n - 1].name == PlayerClass {
        assert LastPlayerAt(ds, n - 1);
      } else {
        var ds' := ds[..n - 1];
        assert LastPlayer(ds) == LastPlayer(ds');
        LastPlayerIsLast(ds');
        if LastPlayer(ds').Some? {
          var i :| LastPlayerAt(ds', i) && LastPlayer(ds').value == Center(ds'[i]);
          LastPlayerExtends(ds, i);
        }
      }
    }
  }

  lemma LastPlayerExtends(ds: seq<Raw>, i: int)
    requires |ds| > 0 && ds[|ds| - 1].name != PlayerClass && LastPlayerAt(ds[..|ds| - 1], i)
    ensures LastPlayerAt(ds, i) && ds[i] == ds[..|ds| - 1][i]
  {
  }
}
