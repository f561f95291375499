/**
 * Pressing the screen: the press duration and the band of the screen in which
 * the tap point is drawn at random.
 */
module Actuation {
  import opened Wrappers
  import opened Numeric

  /** One press issued to the device: position and duration in milliseconds. */
  datatype Tap = Tap(x: int, y: int, durationMs: int)

  /** The exception `random.randint(a, b)` raises when `b < a`. */
  datatype TapError = EmptyRange

  /** The band's horizontal bounds `int(w*0.3)` and `int(w*0.7)`. */
  function BandLeft(w: int): int { Trunc(w as real * 0.3) }
  function BandRight(w: int): int { Trunc(w as real * 0.7) }

  /** The band's vertical bounds `int(h*0.6)` and `int(h*0.8)`. */
  function BandTop(h: int): int { Trunc(h as real * 0.6) }
  function BandBottom(h: int): int { Trunc(h as real * 0.8) }

  predicate BandNonEmpty(w: int, h: int)
  {
    BandLeft(w) <= BandRight(w) && BandTop(h) <= BandBottom(h)
  }

  predicate InBand(x: int, y: int, w: int, h: int)
  {
    BandLeft(w) <= x <= BandRight(w) && BandTop(h) <= y <= BandBottom(h)
  }

  /**
   * On a screen of non-negative size the band is never empty and lies inside
   * the screen, in its lower middle part.
   */
  lemma BandInsideScreen(w: int, h: int)
    requires 0 <= w && 0 <= h
    ensures BandNonEmpty(w, h)
    ensures 0 <= BandLeft(w) && BandRight(w) <= w
    ensures 0 <= BandTop(h) && BandBottom(h) <= h
  {
  }

  /** A screen of negative width has an empty band: `int(w*0.3) > int(w*0.7)`. */
  lemma NegativeWidthEmptiesBand(w: int, h: int)
    requires w <= -2
    ensures !BandNonEmpty(w, h)
  {
  }

  /**
   * Draws the tap point uniformly from the band (`random.randint` on each
   * axis, modelled as a free choice), or raises on an empty range.
   */
  method ChooseTapPoint(w: int, h: int) returns (r: Result<(int, int), TapError>)
    ensures r.Ok? <==> BandNonEmpty(w, h)
    ensures r.Ok? ==> InBand(r.value.0, r.value.1, w, h)
  {
    var x0, x1 := BandLeft(w), BandRight(w);
    if x1 < x0 {
      return Err(EmptyRange);
    }
    var x :| x0 <= x <= x1;
    var y0, y1 := BandTop(h), BandBottom(h);
    if y1 < y0 {
      return Err(EmptyRange);
    }
    var y :| y0 <= y <= y1;
    r := Ok((x, y));
  }
}
