/**
 * The device side: the ADB controller's screen-size query (parsing the text
 * `wm size` prints) and press command, and the Windows controller, which
 * finds its window lazily and converts window-relative taps to screen
 * coordinates.
 */
module DeviceController {
  import opened Wrappers
  import opened Numeric
  import opened Seqs
  import opened PyStr

  // ---------------------------------------------------------------------
  // ADB.

  /** The Python exceptions the size parser can let escape. */
  datatype PyError = ValueError | IndexError

  /** The marker tested with `in`, and the separator the size is split on (it has a trailing space). */
  const Marker: string := "Physical size:"
  const MarkerSep: string := "Physical size: "

  /** The size assumed when the query fails or prints no marker. */
  const DefaultAdbSize: (int, int) := (1080, 1920)

  /**
   * `width, height = map(int, size_str.split("x"))`: exactly two pieces,
   * each an integer literal, or `ValueError`.
   */
  function ParsePair(sizeStr: string): (r: Result<(int, int), PyError>)
    ensures r.Ok? ==>
      exists a, b :: Split(sizeStr, "x") == [a, b] && ParseInt(a) == Some(r.value.0) && ParseInt(b) == Some(r.value.1)
    ensures r.Err? <==>
      |Split(sizeStr, "x")| != 2 || ParseInt(Split(sizeStr, "x")[0]).None? || ParseInt(Split(sizeStr, "x")[1]).None?
    ensures r.Err? ==> r == Err(ValueError)
  {
    var parts := Split(sizeStr, "x");
    if |parts| != 2 then Err(ValueError)
    else
      var w, h := ParseInt(parts[0]), ParseInt(parts[1]);
      if w.Some? && h.Some? then
        assert parts == [parts[0], parts[1]];
        Ok((w.value, h.value))
      else Err(ValueError)
  }

  /**
   * `get_screen_size` on the text `wm size` printed, as written: strip it,
   * and when it contains the marker parse what follows `"Physical size: "`
   * (up to a second occurrence); otherwise the default size.
   */
  function ParseWmSize(out: string): (r: Result<(int, int), PyError>)
    ensures !Contains(Strip(out), Marker) ==> r == Ok(DefaultAdbSize)
    ensures r.Err? ==> Contains(Strip(out), Marker)
  {
    var line := Strip(out);
    if !Contains(line, Marker) then Ok(DefaultAdbSize)
    else
      var pieces := Split(line, MarkerSep);
      if |pieces| < 2 then Err(IndexError)
      else ParsePair(pieces[1])
  }

  /**
   * `AdbDeviceController.get_screen_size`: `None` stands for the failed
   * command (`CalledProcessError`), which gives the default size.
   */
  function AdbScreenSize(out: Option<string>): (r: Result<(int, int), PyError>)
    ensures out.None? ==> r == Ok(DefaultAdbSize)
    ensures out.Some? ==> r == ParseWmSize(out.value)
  {
    match out
    case None => Ok(DefaultAdbSize)
    case Some(text) => ParseWmSize(text)
  }

  /** Trailing whitespace, such as the newline the command prints. */
  predicate AllSpace(w: string) { forall i :: 0 <= i < |w| ==> IsSpace(w[i]) }

  /** `NatToString` never produces the characters the parser looks for. */
  lemma DigitsLack(n: nat, c: char)
    requires !IsDigit(c)
    ensures c !in NatToString(n)
  {
  }

  /** `"W" + "x" + "H"` splits on 'x' into the two numbers. */
  lemma SplitSize(w: nat, h: nat)
    ensures Split(NatToString(w) + "x" + NatToString(h), "x") == [NatToString(w), NatToString(h)]
  {
    DigitsLack(w, 'x');
    DigitsLack(h, 'x');
    SplitAtChar(NatToString(w), 'x', NatToString(h));
    NotContains(NatToString(h), "x", 'x');
  }

  /** The separator's text followed by `rest` that has no 'P' splits into an empty piece and `rest`. */
  lemma SplitAfterMarker(rest: string)
    requires 'P' !in rest
    ensures Split(MarkerSep + rest, MarkerSep) == ["", rest]
  {
    SplitAfterLeading(MarkerSep, rest);
    NotContains(rest, MarkerSep, 'P');
  }

  /** Text that starts with the separator contains the marker. */
  lemma MarkerFound(rest: string)
    ensures Contains(MarkerSep + rest, Marker)
  {
    assert MarkerSep + rest == Marker + (" " + rest);
    FindPrefix(Marker, " " + rest);
  }

  /** Once the stripped output is the separator followed by `rest`, the size is parsed from `rest`. */
  lemma ParseAfterMarker(out: string, rest: string)
    requires Strip(out) == MarkerSep + rest && 'P' !in rest
    ensures ParseWmSize(out) == ParsePair(rest)
    ensures ParseWmSizeFixed(out) == ParsePair(FirstLine(rest))
  {
    MarkerFound(rest);
    SplitAfterMarker(rest);
  }

  /** The command's output: the separator, a size text ending in a digit, trailing whitespace. */
  lemma StripOutput(rest: string, trail: string)
    requires |rest| > 0 && IsDigit(rest[|rest| - 1]) && AllSpace(trail)
    ensures Strip(MarkerSep + rest + trail) == MarkerSep + rest
  {
    var line := MarkerSep + rest;
    assert line[|line| - 1] == rest[|rest| - 1];
    assert line[0] == 'P';
    StripTrailing(line, trail);
  }

  /** Both parsers on the command's output: the separator, a size text `rest`, trailing whitespace. */
  lemma ParseOutput(out: string, rest: string, trail: string)
    requires out == MarkerSep + rest + trail && AllSpace(trail)
    requires |rest| > 0 && IsDigit(rest[|rest| - 1]) && 'P' !in rest
    ensures ParseWmSize(out) == ParsePair(rest)
    ensures ParseWmSizeFixed(out) == ParsePair(FirstLine(rest))
  {
    StripOutput(rest, trail);
    ParseAfterMarker(out, rest);
  }

  /** `"WxH"` parses to `(W, H)`. */
  lemma ParsePairOfSize(w: nat, h: nat)
    ensures ParsePair(NatToString(w) + "x" + NatToString(h)) == Ok((w, h))
  {
    SplitSize(w, h);
    ParseIntToString(w);
    ParseIntToString(h);
  }

  /** The usual output `"Physical size: WxH"` (plus a newline) parses to `(W, H)`. */
  lemma WmSizeRoundTrip(w: nat, h: nat, trail: string)
    requires AllSpace(trail)
    ensures ParseWmSize(MarkerSep + NatToString(w) + "x" + NatToString(h) + trail) == Ok((w, h))
  {
    var ws, hs := NatToString(w), NatToString(h);
    var rest := ws + "x" + hs;
    assert rest[|rest| - 1] == hs[|hs| - 1];
    DigitsLack(w, 'P');
    DigitsLack(h, 'P');
    Assoc(MarkerSep, ws + "x", hs);
    Assoc(MarkerSep, ws, "x");
    ParseOutput(MarkerSep + ws + "x" + hs + trail, rest, trail);
    ParsePairOfSize(w, h);
  }

  /** When the colon is not followed by a space, `split(...)[1]` raises `IndexError`. */
  lemma MarkerWithoutSpaceRaises(w: nat, h: nat)
    ensures ParseWmSize(Marker + NatToString(w) + "x" + NatToString(h)) == Err(IndexError)
  {
    var rest := NatToString(w) + "x" + NatToString(h);
    Assoc(Marker, NatToString(w) + "x", NatToString(h));
    Assoc(Marker, NatToString(w), "x");
    SizeTextShape(w, h);
    MarkerThenDigits(Marker + rest, rest);
  }

  /** `"WxH"` starts and ends with a digit and holds no colon. */
  lemma SizeTextShape(w: nat, h: nat)
    ensures var rest := NatToString(w) + "x" + NatToString(h);
      |rest| > 0 && IsDigit(rest[0]) && IsDigit(rest[|rest| - 1]) && ':' !in rest
  {
    var rest := NatToString(w) + "x" + NatToString(h);
    DigitsLack(w, ':');
    DigitsLack(h, ':');
    assert rest[0] == NatToString(w)[0];
    assert rest[|rest| - 1] == NatToString(h)[|NatToString(h)| - 1];
  }

  /** The marker directly followed by text that starts and ends with a digit and has no colon. */
  lemma MarkerThenDigits(out: string, rest: string)
    requires out == Marker + rest
    requires |rest| > 0 && IsDigit(rest[0]) && IsDigit(rest[|rest| - 1]) && ':' !in rest
    ensures ParseWmSize(out) == Err(IndexError)
  {
    assert out[0] == 'P' && out[|out| - 1] == rest[|rest| - 1];
    StripUnchanged(out);
    FindPrefix(Marker, rest);
    NoSpaceAfterColon(rest);
    assert Split(out, MarkerSep) == [out];
  }

  /** The separator needs a space right after the colon, which `rest` does not supply. */
  lemma NoSpaceAfterColon(rest: string)
    requires |rest| > 0 && IsDigit(rest[0]) && ':' !in rest
    ensures Find(Marker + rest, MarkerSep).None?
  {
    var line := Marker + rest;
    forall j | 0 <= j && j + |MarkerSep| <= |line|
      ensures !OccursAt(line, MarkerSep, j)
    {
      if j == 0 {
        // the separator's space would have to be the first digit
        assert line[j..j + |MarkerSep|][14] == rest[0];
      } else {
        // the separator's colon would have to lie inside the digits
        assert line[j..j + |MarkerSep|][13] == rest[j - 1];
      }
    }
  }

  /** The line a device with a changed resolution prints after the physical size. */
  const OverrideSep: string := "\nOverride size: "

  /**
   * A device whose resolution was changed prints a second line
   * `"Override size: W2xH2"`; the text after the marker then splits on 'x'
   * into three pieces and the unpacking raises `ValueError`.
   */
  lemma OverrideOutputRejected(w: nat, h: nat, w2: nat, h2: nat, trail: string)
    requires AllSpace(trail)
    ensures ParseWmSize(MarkerSep + NatToString(w) + "x" + NatToString(h)
                        + OverrideSep + NatToString(w2) + "x" + NatToString(h2) + trail)
            == Err(ValueError)
  {
    OverrideOutputShape(w, h, w2, h2, trail);
    ParseOutput(MarkerSep + NatToString(w) + "x" + NatToString(h)
                + OverrideSep + NatToString(w2) + "x" + NatToString(h2) + trail,
                OverrideRest(w, h, w2, h2), trail);
    OverrideSplitsInThree(w, h, w2, h2);
  }

  lemma Assoc(a: string, b: string, c: string)
    ensures a + (b + c) == a + b + c
  {
  }

  /** The two-line output is the separator, `OverrideRest`, and the trailing whitespace. */
  lemma OverrideOutputShape(w: nat, h: nat, w2: nat, h2: nat, trail: string)
    ensures MarkerSep + NatToString(w) + "x" + NatToString(h) + OverrideSep + NatToString(w2) + "x" + NatToString(h2) + trail
            == MarkerSep + OverrideRest(w, h, w2, h2) + trail
  {
    var ws, hs, ws2, hs2 := NatToString(w), NatToString(h), NatToString(w2), NatToString(h2);
    var m := MarkerSep;
    Assoc(m, ws + "x" + hs + OverrideSep + ws2 + "x", hs2);
    Assoc(m, ws + "x" + hs + OverrideSep + ws2, "x");
    Assoc(m, ws + "x" + hs + OverrideSep, ws2);
    Assoc(m, ws + "x" + hs, OverrideSep);
    Assoc(m, ws + "x", hs);
    Assoc(m, ws, "x");
  }

  /** The text after the marker in the two-line output. */
  function OverrideRest(w: nat, h: nat, w2: nat, h2: nat): (rest: string)
    ensures |rest| > 0 && IsDigit(rest[|rest| - 1]) && 'P' !in rest
  {
    var hs2 := NatToString(h2);
    DigitsLack(w, 'P');
    DigitsLack(h, 'P');
    DigitsLack(w2, 'P');
    DigitsLack(h2, 'P');
    var rest := NatToString(w) + "x" + NatToString(h) + OverrideSep + NatToString(w2) + "x" + hs2;
    assert rest[|rest| - 1] == hs2[|hs2| - 1];
    rest
  }

  lemma OverrideSplitsInThree(w: nat, h: nat, w2: nat, h2: nat)
    ensures ParsePair(OverrideRest(w, h, w2, h2)) == Err(ValueError)
  {
    var ws, hs, ws2, hs2 := NatToString(w), NatToString(h), NatToString(w2), NatToString(h2);
    var middle := hs + OverrideSep + ws2;
    DigitsLack(w, 'x');
    DigitsLack(h, 'x');
    DigitsLack(w2, 'x');
    DigitsLack(h2, 'x');
    assert 'x' !in middle;
    assert OverrideRest(w, h, w2, h2) == ws + ['x'] + (middle + ['x'] + hs2);
    ThreePieces(ws, middle, hs2);
  }

  /** Three pieces free of 'x', joined by 'x', split back into three. */
  lemma ThreePieces(a: string, b: string, c: string)
    requires 'x' !in a && 'x' !in b && 'x' !in c
    ensures Split(a + ['x'] + (b + ['x'] + c), "x") == [a, b, c]
  {
    SplitAtChar(a, 'x', b + ['x'] + c);
    SplitAtChar(b, 'x', c);
    NotContains(c, "x", 'x');
  }

  /** The text before the first newline. */
  function FirstLine(s: string): (r: string)
    ensures '\n' !in r
    ensures r <= s
  {
    match Find(s, "\n")
    case None => NotNewline(s); s
    case Some(i) => NoEarlierOccurrence(s, "\n", i); NotNewline(s[..i]); s[..i]
  }

  lemma NotNewline(s: string)
    requires Find(s, "\n").None?
    ensures '\n' !in s
  {
    if '\n' in s {
      var i :| 0 <= i < |s| && s[i] == '\n';
      assert s[i..i + 1] == "\n";
      assert OccursAt(s, "\n", i);
    }
  }

  /**
   * The parser as evidently intended: only the first line after the marker
   * holds the physical size.
   */
  function ParseWmSizeFixed(out: string): (r: Result<(int, int), PyError>)
    ensures !Contains(Strip(out), Marker) ==> r == Ok(DefaultAdbSize)
  {
    var line := Strip(out);
    if !Contains(line, Marker) then Ok(DefaultAdbSize)
    else
      var pieces := Split(line, MarkerSep);
      if |pieces| < 2 then Err(IndexError)
      else ParsePair(FirstLine(pieces[1]))
  }

  /** The fixed parser agrees with the original on single-line output. */
  lemma FixedAgreesOnOneLine(out: string)
    requires '\n' !in Strip(out)
    ensures ParseWmSizeFixed(out) == ParseWmSize(out)
  {
    var line := Strip(out);
    if Contains(line, Marker) {
      var pieces := Split(line, MarkerSep);
      if |pieces| >= 2 {
        SplitJoin(line, MarkerSep);
        PieceOfJoin(pieces, MarkerSep, 1);
        assert '\n' !in pieces[1];
        NewlineFree(pieces[1]);
      }
    }
  }

  /** Every piece of a join is a contiguous part of it. */
  lemma {:induction false} PieceOfJoin(pieces: seq<string>, sep: string, k: nat)
    requires k < |pieces|
    ensures forall c :: c in pieces[k] ==> c in Join(pieces, sep)
  {
    if k > 0 {
      PieceOfJoin(pieces[1..], sep, k - 1);
      assert pieces[1..][k - 1] == pieces[k];
    }
  }

  lemma NewlineFree(s: string)
    requires '\n' !in s
    ensures FirstLine(s) == s
  {
    NotContains(s, "\n", '\n');
  }

  /** The fixed parser reads the physical size from the two-line output the original rejects. */
  lemma FixedParsesOverride(w: nat, h: nat, w2: nat, h2: nat, trail: string)
    requires AllSpace(trail)
    ensures ParseWmSizeFixed(MarkerSep + NatToString(w) + "x" + NatToString(h)
                             + OverrideSep + NatToString(w2) + "x" + NatToString(h2) + trail)
            == Ok((w, h))
  {
    OverrideOutputShape(w, h, w2, h2, trail);
    ParseOutput(MarkerSep + NatToString(w) + "x" + NatToString(h)
                + OverrideSep + NatToString(w2) + "x" + NatToString(h2) + trail,
                OverrideRest(w, h, w2, h2), trail);
    OverrideFirstLine(w, h, w2, h2);
    ParsePairOfSize(w, h);
  }

  lemma OverrideFirstLine(w: nat, h: nat, w2: nat, h2: nat)
    ensures FirstLine(OverrideRest(w, h, w2, h2)) == NatToString(w) + "x" + NatToString(h)
  {
    var ws, hs, ws2, hs2 := NatToString(w), NatToString(h), NatToString(w2), NatToString(h2);
    var first := ws + "x" + hs;
    DigitsLack(w, '\n');
    DigitsLack(h, '\n');
    assert '\n' !in first;
    var after := "Override size: " + ws2 + "x" + hs2;
    assert OverrideRest(w, h, w2, h2) == first + ['\n'] + after;
    FindCharAt(first, '\n', after);
  }

  /** The arguments of the ADB press: a swipe that starts and ends at the same point. */
  function AdbTapArgs(x: int, y: int, durationMs: int): (args: seq<string>)
    ensures |args| == 9 && args[..4] == ["adb", "shell", "input", "swipe"]
    ensures args[4] == args[6] && args[5] == args[7]
  {
    ["adb", "shell", "input", "swipe",
     IntToString(x), IntToString(y), IntToString(x), IntToString(y), IntToString(durationMs)]
  }

  /** The device reads back the same position and duration from the arguments. */
  lemma AdbTapArgsRoundTrip(x: int, y: int, durationMs: int)
    ensures var args := AdbTapArgs(x, y, durationMs);
      ParseInt(args[4]) == Some(x) && ParseInt(args[5]) == Some(y) && ParseInt(args[8]) == Some(durationMs)
  {
    ParseIntToString(x);
    ParseIntToString(y);
    ParseIntToString(durationMs);
  }

  // ---------------------------------------------------------------------
  // Windows.

  /** A window rectangle in screen coordinates. */
  datatype Rect = Rect(left: int, top: int, right: int, bottom: int)

  /** What the window manager reports about one top-level window. */
  datatype Window = Window(
    handle: nat,
    visible: bool,
    text: string,
    rect: Rect,
    clientWidth: int,
    clientHeight: int,
    clientLeft: int,
    clientTop: int)

  /** The top-level windows in the order `EnumWindows` visits them. */
  datatype Desktop = Desktop(windows: seq<Window>)

  /**
   * A press the Windows controller issues, in screen coordinates; `released`
   * tells whether the button-up followed the button-down.
   */
  datatype ScreenPress = ScreenPress(x: int, y: int, durationMs: int, released: bool)

  /** `time.sleep(duration_ms / 1000.0)` raises `ValueError` for a negative duration. */
  predicate PressSleepRaises(durationMs: int) { (durationMs as real) / 1000.0 < 0.0 }

  /** The screen region a screenshot captures: the window's client area. */
  datatype Region = Region(left: int, top: int, width: int, height: int)

  /** The size assumed when the window cannot be found or queried. */
  const DefaultWindowSize: (int, int) := (800, 600)

  function TitleMatches(title: string): Window -> bool
  {
    (w: Window) => w.visible && Contains(w.text, title)
  }

  /** The windows `_find_window` collects: visible, with the title in their text, in order. */
  function Matches(d: Desktop, title: string): seq<Window>
  {
    Filter(d.windows, TitleMatches(title))
  }

  /** The window with a handle, or `None` when the window manager would raise. */
  function Lookup(d: Desktop, hwnd: nat): (r: Option<Window>)
    ensures r.Some? ==> r.value in d.windows && r.value.handle == hwnd
    ensures r.None? ==> forall i :: 0 <= i < |d.windows| ==> d.windows[i].handle != hwnd
    decreases |d.windows|
  {
    if |d.windows| == 0 then None
    else if d.windows[0].handle == hwnd then Some(d.windows[0])
    else Lookup(Desktop(d.windows[1..]), hwnd)
  }

  /** The handle after the lazy lookup: kept when set (non-zero), else the first match, if any. */
  function Resolved(hwnd: nat, d: Desktop, title: string): nat
  {
    if hwnd != 0 then hwnd
    else if |Matches(d, title)| > 0 then Matches(d, title)[0].handle
    else 0
  }

  /** Whether the lazy lookup lets the operation go on. */
  predicate Available(hwnd: nat, d: Desktop, title: string)
  {
    hwnd != 0 || |Matches(d, title)| > 0
  }

  /**
   * `WindowsDeviceController`: the window title it looks for and the handle
   * of the window it found (`0` for Python's `None`).
   */
  class WindowsController {
    const windowTitle: string
    var hwnd: nat

    /** The constructor searches for the window once. */
    constructor (title: string, d: Desktop)
      ensures windowTitle == title
      ensures hwnd == Resolved(0, d, title)
    {
      windowTitle := title;
      hwnd := 0;
      new;
      var _ := FindWindow(d);
    }

    /** `_find_window`: take the first visible window whose text contains the title. */
    method FindWindow(d: Desktop) returns (found: bool)
      modifies this
      ensures found <==> |Matches(d, windowTitle)| > 0
      ensures found ==> hwnd == Matches(d, windowTitle)[0].handle
      ensures !found ==> hwnd == old(hwnd)
    {
      var windows := Matches(d, windowTitle);
      if |windows| > 0 {
        hwnd := windows[0].handle;
        return true;
      }
      return false;
    }

    /** `if not self.hwnd: if not self._find_window(): ...`, shared by the operations below. */
    method EnsureWindow(d: Desktop) returns (ok: bool)
      modifies this
      ensures ok == Available(old(hwnd), d, windowTitle)
      ensures hwnd == Resolved(old(hwnd), d, windowTitle)
    {
      if hwnd == 0 {
        ok := FindWindow(d);
      } else {
        ok := true;
      }
    }

    /** `get_screen_size`: the client area's size, or 800 x 600 when the window is missing. */
    method GetScreenSize(d: Desktop) returns (size: (int, int))
      modifies this
      ensures hwnd == Resolved(old(hwnd), d, windowTitle)
      ensures !Available(old(hwnd), d, windowTitle) ==> size == DefaultWindowSize
      ensures Available(old(hwnd), d, windowTitle) ==>
        size == (match Lookup(d, hwnd)
                 case None => DefaultWindowSize
                 case Some(w) => (w.clientWidth, w.clientHeight))
    {
      var ok := EnsureWindow(d);
      if !ok {
        return DefaultWindowSize;
      }
      match Lookup(d, hwnd)
      case None => size := DefaultWindowSize;
      case Some(w) => size := (w.clientWidth, w.clientHeight);
    }

    /**
     * `tap`: press at the window-relative point `(x, y)`, converted to screen
     * coordinates by the window's top-left corner. `press` is what reached
     * the screen and `ok` what `tap` returns: a negative duration makes the
     * sleep between button-down and button-up raise, so the button stays down
     * and the `except` returns False.
     */
    method Tap(d: Desktop, x: int, y: int, durationMs: int) returns (ok: bool, press: Option<ScreenPress>)
      modifies this
      ensures hwnd == Resolved(old(hwnd), d, windowTitle)
      ensures press.Some? <==> Available(old(hwnd), d, windowTitle) && Lookup(d, hwnd).Some?
      ensures press.Some? ==>
        var r := Lookup(d, hwnd).value.rect;
        press.value == ScreenPress(r.left + x, r.top + y, durationMs, 0 <= durationMs)
      ensures ok <==> press.Some? && press.value.released
    {
      var found := EnsureWindow(d);
      if !found {
        return false, None;
      }
      match Lookup(d, hwnd)
      case None =>
        ok, press := false, None;
      case Some(w) =>
        if PressSleepRaises(durationMs) {
          ok, press := false, Some(ScreenPress(w.rect.left + x, w.rect.top + y, durationMs, false));
        } else {
          ok, press := true, Some(ScreenPress(w.rect.left + x, w.rect.top + y, durationMs, true));
        }
    }

    /**
     * `screenshot`: the client area to capture, or `None` when the window is
     * missing or its client area is empty.
     */
    method Screenshot(d: Desktop) returns (region: Option<Region>)
      modifies this
      ensures hwnd == Resolved(old(hwnd), d, windowTitle)
      ensures region.Some? <==>
        Available(old(hwnd), d, windowTitle) && Lookup(d, hwnd).Some?
        && Lookup(d, hwnd).value.clientWidth > 0 && Lookup(d, hwnd).value.clientHeight > 0
      ensures region.Some? ==>
        var w := Lookup(d, hwnd).value;
        region.value == Region(w.clientLeft, w.clientTop, w.clientWidth, w.clientHeight)
    {
      var ok := EnsureWindow(d);
      if !ok {
        return None;
      }
      match Lookup(d, hwnd)
      case None => region := None;
      case Some(w) =>
        if w.clientWidth <= 0 || w.clientHeight <= 0 {
          region := None;
        } else {
          region := Some(Region(w.clientLeft, w.clientTop, w.clientWidth, w.clientHeight));
        }
    }

    /**
     * `_get_window_rect_with_dpi` with the DPI scale as a parameter:
     * `(left, top, width, height)` scaled and truncated, or all zeros without
     * a window.
     */
    method WindowRectWithDpi(d: Desktop, scale: real) returns (r: (int, int, int, int))
      ensures hwnd == 0 ==> r == (0, 0, 0, 0)
      ensures hwnd != 0 && Lookup(d, hwnd).None? ==> r == (0, 0, 0, 0)
      ensures hwnd != 0 && Lookup(d, hwnd).Some? ==> r == ScaledRect(Lookup(d, hwnd).value.rect, scale)
    {
      if hwnd == 0 {
        return (0, 0, 0, 0);
      }
      match Lookup(d, hwnd)
      case None => r := (0, 0, 0, 0);
      case Some(w) => r := ScaledRect(w.rect, scale);
    }
  }

  /** A rectangle as `(left, top, width, height)`, each scaled by `scale` and truncated. */
  function ScaledRect(rect: Rect, scale: real): (int, int, int, int)
  {
    (Trunc(rect.left as real * scale), Trunc(rect.top as real * scale),
     Trunc((rect.right - rect.left) as real * scale), Trunc((rect.bottom - rect.top) as real * scale))
  }

  // ---------------------------------------------------------------------
  // What the Windows controller guarantees.

  /** At a scale of 1 the rectangle is the window's own corner and size. */
  lemma UnscaledRect(rect: Rect)
    ensures ScaledRect(rect, 1.0) == (rect.left, rect.top, rect.right - rect.left, rect.bottom - rect.top)
  {
    TruncInt(rect.left);
    TruncInt(rect.top);
    TruncInt(rect.right - rect.left);
    TruncInt(rect.bottom - rect.top);
  }

  lemma TruncInt(n: int)
    ensures Trunc(n as real * 1.0) == n
  {
  }

  /** The handle found is that of a visible window whose text contains the title. */
  lemma ResolvedIsAMatch(d: Desktop, title: string)
    requires |Matches(d, title)| > 0
    ensures exists i :: (0 <= i < |d.windows|
      && d.windows[i].visible && Contains(d.windows[i].text, title) && d.windows[i].handle == Resolved(0, d, title))
  {
    var m := Matches(d, title)[0];
    assert m in d.windows && TitleMatches(title)(m);
  }

  /** Once a window is known, no operation searches again: the handle stays. */
  lemma HandleIsSticky(hwnd: nat, d: Desktop, title: string)
    requires hwnd != 0
    ensures Resolved(hwnd, d, title) == hwnd && Available(hwnd, d, title)
  {
  }
}
