/**
 * The few Python string operations the device code relies on: `strip`,
 * substring search (`in`), `split` with a separator, and `int` on text, with
 * its inverse `str` on integers.
 */
module PyStr {
  import opened Wrappers

  /** `str.isspace` for one character: the Unicode whitespace Python strips. */
  predicate IsSpace(c: char)
  {
    var n := c as int;
    || (9 <= n <= 13)
    || (28 <= n <= 32)
    || n == 0x85 || n == 0xA0 || n == 0x1680
    || (0x2000 <= n <= 0x200A)
    || n == 0x2028 || n == 0x2029 || n == 0x202F || n == 0x205F || n == 0x3000
  }

  /** `s.lstrip()`. */
  function StripLeft(s: string): (r: string)
    ensures |r| <= |s| && r == s[|s| - |r|..]
    ensures forall i :: 0 <= i < |s| - |r| ==> IsSpace(s[i])
    ensures |r| > 0 ==> !IsSpace(r[0])
  {
    if |s| > 0 && IsSpace(s[0]) then StripLeft(s[1..]) else s
  }

  /** `s.rstrip()`. */
  function StripRight(s: string): (r: string)
    ensures |r| <= |s| && r == s[..|r|]
    ensures forall i :: |r| <= i < |s| ==> IsSpace(s[i])
    ensures |r| > 0 ==> !IsSpace(r[|r| - 1])
  {
    if |s| > 0 && IsSpace(s[|s| - 1]) then StripRight(s[..|s| - 1]) else s
  }

  /** `r` is the slice of `s` at `a` and only whitespace surrounds it. */
  ghost predicate SpaceAround(s: string, r: string, a: int)
  {
    && 0 <= a <= |s| - |r|
    && r == s[a..a + |r|]
    && (forall i :: 0 <= i < a ==> IsSpace(s[i]))
    && (forall i :: a + |r| <= i < |s| ==> IsSpace(s[i]))
  }

  /** `s.strip()`: `s` without its leading and trailing whitespace. */
  function Strip(s: string): (r: string)
    ensures |r| <= |s|
    ensures exists a :: SpaceAround(s, r, a)
    ensures |r| > 0 ==> !IsSpace(r[0]) && !IsSpace(r[|r| - 1])
  {
    StripLeftRight(s);
    StripRight(StripLeft(s))
  }

  lemma StripLeftRight(s: string)
    ensures SpaceAround(s, StripRight(StripLeft(s)), |s| - |StripLeft(s)|)
  {
    StripIsSlice(s);
    StripTrailingSpace(s);
  }

  lemma StripIsSlice(s: string)
    ensures var a := |s| - |StripLeft(s)|;
      StripRight(StripLeft(s)) == s[a..a + |StripRight(StripLeft(s))|]
  {
    var l := StripLeft(s);
    var r := StripRight(l);
    var a := |s| - |l|;
    assert r == l[..|r|] && l == s[a..];
  }

  lemma StripTrailingSpace(s: string)
    ensures forall i :: |s| - |StripLeft(s)| + |StripRight(StripLeft(s))| <= i < |s| ==> IsSpace(s[i])
  {
    var l := StripLeft(s);
    SuffixAll(s, l, |StripRight(l)|, IsSpace);
  }

  /** A property of a suffix of `l = s[a..]` holds on the matching suffix of `s`. */
  lemma SuffixAll(s: string, l: string, k: nat, p: char -> bool)
    requires |l| <= |s| && l == s[|s| - |l|..] && k <= |l|
    requires forall i :: k <= i < |l| ==> p(l[i])
    ensures forall i :: |s| - |l| + k <= i < |s| ==> p(s[i])
  {
    var a := |s| - |l|;
    forall i | a + k <= i < |s| ensures p(s[i]) {
      assert s[i] == l[i - a];
    }
  }

  /** Stripping a string that neither starts nor ends with whitespace leaves it as it is. */
  lemma StripUnchanged(s: string)
    requires |s| > 0 ==> !IsSpace(s[0]) && !IsSpace(s[|s| - 1])
    ensures Strip(s) == s
  {
  }

  /** Trailing whitespace is stripped. */
  lemma {:induction false} StripTrailing(s: string, w: string)
    requires |s| > 0 && !IsSpace(s[0]) && !IsSpace(s[|s| - 1])
    requires forall i :: 0 <= i < |w| ==> IsSpace(w[i])
    ensures Strip(s + w) == s
    decreases |w|
  {
    if w == [] {
      assert s + w == s;
    } else {
      var w' := w[..|w| - 1];
      assert (s + w)[..|s + w| - 1] == s + w';
      StripTrailing(s, w');
    }
  }

  /** `t` occurs in `s` at index `i`. */
  predicate OccursAt(s: string, t: string, i: int)
  {
    0 <= i && i + |t| <= |s| && s[i..i + |t|] == t
  }

  /** `s.find(t)`: the first index at or after `from` where `t` occurs. */
  function FindFrom(s: string, t: string, from: nat): (r: Option<nat>)
    decreases |s| - from
    ensures r.Some? ==>
      (from <= r.value && OccursAt(s, t, r.value) && forall j :: from <= j < r.value ==> !OccursAt(s, t, j))
    ensures r.None? ==> forall j :: from <= j ==> !OccursAt(s, t, j)
  {
    if from + |t| > |s| then None
    else if s[from..from + |t|] == t then Some(from)
    else FindFrom(s, t, from + 1)
  }

  function Find(s: string, t: string): Option<nat>
  {
    FindFrom(s, t, 0)
  }

  /** `t in s`. */
  predicate Contains(s: string, t: string)
  {
    Find(s, t).Some?
  }

  /** A string that lacks some character of `t` does not contain `t`. */
  lemma NotContains(s: string, t: string, c: char)
    requires c in t && c !in s
    ensures Find(s, t).None?
  {
  }

  /** A string that starts with `t` finds it at index 0. */
  lemma FindPrefix(t: string, u: string)
    ensures Find(t + u, t) == Some(0)
  {
    assert (t + u)[0..|t|] == t;
  }

  /** `s.split(sep)`: the pieces between the non-overlapping occurrences of `sep`, left to right. */
  function Split(s: string, sep: string): (r: seq<string>)
    requires |sep| > 0
    ensures |r| > 0
    decreases |s|
  {
    match Find(s, sep)
    case None => [s]
    case Some(i) => [s[..i]] + Split(s[i + |sep|..], sep)
  }

  /** `sep.join(pieces)`. */
  function Join(pieces: seq<string>, sep: string): string
  {
    if |pieces| == 0 then ""
    else if |pieces| == 1 then pieces[0]
    else pieces[0] + sep + Join(pieces[1..], sep)
  }

  /** Splitting and joining again gives back the string, and no piece contains the separator. */
  lemma {:induction false} SplitJoin(s: string, sep: string)
    requires |sep| > 0
    ensures Join(Split(s, sep), sep) == s
    ensures forall k :: 0 <= k < |Split(s, sep)| ==> Find(Split(s, sep)[k], sep).None?
    decreases |s|
  {
    match Find(s, sep)
    case None =>
    case Some(i) =>
      var rest := s[i + |sep|..];
      SplitJoin(rest, sep);
      assert s == s[..i] + sep + rest;
      NoEarlierOccurrence(s, sep, i);
  }

  lemma NoEarlierOccurrence(s: string, sep: string, i: nat)
    requires |sep| > 0 && Find(s, sep) == Some(i)
    ensures Find(s[..i], sep).None?
  {
    if Find(s[..i], sep).Some? {
      var j := Find(s[..i], sep).value;
      assert s[..i][j..j + |sep|] == s[j..j + |sep|];
      assert OccursAt(s, sep, j);
    }
  }

  /** Splitting a string that starts with the separator gives an empty first piece. */
  lemma SplitAfterLeading(sep: string, b: string)
    requires |sep| > 0
    ensures Split(sep + b, sep) == [""] + Split(b, sep)
  {
    FindPrefix(sep, b);
    assert (sep + b)[|sep|..] == b;
  }

  /** The first occurrence of a one-character string `[c]` in `a + [c] + b`, where `a` lacks `c`, is at `|a|`. */
  lemma FindCharAt(a: string, c: char, b: string)
    requires c !in a
    ensures Find(a + [c] + b, [c]) == Some(|a|)
  {
    var s := a + [c] + b;
    forall j | 0 <= j < |a|
      ensures !OccursAt(s, [c], j)
    {
      assert s[j..j + 1] == [a[j]];
    }
    assert s[|a|..|a| + 1] == [c];
    FindFirst(s, [c], 0, |a|);
  }

  /** Splitting `a + [c] + b` on `[c]`, where `a` lacks `c`, gives `a` and the pieces of `b`. */
  lemma SplitAtChar(a: string, c: char, b: string)
    requires c !in a
    ensures Split(a + [c] + b, [c]) == [a] + Split(b, [c])
  {
    var s := a + [c] + b;
    FindCharAt(a, c, b);
    assert s[..|a|] == a && s[|a| + 1..] == b;
  }

  /** The search from `from` stops at the first occurrence. */
  lemma {:induction false} FindFirst(s: string, t: string, from: nat, i: nat)
    requires from <= i && OccursAt(s, t, i)
    requires forall j :: from <= j < i ==> !OccursAt(s, t, j)
    ensures FindFrom(s, t, from) == Some(i)
    decreases i - from
  {
    if from < i {
      assert !OccursAt(s, t, from);
      FindFirst(s, t, from + 1, i);
    }
  }

  // ---------------------------------------------------------------------
  // `int` and `str` on integers.

  predicate IsDigit(c: char) { '0' <= c <= '9' }

  function DigitValue(c: char): (v: nat)
    requires IsDigit(c)
    ensures v < 10
  {
    (c as int - '0' as int) as nat
  }

  /**
   * A literal's digit part as `int` accepts it: digits, with single
   * underscores allowed between two digits.
   */
  predicate DigitPart(s: string)
  {
    && |s| > 0
    && IsDigit(s[0]) && IsDigit(s[|s| - 1])
    && (forall i :: 0 <= i < |s| ==> IsDigit(s[i]) || s[i] == '_')
    && (forall i :: 0 <= i < |s| - 1 && s[i] == '_' ==> s[i + 1] != '_')
  }

  /** The value of a digit part, ignoring its underscores. */
  function DigitsValue(s: string): nat
    requires forall i :: 0 <= i < |s| ==> IsDigit(s[i]) || s[i] == '_'
  {
    if s == [] then 0
    else
      var init := DigitsValue(s[..|s| - 1]);
      var c := s[|s| - 1];
      if c == '_' then init else init * 10 + DigitValue(c)
  }

  /**
   * `int(s)` on a string: surrounding whitespace, an optional sign, then a
   * digit part; `None` where Python raises `ValueError`.
   */
  function ParseInt(s: string): Option<int>
  {
    var t := Strip(s);
    if |t| > 0 && (t[0] == '-' || t[0] == '+') then
      var body := t[1..];
      if DigitPart(body) then
        var v: int := DigitsValue(body);
        Some(if t[0] == '-' then -v else v)
      else None
    else if DigitPart(t) then Some(DigitsValue(t))
    else None
  }

  function DigitChar(d: nat): (c: char)
    requires d < 10
    ensures IsDigit(c) && DigitValue(c) == d
  {
    ('0' as int + d) as char
  }

  /** `str(n)` for a natural number: its decimal digits, most significant first. */
  function NatToString(n: nat): (s: string)
    ensures |s| > 0
    ensures forall i :: 0 <= i < |s| ==> IsDigit(s[i])
  {
    if n < 10 then [DigitChar(n)] else NatToString(n / 10) + [DigitChar(n % 10)]
  }

  /** `str(n)` for any integer. */
  function IntToString(n: int): string
  {
    if n < 0 then "-" + NatToString(-n) else NatToString(n)
  }

  lemma {:induction false} NatToStringValue(n: nat)
    ensures DigitsValue(NatToString(n)) == n
  {
    if n >= 10 {
      NatToStringValue(n / 10);
      var s := NatToString(n);
      assert s[..|s| - 1] == NatToString(n / 10);
    }
  }

  /** `int(str(n)) == n`. */
  lemma ParseIntToString(n: int)
    ensures ParseInt(IntToString(n)) == Some(n)
  {
    var m := if n < 0 then -n else n;
    NatToStringValue(m);
    if n < 0 {
      assert IntToString(n)[1..] == NatToString(m);
      ParseNegative(IntToString(n), NatToString(m));
    } else {
      ParseDigits(NatToString(m));
    }
  }

  lemma ParseDigits(digits: string)
    requires |digits| > 0 && forall i :: 0 <= i < |digits| ==> IsDigit(digits[i])
    ensures ParseInt(digits) == Some(DigitsValue(digits))
  {
    assert DigitPart(digits);
    StripUnchanged(digits);
    assert digits[0] != '-' && digits[0] != '+';
  }

  /** A minus sign followed by decimal digits parses to the negated value of the digits. */
  lemma ParseNegative(s: string, digits: string)
    requires |s| > 1 && s[0] == '-' && s[1..] == digits
    requires forall i :: 0 <= i < |digits| ==> IsDigit(digits[i])
    ensures ParseInt(s) == Some(-(DigitsValue(digits) as int))
  {
    assert DigitPart(digits);
    assert s[|s| - 1] == digits[|digits| - 1];
    StripUnchanged(s);
  }

  /** `int` ignores surrounding whitespace. */
  lemma ParseIntIgnoresSpace(s: string, w: string)
    requires |s| > 0 && !IsSpace(s[0]) && !IsSpace(s[|s| - 1])
    requires forall i :: 0 <= i < |w| ==> IsSpace(w[i])
    ensures ParseInt(s + w) == ParseInt(s)
  {
    StripTrailing(s, w);
    StripUnchanged(s);
  }
}
