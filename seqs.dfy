/** Sequence operations shared by the selectors: filtering and first-maximum search. */
module Seqs {

  /**
   * The elements of `s` that satisfy `p`, in their original order
   * (a list comprehension with an `if`, or a boolean mask over an array).
   */
  function Filter<T>(s: seq<T>, p: T -> bool): (r: seq<T>)
    ensures |r| <= |s|
    ensures forall i :: 0 <= i < |r| ==> r[i] in s && p(r[i])
    ensures forall i :: 0 <= i < |s| && p(s[i]) ==> s[i] in r
  {
    if s == [] then []
    else
      assert s == s[..|s| - 1] + [s[|s| - 1]];
      Filter(s[..|s| - 1], p) + (if p(s[|s| - 1]) then [s[|s| - 1]] else [])
  }

  /** Filtering distributes over concatenation, so survivors keep their relative order. */
  lemma {:induction false} FilterAppend<T>(a: seq<T>, b: seq<T>, p: T -> bool)
    ensures Filter(a + b, p) == Filter(a, p) + Filter(b, p)
    decreases |b|
  {
    if b == [] {
      assert a + b == a;
    } else {
      var b' := b[..|b| - 1];
      assert (a + b)[..|a + b| - 1] == a + b';
      FilterAppend(a, b', p);
    }
  }

  /** Filtering a three-element sequence, one element at a time. */
  lemma FilterThree<T>(a: T, b: T, c: T, p: T -> bool)
    ensures Filter([a, b, c], p)
      == (if p(a) then [a] else []) + (if p(b) then [b] else []) + (if p(c) then [c] else [])
  {
    FilterSnoc([], a, p);
    assert [] + [a] == [a];
    FilterSnoc([a], b, p);
    assert [a] + [b] == [a, b];
    FilterSnoc([a, b], c, p);
    assert [a, b] + [c] == [a, b, c];
  }

  /** Filtering a sequence extended by one element. */
  lemma FilterSnoc<T>(s: seq<T>, x: T, p: T -> bool)
    ensures Filter(s + [x], p) == Filter(s, p) + (if p(x) then [x] else [])
  {
    assert (s + [x])[..|s|] == s;
  }

  /** Nothing survives the filter exactly when no element satisfies `p`. */
  lemma FilterEmptyIff<T>(s: seq<T>, p: T -> bool)
    ensures |Filter(s, p)| == 0 <==> forall i :: 0 <= i < |s| ==> !p(s[i])
  {
    var r := Filter(s, p);
    if |r| > 0 {
      assert r[0] in s && p(r[0]);
      var i :| 0 <= i < |s| && s[i] == r[0];
      assert p(s[i]);
    }
  }

  /** Filtering by `p` and then by `q` is filtering once by their conjunction `r`. */
  lemma {:induction false} FilterFilter<T>(s: seq<T>, p: T -> bool, q: T -> bool, r: T -> bool)
    requires forall i :: 0 <= i < |s| ==> (r(s[i]) <==> p(s[i]) && q(s[i]))
    ensures Filter(Filter(s, p), q) == Filter(s, r)
    decreases |s|
  {
    if s != [] {
      var s', x := s[..|s| - 1], s[|s| - 1];
      assert forall i :: 0 <= i < |s'| ==> s'[i] == s[i];
      FilterFilter(s', p, q, r);
      FilterAppend(Filter(s', p), if p(x) then [x] else [], q);
    }
  }

  /**
   * The index of the first maximum of `key` over `s` (`numpy.argmax`, and
   * Python's `max` with a key, both keep the earliest of equal maxima).
   */
  function ArgMax<T>(s: seq<T>, key: T -> real): (i: nat)
    requires |s| > 0
    ensures i < |s|
    ensures forall j :: 0 <= j < |s| ==> key(s[j]) <= key(s[i])
    ensures forall j :: 0 <= j < i ==> key(s[j]) < key(s[i])
  {
    if |s| == 1 then 0
    else
      var i := ArgMax(s[..|s| - 1], key);
      if key(s[i]) < key(s[|s| - 1]) then |s| - 1 else i
  }

  /**
   * Taking the first maximum of the survivors of a filter picks, in the
   * unfiltered sequence, the earliest element that satisfies the filter and
   * has a maximal key among those that do.
   */
  lemma {:induction false} FilterArgMax<T>(s: seq<T>, p: T -> bool, key: T -> real, w: nat)
    requires w < |s| && p(s[w])
    ensures |Filter(s, p)| > 0
    ensures FirstMaxOf(s, p, key, Filter(s, p)[ArgMax(Filter(s, p), key)])
    decreases |s|
  {
    var n := |s|;
    var s', x := s[..n - 1], s[n - 1];
    assert s == s' + [x];
    if !p(x) {
      FilterArgMax(s', p, key, w);
      FilterArgMaxSkip(s', x, p, key);
    } else if Filter(s', p) == [] {
      FilterArgMaxFirst(s', x, p, key);
    } else {
      var k :| 0 <= k < |s'| && s'[k] == Filter(s', p)[0];
      FilterArgMax(s', p, key, k);
      FilterArgMaxStep(s', x, p, key);
    }
  }

  /** The step of `FilterArgMax` for an appended element that fails the filter. */
  lemma FilterArgMaxSkip<T>(s: seq<T>, x: T, p: T -> bool, key: T -> real)
    requires !p(x) && |Filter(s, p)| > 0
    requires FirstMaxOf(s, p, key, Filter(s, p)[ArgMax(Filter(s, p), key)])
    ensures |Filter(s + [x], p)| > 0
    ensures FirstMaxOf(s + [x], p, key, Filter(s + [x], p)[ArgMax(Filter(s + [x], p), key)])
  {
    var t := s + [x];
    assert t[..|t| - 1] == s;
    assert Filter(t, p) == Filter(s, p);
    FirstMaxSkip(s, x, p, key, Filter(s, p)[ArgMax(Filter(s, p), key)]);
  }

  /** The step of `FilterArgMax` for the first element that passes the filter. */
  lemma FilterArgMaxFirst<T>(s: seq<T>, x: T, p: T -> bool, key: T -> real)
    requires p(x) && Filter(s, p) == []
    ensures |Filter(s + [x], p)| > 0
    ensures FirstMaxOf(s + [x], p, key, Filter(s + [x], p)[ArgMax(Filter(s + [x], p), key)])
  {
    var t := s + [x];
    assert t[..|t| - 1] == s;
    assert Filter(t, p) == [x];
    FirstMaxFirst(s, x, p, key);
  }

  /** The step of `FilterArgMax` for a passing element appended after earlier ones. */
  lemma FilterArgMaxStep<T>(s: seq<T>, x: T, p: T -> bool, key: T -> real)
    requires p(x) && |Filter(s, p)| > 0
    requires FirstMaxOf(s, p, key, Filter(s, p)[ArgMax(Filter(s, p), key)])
    ensures |Filter(s + [x], p)| > 0
    ensures FirstMaxOf(s + [x], p, key, Filter(s + [x], p)[ArgMax(Filter(s + [x], p), key)])
  {
    var t := s + [x];
    var f := Filter(s, p);
    assert t[..|t| - 1] == s;
    assert Filter(t, p) == f + [x];
    var m := f[ArgMax(f, key)];
    ArgMaxSnoc(f, x, key);
    if key(m) < key(x) {
      FirstMaxBeaten(s, x, p, key, m);
    } else {
      FirstMaxKept(s, x, p, key, m);
    }
  }

  /** Appending `x` makes it the first maximum exactly when it beats the old one. */
  lemma ArgMaxSnoc<T>(s: seq<T>, x: T, key: T -> real)
    requires |s| > 0
    ensures var m := s[ArgMax(s, key)];
      (s + [x])[ArgMax(s + [x], key)] == if key(m) < key(x) then x else m
  {
    var t := s + [x];
    assert t[..|t| - 1] == s;
    assert t[ArgMax(s, key)] == s[ArgMax(s, key)];
  }

  lemma FirstMaxSkip<T>(s: seq<T>, x: T, p: T -> bool, key: T -> real, m: T)
    requires FirstMaxOf(s, p, key, m) && !p(x)
    ensures FirstMaxOf(s + [x], p, key, m)
  {
    var i :| 0 <= i < |s| && s[i] == m && forall j :: 0 <= j < i && p(s[j]) ==> key(s[j]) < key(m);
    assert (s + [x])[i] == m;
  }

  lemma FirstMaxFirst<T>(s: seq<T>, x: T, p: T -> bool, key: T -> real)
    requires Filter(s, p) == [] && p(x)
    ensures FirstMaxOf(s + [x], p, key, x)
  {
    var t := s + [x];
    forall j | 0 <= j < |s| ensures !p(t[j]) {
      assert t[j] == s[j];
    }
    assert t[|s|] == x;
  }

  lemma FirstMaxBeaten<T>(s: seq<T>, x: T, p: T -> bool, key: T -> real, m: T)
    requires FirstMaxOf(s, p, key, m) && p(x) && key(m) < key(x)
    ensures FirstMaxOf(s + [x], p, key, x)
  {
    var t := s + [x];
    forall j | 0 <= j < |s| && p(t[j]) ensures key(t[j]) < key(x) {
      assert t[j] == s[j];
    }
    assert t[|s|] == x;
  }

  lemma FirstMaxKept<T>(s: seq<T>, x: T, p: T -> bool, key: T -> real, m: T)
    requires FirstMaxOf(s, p, key, m) && p(x) && key(x) <= key(m)
    ensures FirstMaxOf(s + [x], p, key, m)
  {
    var i :| 0 <= i < |s| && s[i] == m && forall j :: 0 <= j < i && p(s[j]) ==> key(s[j]) < key(m);
    var t := s + [x];
    assert t[i] == m;
    forall j | 0 <= j < |t| && p(t[j]) ensures key(t[j]) <= key(m) {
      if j < |s| { assert t[j] == s[j]; }
    }
  }

  /**
   * `m` is an element of `s` that satisfies `p`, has a maximal key among
   * those that do, and no earlier element that satisfies `p` has an equal key.
   */
  ghost predicate FirstMaxOf<T>(s: seq<T>, p: T -> bool, key: T -> real, m: T)
  {
    && m in s && p(m)
    && (forall j :: 0 <= j < |s| && p(s[j]) ==> key(s[j]) <= key(m))
    && exists i :: 0 <= i < |s| && s[i] == m && forall j :: 0 <= j < i && p(s[j]) ==> key(s[j]) < key(m)
  }
}
