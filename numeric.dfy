/**
 * Exact arithmetic for the float operations the program applies to pixel distances.
 * A distance is carried as its square `q` (so no square root is ever taken);
 * `int(sqrt(q) * k)` and `round(sqrt(q), 3)` are computed exactly from `q`
 * by an integer square root, and lemmas relate them to any real root `d` of `q`.
 */
module Numeric {

  /** Python's `int(x)` on a float: truncation toward zero. */
  function Trunc(x: real): (r: int)
    ensures 0.0 <= x ==> 0 <= r && r as real <= x < r as real + 1.0
    ensures x < 0.0 ==> r <= 0 && r as real - 1.0 < x <= r as real
  {
    if x >= 0.0 then x.Floor else -((-x).Floor)
  }

  lemma NatSquareMonotone(a: nat, b: nat)
    requires a <= b
    ensures a * a <= b * b
  {
    assert a * a <= a * b;
  }

  lemma RealSquareMonotone(a: real, b: real)
    requires 0.0 <= a <= b
    ensures a * a <= b * b
  {
    assert a * a <= a * b;
  }

  lemma RealSquareStrict(a: real, b: real)
    requires 0.0 <= a < b
    ensures a * a < b * b
  {
    var s := b - a;
    assert b == a + s;
    assert 0.0 < s * s;
    assert 0.0 <= a * s;
    assert (a + s) * (a + s) == a * a + 2.0 * (a * s) + s * s;
  }

  /** The largest `r >= n` whose square does not exceed `m`. */
  function SqrtFrom(m: nat, n: nat): (r: nat)
    requires n * n <= m
    ensures n <= r && r * r <= m < (r + 1) * (r + 1)
    decreases m - n
  {
    if m < (n + 1) * (n + 1) then n
    else
      assert n + 1 <= (n + 1) * (n + 1);
      SqrtFrom(m, n + 1)
  }

  /** The integer part of the square root of a non-negative real. */
  function FloorSqrt(v: real): (r: nat)
    requires 0.0 <= v
    ensures (r * r) as real <= v < ((r + 1) * (r + 1)) as real
  {
    SqrtFrom(v.Floor, 0)
  }

  /** The bounds of `FloorSqrt` determine it. */
  lemma FloorSqrtUnique(v: real, n: nat)
    requires 0.0 <= v
    requires (n * n) as real <= v < ((n + 1) * (n + 1)) as real
    ensures FloorSqrt(v) == n
  {
    var r := FloorSqrt(v);
    if r < n {
      NatSquareMonotone(r + 1, n);
    } else if n < r {
      NatSquareMonotone(n + 1, r);
    }
  }

  /** `FloorSqrt` is monotone. */
  lemma FloorSqrtMonotone(u: real, v: real)
    requires 0.0 <= u <= v
    ensures FloorSqrt(u) <= FloorSqrt(v)
  {
    var a, b := FloorSqrt(u), FloorSqrt(v);
    if b < a {
      NatSquareMonotone(b + 1, a);
    }
  }

  /** The floor of a non-negative real `e` is the integer square root of `e * e`. */
  lemma FloorSqrtOfSquare(e: real)
    requires 0.0 <= e
    ensures FloorSqrt(e * e) == e.Floor
  {
    var t := e.Floor;
    assert 0 <= t;
    RealSquareMonotone(t as real, e);
    RealSquareStrict(e, t as real + 1.0);
    assert (t * t) as real == t as real * t as real;
    assert ((t + 1) * (t + 1)) as real == (t as real + 1.0) * (t as real + 1.0);
    FloorSqrtUnique(e * e, t);
  }

  /**
   * `int(sqrt(q) * k)`: the square root of `q` scaled by `k` and truncated
   * toward zero. Its meaning is `TruncRootTimesMeaning`.
   */
  function TruncRootTimes(q: real, k: real): (r: int)
    requires 0.0 <= q
    ensures 0.0 <= k ==> 0 <= r
    ensures k <= 0.0 ==> r <= 0
    ensures q == 0.0 || k == 0.0 ==> r == 0
  {
    assert 0.0 <= q * (k * k);
    var n: int := FloorSqrt(q * (k * k));
    if k >= 0.0 then n else -n
  }

  /** Truncation toward zero is symmetric about zero. */
  lemma TruncNegate(x: real)
    ensures Trunc(-x) == -Trunc(x)
  {
  }

  lemma FloorSqrtScaledRoot(q: real, k: real, d: real)
    requires 0.0 <= d && d * d == q && 0.0 <= k
    ensures 0.0 <= q * (k * k) && FloorSqrt(q * (k * k)) == Trunc(d * k)
  {
    var e := d * k;
    assert e * e == q * (k * k) by {
      assert e * e == (d * d) * (k * k);
    }
    FloorSqrtOfSquare(e);
  }

  lemma TruncRootTimesPositiveMeaning(q: real, k: real, d: real)
    requires 0.0 <= d && d * d == q && 0.0 <= k
    ensures TruncRootTimes(q, k) == Trunc(d * k)
  {
    FloorSqrtScaledRoot(q, k, d);
  }

  lemma TruncRootTimesNegativeMeaning(q: real, k: real, d: real)
    requires 0.0 <= d && d * d == q && k < 0.0
    ensures TruncRootTimes(q, k) == Trunc(d * k)
  {
    TruncRootTimesNegative(q, k);
    FloorSqrtNegatedRoot(q, k, d);
    TruncNegatedProduct(d, k);
  }

  lemma TruncRootTimesNegative(q: real, k: real)
    requires 0.0 <= q && k < 0.0
    ensures 0.0 <= q * (k * k) && TruncRootTimes(q, k) == -(FloorSqrt(q * (k * k)) as int)
  {
  }

  /** With `k` negative, `d * -k` is a non-negative root of `q * k * k`. */
  lemma FloorSqrtNegatedRoot(q: real, k: real, d: real)
    requires 0.0 <= d && d * d == q && k < 0.0
    ensures 0.0 <= q * (k * k) && FloorSqrt(q * (k * k)) == (d * -k).Floor
  {
    var m := -k;
    var e := d * m;
    ProductSquare(d, m);
    NegatedSquare(k);
    calc {
      e * e;
      (d * d) * (m * m);
      q * (m * m);
      q * (k * k);
    }
    FloorSqrtOfSquare(e);
  }

  lemma ProductSquare(a: real, b: real)
    ensures (a * b) * (a * b) == (a * a) * (b * b)
  {
  }

  lemma NegatedSquare(k: real)
    ensures (-k) * (-k) == k * k
  {
  }

  lemma TruncNegatedProduct(d: real, k: real)
    requires 0.0 <= d && k < 0.0
    ensures Trunc(d * k) == -(d * -k).Floor
  {
    var e := d * -k;
    assert d * k == -e;
    TruncNegate(e);
  }

  /** For any root `d` of `q`, `TruncRootTimes(q, k)` is Python's `int(d * k)`. */
  lemma TruncRootTimesMeaning(q: real, k: real, d: real)
    requires 0.0 <= d && d * d == q
    ensures TruncRootTimes(q, k) == Trunc(d * k)
  {
    if k >= 0.0 {
      TruncRootTimesPositiveMeaning(q, k, d);
    } else {
      TruncRootTimesNegativeMeaning(q, k, d);
    }
  }

  /** `int(sqrt(q) * k)` does not decrease when `k` grows. */
  lemma TruncRootTimesMonotone(q: real, k1: real, k2: real)
    requires 0.0 <= q && 0.0 <= k1 <= k2
    ensures TruncRootTimes(q, k1) <= TruncRootTimes(q, k2)
  {
    RealSquareMonotone(k1, k2);
    assert q * (k1 * k1) <= q * (k2 * k2);
    FloorSqrtMonotone(q * (k1 * k1), q * (k2 * k2));
  }

  /**
   * The integer nearest to the square root of `v`, ties to the even one;
   * see `RoundRootMeaning`.
   */
  function RoundRoot(v: real): (n: nat)
    requires 0.0 <= v
  {
    var f := FloorSqrt(v);
    var h := (f as real + 0.5) * (f as real + 0.5);
    if v > h then f + 1
    else if v < h then f
    else if f % 2 == 0 then f
    else f + 1
  }

  lemma RoundRootBelowHalf(v: real, e: real)
    requires 0.0 <= e && e * e == v && e < e.Floor as real + 0.5
    ensures RoundRoot(v) == e.Floor
  {
    FloorSqrtOfSquare(e);
    RealSquareStrict(e, e.Floor as real + 0.5);
  }

  lemma RoundRootAboveHalf(v: real, e: real)
    requires 0.0 <= e && e * e == v && e.Floor as real + 0.5 < e
    ensures RoundRoot(v) == e.Floor + 1
  {
    FloorSqrtOfSquare(e);
    assert 0 <= e.Floor;
    RealSquareStrict(e.Floor as real + 0.5, e);
  }

  lemma RoundRootAtHalf(v: real, e: real)
    requires 0.0 <= e && e * e == v && e == e.Floor as real + 0.5
    ensures RoundRoot(v) == e.Floor || RoundRoot(v) == e.Floor + 1
    ensures RoundRoot(v) % 2 == 0
  {
    FloorSqrtOfSquare(e);
  }

  /** For any root `e` of `v`, `RoundRoot(v)` is `e` rounded half to even. */
  lemma RoundRootMeaning(v: real, e: real)
    requires 0.0 <= e && e * e == v
    ensures -0.5 <= RoundRoot(v) as real - e <= 0.5
    ensures (RoundRoot(v) as real - e == 0.5 || e - RoundRoot(v) as real == 0.5)
              ==> RoundRoot(v) % 2 == 0
  {
    var m := e.Floor as real + 0.5;
    if e < m {
      RoundRootBelowHalf(v, e);
    } else if m < e {
      RoundRootAboveHalf(v, e);
    } else {
      RoundRootAtHalf(v, e);
    }
  }

  /** `round(sqrt(q), 3)`: the root of `q` rounded to thousandths. */
  function RoundMilli(q: real): (r: real)
    requires 0.0 <= q
    ensures 0.0 <= r
    ensures 2500.0 < q ==> 50.0 <= r
  {
    var n := RoundRoot(q * 1000000.0);
    assert 2500.0 < q ==> 50000 <= n by {
      if 2500.0 < q {
        assert (50000 * 50000) as real <= q * 1000000.0;
        FloorSqrtUnique(2500000000.0, 50000);
        FloorSqrtMonotone(2500000000.0, q * 1000000.0);
      }
    }
    n as real / 1000.0
  }

  /**
   * For any root `d` of `q`, `RoundMilli(q)` is a whole number of thousandths
   * within half a thousandth of `d`.
   */
  lemma RoundMilliMeaning(q: real, d: real)
    requires 0.0 <= d && d * d == q
    ensures RoundMilli(q) * 1000.0 == RoundRoot(q * 1000000.0) as real
    ensures -0.0005 <= RoundMilli(q) - d <= 0.0005
  {
    var e, v := d * 1000.0, q * 1000000.0;
    ScaledRoot(q, d);
    RoundRootMeaning(v, e);
    Thousandths(RoundRoot(v), e, d);
  }

  lemma ScaledRoot(q: real, d: real)
    requires 0.0 <= d && d * d == q
    ensures 0.0 <= d * 1000.0 && (d * 1000.0) * (d * 1000.0) == q * 1000000.0
  {
  }

  lemma Thousandths(n: int, e: real, d: real)
    requires e == d * 1000.0 && -0.5 <= n as real - e <= 0.5
    ensures (n as real / 1000.0) * 1000.0 == n as real
    ensures -0.0005 <= n as real / 1000.0 - d <= 0.0005
  {
  }
}
