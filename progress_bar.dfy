/**
 * `create_progress_bar`: a percentage clamped to [0, 100], drawn as a bar
 * of `width` glyphs (filled ones first) followed by the rounded percentage.
 *
 * The percentage is an exact fraction; Python's `round` and the `:.0f`
 * format both round half to even, which `RoundHalfEven` does exactly.
 */
module ProgressBar {
  import opened Strings

  type Pos = n: int | n > 0 witness 1

  /** The percentage num / den. */
  datatype Percent = Percent(num: int, den: Pos)

  const FULL: char := '\U{25B0}'
  const EMPTY: char := '\U{25B1}'
  const DEFAULT_WIDTH: nat := 12

  predicate InRange(p: Percent) { 0 <= p.num <= 100 * p.den }

  /** `max(0.0, min(100.0, percent))`: out-of-range values become the bound itself. */
  function Clamp(p: Percent): (c: Percent)
    ensures InRange(c)
    ensures InRange(p) ==> c == p
    ensures p.num < 0 ==> c == Percent(0, 1)
    ensures p.num > 100 * p.den ==> c == Percent(100, 1)
  {
    if p.num < 0 then Percent(0, 1)
    else if p.num > 100 * p.den then Percent(100, 1)
    else p
  }

  lemma MulMonotone(a: int, b: int, c: int)
    requires c >= 0 && a <= b
    ensures a * c <= b * c
  {
  }

  lemma MulCancel(a: int, b: int, c: int)
    requires c > 0 && a * c <= b * c
    ensures a <= b
  {
    if a > b {
      MulMonotone(b + 1, a, c);
      MulSucc(b, c);
    }
  }

  lemma MulSucc(a: int, c: int)
    ensures (a + 1) * c == a * c + c
  {
  }

  lemma MulScale(n: int, k: int, d: int, m: int)
    ensures 2 * (n - k * d) * m == 2 * (n * m - k * (d * m))
  {
    assert (n - k * d) * m == n * m - (k * d) * m;
    assert (k * d) * m == k * (d * m);
  }

  /**
   * Python's `round` of the fraction n / d: the nearest integer, and the
   * even one of the two when n / d lies exactly half-way.
   */
  function RoundHalfEven(n: int, d: int): (k: int)
    requires d > 0
    ensures -d <= 2 * (n - k * d) <= d
    ensures 2 * (n - k * d) == d || 2 * (n - k * d) == -d ==> k % 2 == 0
  {
    var q, r := n / d, n % d;
    MulSucc(q, d);
    if 2 * r < d then q
    else if 2 * r > d then q + 1
    else if q % 2 == 0 then q
    else q + 1
  }

  /** Those two properties leave exactly one integer: `RoundHalfEven` is Python's `round`. */
  lemma RoundHalfEvenUnique(n: int, d: int, k: int)
    requires d > 0
    requires -d <= 2 * (n - k * d) <= d
    requires 2 * (n - k * d) == d || 2 * (n - k * d) == -d ==> k % 2 == 0
    ensures k == RoundHalfEven(n, d)
  {
    var j := RoundHalfEven(n, d);
    if k > j + 1 {
      MulMonotone(j + 2, k, d);
      MulSucc(j + 1, d);
      MulSucc(j, d);
    } else if j > k + 1 {
      MulMonotone(k + 2, j, d);
      MulSucc(k + 1, d);
      MulSucc(k, d);
    } else if k == j + 1 {
      MulSucc(j, d);
    } else if j == k + 1 {
      MulSucc(k, d);
    }
  }

  /** A rounded value between 0 and `hi` stays between 0 and `hi`. */
  lemma RoundWithin(n: int, d: int, hi: nat)
    requires d > 0 && 0 <= n <= hi * d
    ensures 0 <= RoundHalfEven(n, d) <= hi
  {
    var k := RoundHalfEven(n, d);
    if k > hi {
      MulMonotone(hi + 1, k, d);
      MulSucc(hi, d);
    } else if k < 0 {
      MulMonotone(k, -1, d);
    }
  }

  lemma MulInjective(a: int, b: int, c: int)
    requires c > 0 && a * c == b * c
    ensures a == b
  {
    MulCancel(a, b, c);
    MulCancel(b, a, c);
  }

  /** Scaling numerator and denominator alike does not change the rounded value. */
  lemma RoundScale(n: int, d: int, m: int)
    requires d > 0 && m > 0
    ensures d * m > 0 && RoundHalfEven(n * m, d * m) == RoundHalfEven(n, d)
  {
    var k := RoundHalfEven(n, d);
    var e := 2 * (n - k * d);
    MulMonotone(1, d, m);
    MulScale(n, k, d, m);
    MulMonotone(-d, e, m);
    MulMonotone(e, d, m);
    assert (-d) * m == -(d * m);
    if e * m == d * m {
      MulInjective(e, d, m);
    }
    if e * m == -(d * m) {
      MulInjective(e, -d, m);
    }
    RoundHalfEvenUnique(n * m, d * m, k);
  }

  /** Over one denominator, `round` never decreases. */
  lemma RoundMonotoneSameDen(n1: int, n2: int, d: int)
    requires d > 0 && n1 <= n2
    ensures RoundHalfEven(n1, d) <= RoundHalfEven(n2, d)
  {
    var k1, k2 := RoundHalfEven(n1, d), RoundHalfEven(n2, d);
    if k1 > k2 + 1 {
      MulMonotone(k2 + 2, k1, d);
      MulSucc(k2 + 1, d);
      MulSucc(k2, d);
    } else if k1 == k2 + 1 {
      // n1 / d and n2 / d would both sit on the midpoint between k2 and k1
      MulSucc(k2, d);
    }
  }

  /** A larger fraction never rounds lower. */
  lemma RoundMonotone(n1: int, d1: int, n2: int, d2: int)
    requires d1 > 0 && d2 > 0 && n1 * d2 <= n2 * d1
    ensures RoundHalfEven(n1, d1) <= RoundHalfEven(n2, d2)
  {
    RoundScale(n1, d1, d2);
    RoundScale(n2, d2, d1);
    assert d2 * d1 == d1 * d2;
    RoundMonotoneSameDen(n1 * d2, n2 * d1, d1 * d2);
  }

  /** `round(width * (percent / 100))` for a clamped percentage. */
  function Filled(width: nat, p: Percent): (k: nat)
    requires InRange(p)
    ensures k <= width
  {
    MulMonotone(p.num, 100 * p.den, width);
    assert width * (100 * p.den) == (100 * p.den) * width;
    RoundWithin(width * p.num, 100 * p.den, width);
    RoundHalfEven(width * p.num, 100 * p.den)
  }

  /** `f"{percent:.0f}"` for a clamped percentage, as a number. */
  function Shown(p: Percent): (k: nat)
    requires InRange(p)
    ensures k <= 100
  {
    RoundWithin(p.num, p.den, 100);
    RoundHalfEven(p.num, p.den)
  }

  function Repeat(c: char, n: nat): (s: string)
    ensures |s| == n && forall i :: 0 <= i < n ==> s[i] == c
  {
    seq(n, _ => c)
  }

  /**
   * `create_progress_bar(percent, width)`: `width` glyphs, the first
   * `Filled` of them full and the rest empty, a blank, the shown percentage
   * and a percent sign.
   */
  function CreateProgressBar(p: Percent, width: nat): (bar: string)
    ensures |bar| >= width + 3
    ensures forall i :: 0 <= i < width ==>
              (bar[i] == FULL || bar[i] == EMPTY)
              && (bar[i] == FULL <==> i < Filled(width, Clamp(p)))
    ensures bar[width] == ' ' && bar[|bar| - 1] == '%'
    ensures bar[width + 1..|bar| - 1] == NatToString(Shown(Clamp(p)))
  {
    var c := Clamp(p);
    var f := Filled(width, c);
    var bar := Repeat(FULL, f) + Repeat(EMPTY, width - f) + " " + NatToString(Shown(c)) + "%";
    assert bar[width + 1..|bar| - 1] == NatToString(Shown(c));
    bar
  }

  /** The number of full glyphs, as used in the bar. */
  function CountFull(bar: string, width: nat): nat
    requires width <= |bar|
  {
    if width == 0 then 0 else CountFull(bar, width - 1) + (if bar[width - 1] == FULL then 1 else 0)
  }

  /**
   * The bar has exactly `width` glyphs: `filled` full ones and
   * `width - filled` empty ones, with `0 <= filled <= width`.
   */
  lemma {:induction false} GlyphsAddUp(p: Percent, width: nat)
    ensures var bar := CreateProgressBar(p, width);
            var filled := CountFull(bar, width);
            filled == Filled(width, Clamp(p)) && filled <= width
            && |set i | 0 <= i < width && bar[i] == EMPTY| == width - filled
  {
    var bar := CreateProgressBar(p, width);
    var f := Filled(width, Clamp(p));
    CountFullPrefix(bar, width, f);
    var empties := set i | 0 <= i < width && bar[i] == EMPTY;
    RangeSize(f, width);
    assert empties == Range(f, width);
  }

  lemma {:induction false} CountFullPrefix(bar: string, n: nat, f: nat)
    requires n <= |bar| && f <= |bar|
    requires forall i :: 0 <= i < |bar| ==> (bar[i] == FULL <==> i < f)
    ensures CountFull(bar, n) == if n < f then n else f
  {
    if n > 0 {
      CountFullPrefix(bar, n - 1, f);
    }
  }

  function Range(lo: int, hi: int): set<int>
    decreases hi - lo
  {
    if lo >= hi then {} else {lo} + Range(lo + 1, hi)
  }

  lemma {:induction false} RangeSize(lo: int, hi: int)
    requires lo <= hi
    ensures |Range(lo, hi)| == hi - lo
    ensures forall i :: i in Range(lo, hi) <==> lo <= i < hi
    decreases hi - lo
  {
    if lo < hi {
      RangeSize(lo + 1, hi);
    }
  }

  /** Every percentage of 100 or more renders the same as 100. */
  lemma AboveHundredIsHundred(p: Percent, width: nat)
    requires p.num >= 100 * p.den
    ensures CreateProgressBar(p, width) == CreateProgressBar(Percent(100, 1), width)
  {
    if p.num == 100 * p.den {
      assert Clamp(p) == p;
      assert width * p.num - width * (100 * 1) * p.den == 0;
      RoundHalfEvenUnique(width * p.num, 100 * p.den, width);
      RoundHalfEvenUnique(width * 100, 100, width);
      RoundHalfEvenUnique(p.num, p.den, 100);
    }
  }

  /** Every percentage of 0 or less renders the same as 0. */
  lemma BelowZeroIsZero(p: Percent, width: nat)
    requires p.num <= 0
    ensures CreateProgressBar(p, width) == CreateProgressBar(Percent(0, 1), width)
  {
    if p.num == 0 {
      assert Clamp(p) == p;
      RoundHalfEvenUnique(0, 100 * p.den, 0);
      RoundHalfEvenUnique(0, 100, 0);
      RoundHalfEvenUnique(0, p.den, 0);
    }
  }

  /** At 0 no glyph is full; at 100 every glyph is. */
  lemma FilledAtBounds(width: nat, c: Percent)
    requires InRange(c)
    ensures c.num == 0 ==> Filled(width, c) == 0
    ensures c.num == 100 * c.den ==> Filled(width, c) == width
  {
    if c.num == 0 {
      RoundHalfEvenUnique(width * c.num, 100 * c.den, 0);
    }
    if c.num == 100 * c.den {
      assert width * c.num == width * (100 * c.den);
      RoundHalfEvenUnique(width * c.num, 100 * c.den, width);
    }
  }

  /** Inside the range, a larger percentage never draws fewer full glyphs. */
  lemma FilledMonotoneInRange(width: nat, p: Percent, q: Percent)
    requires InRange(p) && InRange(q) && p.num * q.den <= q.num * p.den
    ensures Filled(width, p) <= Filled(width, q)
  {
    MulMonotone(p.num * q.den, q.num * p.den, 100 * width);
    assert (width * p.num) * (100 * q.den) == (p.num * q.den) * (100 * width);
    assert (width * q.num) * (100 * p.den) == (q.num * p.den) * (100 * width);
    RoundMonotone(width * p.num, 100 * p.den, width * q.num, 100 * q.den);
  }

  /** Two percentages strictly inside (0, 100), in order, are in range. */
  lemma OrderedInside(p: Percent, q: Percent)
    requires p.num * q.den <= q.num * p.den
    requires p.num > 0 && q.num < 100 * q.den
    ensures InRange(p) && InRange(q)
  {
    MulMonotone(q.num, 100 * q.den, p.den);
    assert q.num * p.den <= 100 * q.den * p.den;
    assert p.num * q.den <= (100 * p.den) * q.den;
    MulCancel(p.num, 100 * p.den, q.den);
    MulMonotone(0, p.num, q.den);
    assert 0 <= q.num * p.den;
    if q.num < 0 {
      MulMonotone(q.num, -1, p.den);
    }
  }

  /** A larger percentage never draws fewer full glyphs. */
  lemma FilledMonotone(width: nat, p: Percent, q: Percent)
    requires p.num * q.den <= q.num * p.den
    ensures Filled(width, Clamp(p)) <= Filled(width, Clamp(q))
  {
    if p.num <= 0 {
      FilledAtBounds(width, Clamp(p));
    } else if q.num >= 100 * q.den {
      FilledAtBounds(width, Clamp(q));
    } else {
      OrderedInside(p, q);
      FilledMonotoneInRange(width, p, q);
    }
  }
}
