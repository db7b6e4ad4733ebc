/** `Number(x.toFixed(d))` in exact arithmetic: the nearest multiple of 1/scale, where
    scale is 10^d and ties go away from zero. */
module Decimal {

  function Nearest(x: real): int {
    if x >= 0.0 then (x + 0.5).Floor else -((-x + 0.5).Floor)
  }

  function Fixed(x: real, scale: real): real
    requires scale > 0.0
  {
    Nearest(x * scale) as real / scale
  }

  lemma NearestError(x: real)
    ensures -0.5 <= Nearest(x) as real - x <= 0.5
  {
    var y := (if x >= 0.0 then x else -x) + 0.5;
    assert y - 1.0 < y.Floor as real <= y;
  }

  /** The nearest whole number; halfway between two, the one further from zero. */
  lemma NearestMeaning(x: real, n: int)
    ensures n == Nearest(x) <==>
      if x >= 0.0 then n as real - 0.5 <= x < n as real + 0.5 else n as real - 0.5 < x <= n as real + 0.5
  {
    var y := (if x >= 0.0 then x else -x) + 0.5;
    assert y - 1.0 < y.Floor as real <= y;
  }

  lemma NearestMonotone(x: real, y: real)
    requires x <= y
    ensures Nearest(x) <= Nearest(y)
  {
    NearestError(x);
    NearestError(y);
  }

  lemma ScaleMonotone(a: real, b: real, s: real)
    requires s > 0.0 && a <= b
    ensures a * s <= b * s
  {
    assert (b - a) * s >= 0.0;
  }

  lemma QuotientTimes(a: real, s: real)
    requires s > 0.0
    ensures a / s * s == a
  {
  }

  lemma TimesQuotient(a: real, s: real)
    requires s > 0.0
    ensures a * s / s == a
  {
  }

  lemma QuotientMonotone(a: real, b: real, s: real)
    requires s > 0.0 && a <= b
    ensures a / s <= b / s
  {
    QuotientTimes(a, s);
    QuotientTimes(b, s);
    assert (b / s - a / s) * s >= 0.0;
  }

  lemma QuotientSum(a: real, b: real, s: real)
    requires s > 0.0
    ensures (a + b) / s == a / s + b / s
  {
    QuotientTimes(a, s);
    QuotientTimes(b, s);
    assert (a / s + b / s) * s == a / s * s + b / s * s;
    TimesQuotient(a / s + b / s, s);
  }

  lemma WithinHalf(x: real, y: real, n: real, s: real)
    requires s > 0.0 && y == x * s && y - 0.5 <= n <= y + 0.5
    ensures x - 0.5 / s <= n / s <= x + 0.5 / s
  {
    TimesQuotient(x, s);
    QuotientMonotone(n, y + 0.5, s);
    QuotientSum(y, 0.5, s);
    QuotientMonotone(y, n + 0.5, s);
    QuotientSum(n, 0.5, s);
  }

  /** Rounding moves a number by at most half a unit of the last place. */
  lemma FixedError(x: real, scale: real)
    requires scale > 0.0
    ensures x - 0.5 / scale <= Fixed(x, scale) <= x + 0.5 / scale
  {
    NearestError(x * scale);
    WithinHalf(x, x * scale, Nearest(x * scale) as real, scale);
  }

  lemma FixedMonotone(x: real, y: real, scale: real)
    requires scale > 0.0 && x <= y
    ensures Fixed(x, scale) <= Fixed(y, scale)
  {
    ScaleMonotone(x, y, scale);
    NearestMonotone(x * scale, y * scale);
    QuotientMonotone(Nearest(x * scale) as real, Nearest(y * scale) as real, scale);
  }

  lemma NearestExact(n: int)
    ensures Nearest(n as real) == n
  {
    NearestError(n as real);
  }

  /** A multiple of the unit is left alone. */
  lemma FixedExact(x: real, n: int, scale: real)
    requires scale > 0.0 && x * scale == n as real
    ensures Fixed(x, scale) == x
  {
    NearestExact(n);
    TimesQuotient(x, scale);
  }
}
