/** Exact decimal arithmetic, as Python's `decimal` module performs it on the shop's
    money fields. A decimal is an integer coefficient and a number of places after the
    point; the precision of the default context (28 digits) is never reached by the
    field sizes involved, so addition, subtraction and multiplication are exact and the
    only rounding is the explicit one of `round(x, n)`, which is half-to-even. */
module Decimals {

  /** The number units / 10^scale. */
  datatype Decimal = Decimal(units: int, scale: nat)

  function Pow10(k: nat): (r: nat)
    ensures r >= 1
  {
    if k == 0 then 1 else 10 * Pow10(k - 1)
  }

  lemma {:induction false} Pow10Add(m: nat, n: nat)
    ensures Pow10(m + n) == Pow10(m) * Pow10(n)
  {
    if m > 0 {
      Pow10Add(m - 1, n);
      assert Pow10(m + n) == 10 * Pow10(m - 1 + n);
    }
  }

  /** The rational number a decimal denotes. */
  ghost function Value(a: Decimal): real
  {
    a.units as real / Pow10(a.scale) as real
  }

  function FromInt(n: int): (r: Decimal)
    ensures Value(r) == n as real
  {
    Decimal(n, 0)
  }

  /** The same number written with `s` places. */
  function Rescale(a: Decimal, s: nat): (r: Decimal)
    requires a.scale <= s
    ensures r.scale == s && Value(r) == Value(a)
  {
    Pow10Add(s - a.scale, a.scale);
    var k := Pow10(s - a.scale);
    var r := Decimal(a.units * k, s);
    ScaleBoth(a.units, k, Pow10(a.scale));
    r
  }

  lemma ScaleBoth(u: int, k: nat, p: nat)
    requires k >= 1 && p >= 1
    ensures (u * k) as real / (k * p) as real == u as real / p as real
  {
    var x := u as real / p as real;
    assert u as real == x * p as real;
    assert (u * k) as real == x * (k * p) as real;
  }

  function Max(a: nat, b: nat): nat { if a < b then b else a }

  /** Exact subtraction: the result has the larger of the two scales. */
  function Sub(a: Decimal, b: Decimal): (r: Decimal)
    ensures r.scale == Max(a.scale, b.scale)
    ensures Value(r) == Value(a) - Value(b)
  {
    var s := Max(a.scale, b.scale);
    var a', b' := Rescale(a, s), Rescale(b, s);
    var r := Decimal(a'.units - b'.units, s);
    SubSameScale(a'.units, b'.units, Pow10(s));
    r
  }

  lemma SubSameScale(x: int, y: int, p: nat)
    requires p >= 1
    ensures (x - y) as real / p as real == x as real / p as real - y as real / p as real
  {
  }

  /** Exact multiplication: the scales add up. */
  function Mul(a: Decimal, b: Decimal): (r: Decimal)
    ensures r.scale == a.scale + b.scale
    ensures Value(r) == Value(a) * Value(b)
  {
    Pow10Add(a.scale, b.scale);
    MulFractions(a.units, b.units, Pow10(a.scale), Pow10(b.scale));
    Decimal(a.units * b.units, a.scale + b.scale)
  }

  lemma MulFractions(x: int, y: int, p: nat, q: nat)
    requires p >= 1 && q >= 1
    ensures (x * y) as real / (p * q) as real == (x as real / p as real) * (y as real / q as real)
  {
    var fx, fy := x as real / p as real, y as real / q as real;
    assert x as real == fx * p as real;
    assert y as real == fy * q as real;
    assert (x * y) as real == (fx * fy) * (p * q) as real;
  }

  /** `a / 100` with an integer divisor. The quotient is exact, and Python gives it the
      fewest places that hold it, but never fewer than `a` has (the ideal exponent of a
      division by a whole number): the places of `a`, one more, or two more. */
  function DivBy100(a: Decimal): (r: Decimal)
    ensures Value(r) * 100.0 == Value(a)
    ensures a.scale <= r.scale <= a.scale + 2
    ensures r.scale == a.scale <==> a.units % 100 == 0
    ensures r.scale == a.scale + 1 <==> a.units % 100 != 0 && a.units % 10 == 0
  {
    var p := Pow10(a.scale);
    if a.units % 100 == 0 then
      var q := a.units / 100;
      HundredTimes(q, p);
      Decimal(q, a.scale)
    else if a.units % 10 == 0 then
      var q := a.units / 10;
      assert Pow10(a.scale + 1) == p * 10;
      TenTimes(q, p);
      Decimal(q, a.scale + 1)
    else
      Pow10Add(a.scale, 2);
      assert Pow10(2) == 100;
      DivideDenominator(a.units, p);
      Decimal(a.units, a.scale + 2)
  }

  lemma HundredTimes(q: int, p: nat)
    requires p >= 1
    ensures (q as real / p as real) * 100.0 == (100 * q) as real / p as real
  {
  }

  lemma TenTimes(q: int, p: nat)
    requires p >= 1
    ensures (q as real / (p * 10) as real) * 100.0 == (10 * q) as real / p as real
  {
    var x := q as real / (p * 10) as real;
    assert q as real == x * (p * 10) as real;
    assert (10 * q) as real == (x * 100.0) * p as real;
  }

  lemma DivideDenominator(u: int, p: nat)
    requires p >= 1
    ensures (u as real / (p * 100) as real) * 100.0 == u as real / p as real
  {
  }

  /** The integer nearest to n / d; a tie goes to the even neighbour. */
  function RoundHalfEven(n: int, d: int): (r: int)
    requires d >= 1
    ensures -d <= 2 * (n - d * r) <= d
    ensures (2 * (n - d * r) == d || 2 * (n - d * r) == -d) ==> r % 2 == 0
  {
    var q, m := n / d, n % d;
    assert n == d * q + m && 0 <= m < d;
    assert d * (q + 1) == d * q + d;
    if 2 * m < d then q
    else if 2 * m > d then q + 1
    else if q % 2 == 0 then q
    else q + 1
  }

  /** Rounding a whole multiple of d gives back the multiplier. */
  lemma RoundHalfEvenExact(k: int, d: int)
    requires d >= 1
    ensures RoundHalfEven(k * d, d) == k
  {
    var r := RoundHalfEven(k * d, d);
    var e := k - r;
    assert k * d - d * r == d * e;
    assert -d <= 2 * (d * e) <= d;
    if e >= 1 {
      MulAtLeast(d, e);
    } else if e <= -1 {
      MulAtLeast(d, -e);
    }
  }

  lemma MulAtLeast(d: int, e: int)
    requires d >= 1 && e >= 1
    ensures d * e >= d
  {
    assert d * e == d * (e - 1) + d;
    assert d * (e - 1) >= 0;
  }

  /** Half-even rounding is the only choice with its two properties: any whole number
      within half a unit of n / d that is even on a tie is `RoundHalfEven(n, d)`. */
  lemma RoundHalfEvenUnique(n: int, d: int, r: int)
    requires d >= 1
    requires -d <= 2 * (n - d * r) <= d
    requires (2 * (n - d * r) == d || 2 * (n - d * r) == -d) ==> r % 2 == 0
    ensures r == RoundHalfEven(n, d)
  {
    var r0 := RoundHalfEven(n, d);
    var x, x0 := d * r, d * r0;
    MulSteps(d, r0, r);
    NearestIsUnique(n, d, r, r0, x, x0);
  }

  /** How far apart d * r and d * r0 lie when r and r0 are one, or at least two, apart. */
  lemma MulSteps(d: int, r0: int, r: int)
    requires d >= 1
    ensures r == r0 + 1 ==> d * r == d * r0 + d
    ensures r == r0 - 1 ==> d * r == d * r0 - d
    ensures r >= r0 + 2 ==> d * r >= d * r0 + 2 * d
    ensures r <= r0 - 2 ==> d * r <= d * r0 - 2 * d
  {
    assert d * r - d * r0 == d * (r - r0);
    if r >= r0 + 2 {
      MulAtLeast(d, r - r0 - 1);
      assert d * (r - r0) == d * (r - r0 - 1) + d;
    } else if r <= r0 - 2 {
      MulAtLeast(d, r0 - r - 1);
      assert d * (r0 - r) == d * (r0 - r - 1) + d;
    }
  }

  /** The linear core of uniqueness, with x = d * r and x0 = d * r0. */
  lemma NearestIsUnique(n: int, d: int, r: int, r0: int, x: int, x0: int)
    requires d >= 1
    requires -d <= 2 * (n - x) <= d && -d <= 2 * (n - x0) <= d
    requires (2 * (n - x) == d || 2 * (n - x) == -d) ==> r % 2 == 0
    requires (2 * (n - x0) == d || 2 * (n - x0) == -d) ==> r0 % 2 == 0
    requires r == r0 + 1 ==> x == x0 + d
    requires r == r0 - 1 ==> x == x0 - d
    requires r >= r0 + 2 ==> x >= x0 + 2 * d
    requires r <= r0 - 2 ==> x <= x0 - 2 * d
    ensures r == r0
  {
  }

  /** Scaling numerator and denominator alike does not change the rounding. */
  lemma RoundHalfEvenScaled(n: int, d: int, k: int)
    requires d >= 1 && k >= 1
    ensures d * k >= 1
    ensures RoundHalfEven(n * k, d * k) == RoundHalfEven(n, d)
  {
    MulAtLeast(d, k);
    var r := RoundHalfEven(n * k, d * k);
    var t := 2 * (n - d * r);
    ScaledGap(n, d, k, r);
    CompareScaled(t, d, k);
    CompareScaled(t, -d, k);
    RoundHalfEvenUnique(n, d, r);
  }

  lemma ScaledGap(n: int, d: int, k: int, r: int)
    ensures 2 * (n * k - (d * k) * r) == (2 * (n - d * r)) * k
    ensures (-d) * k == -(d * k)
  {
    assert (d * k) * r == (d * r) * k;
  }

  lemma CompareScaled(t: int, d: int, k: int)
    requires k >= 1
    ensures t * k <= d * k <==> t <= d
    ensures t * k >= d * k <==> t >= d
    ensures t * k == d * k <==> t == d
  {
    assert t * k - d * k == (t - d) * k;
    if t > d {
      MulAtLeast(k, t - d);
      assert (t - d) * k == k * (t - d);
    } else if t < d {
      MulAtLeast(k, d - t);
      assert (d - t) * k == k * (d - t);
      assert d * k - t * k == (d - t) * k;
    }
  }

  /** Python's `round(a, places)`: quantize to `places` places, half-to-even. */
  function RoundTo(a: Decimal, places: nat): (r: Decimal)
    ensures r.scale == places
    ensures a.scale <= places ==> Value(r) == Value(a)
    ensures a.scale > places ==>
      var d: int := Pow10(a.scale - places);
      -d <= 2 * (a.units - d * r.units) <= d
    ensures a.scale > places ==>
      var d: int := Pow10(a.scale - places);
      (2 * (a.units - d * r.units) == d || 2 * (a.units - d * r.units) == -d) ==> r.units % 2 == 0
  {
    if a.scale <= places then Rescale(a, places)
    else Decimal(RoundHalfEven(a.units, Pow10(a.scale - places)), places)
  }

  /** Python's `int(a)`: drops the fraction, rounding toward zero. */
  function Truncate(a: Decimal): (r: int)
    ensures var p := Pow10(a.scale);
      0 <= a.units ==> 0 <= r && r * p <= a.units < r * p + p
    ensures var p := Pow10(a.scale);
      a.units < 0 ==> r <= 0 && r * p - p < a.units <= r * p
  {
    var p := Pow10(a.scale);
    if a.units >= 0 then
      DivBounds(a.units, p);
      a.units / p
    else
      DivBounds(-a.units, p);
      NegateProduct(-a.units / p, p);
      -((-a.units) / p)
  }

  lemma DivBounds(u: nat, p: int)
    requires p >= 1
    ensures 0 <= u / p && (u / p) * p <= u < (u / p) * p + p
  {
  }

  lemma NegateProduct(q: int, p: int)
    ensures (-q) * p == -(q * p)
  {
  }
}
