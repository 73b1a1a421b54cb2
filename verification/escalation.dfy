/** Arithmetic shared by the rent and the salary schedules: the stepwise
    yearly escalation of a monthly amount, the two rounding rules applied to
    it (ceiling to a whole currency unit, rounding to cents with ties to
    even), and the run of month-start dates a schedule is laid out on.
    Money and rates are exact reals. */
module Escalation {

  /** x raised to a natural power, as Python's `**` with an int exponent. */
  function Pow(x: real, k: nat): (r: real)
    ensures x >= 0.0 ==> r >= 0.0
  {
    if k == 0 then 1.0 else x * Pow(x, k - 1)
  }

  lemma {:induction false} PowOfOne(k: nat)
    ensures Pow(1.0, k) == 1.0
  {
    if k > 0 {
      PowOfOne(k - 1);
    }
  }

  lemma {:induction false} PowAtLeastOne(x: real, k: nat)
    requires x >= 1.0
    ensures Pow(x, k) >= 1.0
  {
    if k > 0 {
      PowAtLeastOne(x, k - 1);
      assert x * Pow(x, k - 1) >= 1.0 * Pow(x, k - 1);
    }
  }

  /** With a base of at least one, a larger exponent never gives less. */
  lemma {:induction false} PowGrowsWithExponent(x: real, k: nat, m: nat)
    requires x >= 1.0 && k <= m
    ensures 1.0 <= Pow(x, k) <= Pow(x, m)
  {
    if k == m {
      PowAtLeastOne(x, k);
    } else {
      PowGrowsWithExponent(x, k, m - 1);
      var p := Pow(x, m - 1);
      assert x * p - p == (x - 1.0) * p;
      assert (x - 1.0) * p >= 0.0;
    }
  }

  /** With a base above one, every extra exponent step strictly grows. */
  lemma PowStepGrows(x: real, k: nat)
    requires x > 1.0
    ensures Pow(x, k) < Pow(x, k + 1)
  {
    PowAtLeastOne(x, k);
    var p := Pow(x, k);
    assert x * p - p == (x - 1.0) * p;
    assert (x - 1.0) * p > 0.0;
  }

  /** Python's `math.ceil`: the least integer not below x. */
  function Ceil(x: real): (r: int)
    ensures x <= r as real < x + 1.0
  {
    -((-x).Floor)
  }

  /** The two bounds of Ceil determine it: it is the only such integer. */
  lemma CeilUnique(x: real, n: int)
    requires x <= n as real < x + 1.0
    ensures n == Ceil(x)
  {
  }

  lemma CeilMonotone(x: real, y: real)
    requires x <= y
    ensures Ceil(x) <= Ceil(y)
  {
  }

  /** The integer nearest to y; a tie (y exactly halfway) goes to the even
      neighbour, as Python's `round` does. */
  function RoundHalfEven(y: real): (n: int)
    ensures -0.5 <= n as real - y <= 0.5
    ensures (n as real - y == 0.5 || y - n as real == 0.5) ==> n % 2 == 0
  {
    var f := y.Floor;
    var d := y - f as real;
    if d < 0.5 then f
    else if d > 0.5 then f + 1
    else if f % 2 == 0 then f
    else f + 1
  }

  /** Nearest-with-ties-to-even determines RoundHalfEven: any integer that
      meets its contract is its result. */
  lemma RoundHalfEvenUnique(y: real, m: int)
    requires -0.5 <= m as real - y <= 0.5
    requires (m as real - y == 0.5 || y - m as real == 0.5) ==> m % 2 == 0
    ensures m == RoundHalfEven(y)
  {
  }

  lemma RoundHalfEvenMonotone(x: real, y: real)
    requires x <= y
    ensures RoundHalfEven(x) <= RoundHalfEven(y)
  {
    if x < y {
      var n, m := RoundHalfEven(x), RoundHalfEven(y);
      assert n as real <= x + 0.5 && y - 0.5 <= m as real;
    }
  }

  /** A whole number of cents: one hundred times it is an integer. */
  predicate IsWholeCents(v: real)
  {
    (v * 100.0).Floor as real == v * 100.0
  }

  /** Python's `round(x, 2)` on the exact value: the nearest whole number of
      cents, ties to an even number of cents. */
  function RoundCents(x: real): (r: real)
    ensures IsWholeCents(r)
    ensures -0.005 <= r - x <= 0.005
    ensures (r - x == 0.005 || x - r == 0.005) ==> (r * 100.0).Floor % 2 == 0
  {
    RoundHalfEven(x * 100.0) as real / 100.0
  }

  /** Nearest whole cents with ties to an even number of cents determines
      RoundCents: any amount that meets its contract is its result. */
  lemma RoundCentsUnique(x: real, v: real)
    requires IsWholeCents(v)
    requires -0.005 <= v - x <= 0.005
    requires (v - x == 0.005 || x - v == 0.005) ==> (v * 100.0).Floor % 2 == 0
    ensures v == RoundCents(x)
  {
    var m := (v * 100.0).Floor;
    assert m as real == v * 100.0;
    RoundHalfEvenUnique(x * 100.0, m);
  }

  lemma RoundCentsMonotone(x: real, y: real)
    requires x <= y
    ensures RoundCents(x) <= RoundCents(y)
  {
    RoundHalfEvenMonotone(x * 100.0, y * 100.0);
  }

  /** An amount already in whole cents is left unchanged by RoundCents. */
  lemma RoundCentsOfWholeCents(v: real)
    requires IsWholeCents(v)
    ensures RoundCents(v) == v
  {
    var n := (v * 100.0).Floor;
    RoundHalfEvenUnique(v * 100.0, n);
  }

  /** The exact (unrounded) amount for month index monthN: `amount` escalated
      by `rate` once per full year elapsed, i.e. monthN // 12 times. */
  function Escalated(amount: real, rate: real, monthN: nat): (r: real)
    ensures amount >= 0.0 && rate >= -1.0 ==> r >= 0.0
  {
    amount * Pow(1.0 + rate, monthN / 12)
  }

  /** The escalated amount depends on the month only through its year. */
  lemma EscalatedSameYear(amount: real, rate: real, i: nat, j: nat)
    requires i / 12 == j / 12
    ensures Escalated(amount, rate, i) == Escalated(amount, rate, j)
  {
  }

  /** At the first month of year k the amount is escalated exactly k times. */
  lemma EscalatedAtYearStart(amount: real, rate: real, k: nat)
    ensures Escalated(amount, rate, 12 * k) == amount * Pow(1.0 + rate, k)
  {
    assert (12 * k) / 12 == k;
  }

  /** A non-negative amount at a non-negative rate never decreases over time. */
  lemma EscalatedMonotone(amount: real, rate: real, i: nat, j: nat)
    requires amount >= 0.0 && rate >= 0.0 && i <= j
    ensures 0.0 <= Escalated(amount, rate, i) <= Escalated(amount, rate, j)
  {
    assert i / 12 <= j / 12;
    var p, q := Pow(1.0 + rate, i / 12), Pow(1.0 + rate, j / 12);
    PowGrowsWithExponent(1.0 + rate, i / 12, j / 12);
    assert amount * q - amount * p == amount * (q - p);
    assert amount * (q - p) >= 0.0;
  }

  /** A positive amount at a positive rate grows at every year boundary. */
  lemma EscalatedStrictAtYearBoundary(amount: real, rate: real, k: nat)
    requires amount > 0.0 && rate > 0.0
    ensures Escalated(amount, rate, 12 * k) < Escalated(amount, rate, 12 * (k + 1))
  {
    var p, q := Pow(1.0 + rate, k), Pow(1.0 + rate, k + 1);
    EscalatedAtYearStart(amount, rate, k);
    EscalatedAtYearStart(amount, rate, k + 1);
    assert Escalated(amount, rate, 12 * k) == amount * p;
    assert Escalated(amount, rate, 12 * (k + 1)) == amount * q;
    PowStepGrows(1.0 + rate, k);
    ScaleStrict(amount, p, q);
  }

  lemma ScaleStrict(a: real, p: real, q: real)
    requires a > 0.0 && p < q
    ensures a * p < a * q
  {
    assert a * q - a * p == a * (q - p);
  }

  /** At a zero rate the amount never changes. */
  lemma EscalatedZeroRate(amount: real, monthN: nat)
    ensures Escalated(amount, 0.0, monthN) == amount
  {
    PowOfOne(monthN / 12);
  }

  /** The month-start dates of a schedule: `periods` consecutive months from
      `start`, months counted as integers (a calendar month is start + k). */
  function MonthStarts(start: int, periods: nat): (d: seq<int>)
    ensures |d| == periods
    ensures forall k :: 0 <= k < periods ==> d[k] == start + k
  {
    seq(periods, k => start + k)
  }

  /** A run of consecutive months: strictly increasing by one, no gaps. */
  ghost predicate IsMonthRun(d: seq<int>)
  {
    forall k :: 0 <= k < |d| ==> d[k] == d[0] + k
  }
}
