/** Two small arithmetic helpers of the application: moving the shown month, and keeping a
    window on its monitor. */
module Geometry {
  import opened Core

  // ----- the shown month -----

  /** Months counted from year 0: the quantity a month change shifts. */
  function MonthIndex(year: int, month: int): int {
    year * 12 + month - 1
  }

  /** The (year, month) whose month index is `i`, with the month in 1..12. */
  function FromMonthIndex(i: int): (r: (int, int))
    ensures 1 <= r.1 <= 12 && MonthIndex(r.0, r.1) == i
  {
    (i / 12, i % 12 + 1)
  }

  /** A (year, month) with the month in 1..12 is determined by its month index. */
  lemma MonthIndexInjective(y1: int, m1: int, y2: int, m2: int)
    requires 1 <= m1 <= 12 && 1 <= m2 <= 12
    requires MonthIndex(y1, m1) == MonthIndex(y2, m2)
    ensures y1 == y2 && m1 == m2
  {
  }

  /** `_change_month`: the month moves by `delta`, and the two loops carry whole years between
      the month and the year until the month is in 1..12. */
  method ChangeMonth(year: int, month: int, delta: int) returns (newYear: int, newMonth: int)
    ensures 1 <= newMonth <= 12
    ensures MonthIndex(newYear, newMonth) == MonthIndex(year, month) + delta
    ensures (newYear, newMonth) == FromMonthIndex(MonthIndex(year, month) + delta)
  {
    newYear := year;
    newMonth := month + delta;
    while newMonth < 1
      invariant MonthIndex(newYear, newMonth) == MonthIndex(year, month) + delta
      decreases 1 - newMonth
    {
      newMonth := newMonth + 12;
      newYear := newYear - 1;
    }
    while newMonth > 12
      invariant newMonth >= 1
      invariant MonthIndex(newYear, newMonth) == MonthIndex(year, month) + delta
      decreases newMonth
    {
      newMonth := newMonth - 12;
      newYear := newYear + 1;
    }
    var expected := FromMonthIndex(MonthIndex(year, month) + delta);
    MonthIndexInjective(newYear, newMonth, expected.0, expected.1);
  }

  /** Moving forward and back by the same number of months returns to the shown month. */
  lemma {:induction false} ChangeMonthInverse(year: int, month: int, delta: int)
    requires 1 <= month <= 12
    ensures var (y, m) := FromMonthIndex(MonthIndex(year, month) + delta);
            FromMonthIndex(MonthIndex(y, m) - delta) == (year, month)
  {
    var back := FromMonthIndex(MonthIndex(year, month));
    MonthIndexInjective(back.0, back.1, year, month);
  }

  // ----- keeping a window on its monitor -----

  /** A monitor's work area as left, top, right and bottom edges. */
  datatype Bounds = Bounds(left: int, top: int, right: int, bottom: int)

  function Max(a: int, b: int): int { if a >= b then a else b }
  function Min(a: int, b: int): int { if a <= b then a else b }

  /** One axis of `_constrain_to_monitor`: the position clamped to `[low, max(high - size, low)]`. */
  function ClampAxis(p: int, size: int, low: int, high: int): (r: int)
    requires size >= 1
    ensures low <= r <= Max(high - size, low)
    ensures low <= p <= high - size ==> r == p
    ensures size <= high - low ==> r + size <= high
    ensures p < low ==> r == low
  {
    Max(low, Min(p, Max(high - size, low)))
  }

  /** `_constrain_to_monitor` for a window of `width` by `height` at `(x, y)`: no bounds, or
      bounds with no area, leave the position alone; otherwise each axis is clamped so the
      window starts inside the monitor and, when it fits, ends inside it too. Sizes below 1
      count as 1. */
  function ConstrainToMonitor(x: int, y: int, width: int, height: int, bounds: Option<Bounds>): (r: (int, int))
    ensures bounds.None? || bounds.value.right <= bounds.value.left || bounds.value.bottom <= bounds.value.top ==> r == (x, y)
    ensures bounds.Some? && bounds.value.left < bounds.value.right && bounds.value.top < bounds.value.bottom ==>
              var b := bounds.value;
              && b.left <= r.0 < b.right && b.top <= r.1 < b.bottom
              && (b.left <= x && x + Max(width, 1) <= b.right ==> r.0 == x)
              && (b.top <= y && y + Max(height, 1) <= b.bottom ==> r.1 == y)
              && (Max(width, 1) <= b.right - b.left ==> r.0 + Max(width, 1) <= b.right)
              && (Max(height, 1) <= b.bottom - b.top ==> r.1 + Max(height, 1) <= b.bottom)
  {
    var w := Max(width, 1);
    var h := Max(height, 1);
    if bounds.None? then (x, y)
    else
      var b := bounds.value;
      if b.right <= b.left || b.bottom <= b.top then (x, y)
      else (ClampAxis(x, w, b.left, b.right), ClampAxis(y, h, b.top, b.bottom))
  }

  /** Constraining a position that is already constrained changes nothing. */
  lemma ConstrainIdempotent(x: int, y: int, width: int, height: int, bounds: Option<Bounds>)
    ensures var (x1, y1) := ConstrainToMonitor(x, y, width, height, bounds);
            ConstrainToMonitor(x1, y1, width, height, bounds) == (x1, y1)
  {
  }
}
