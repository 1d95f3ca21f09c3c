/**
 * The arithmetic the three copies of the service-interval engine share: JavaScript numbers as the
 * progress code meets them (a real, or `NaN` once an invalid date is involved), `Math.min`,
 * `Math.max` and the clamp into [0, 100], truthiness of nullable fields, and the date steps.
 */
module Gauge {
  import opened Wrappers
  import Calendar
  import opened Types

  /** A JavaScript number on the progress path: a real, or `NaN`. */
  datatype Num = Finite(v: real) | NaN

  /** `Math.max(a, b)`: `NaN` if either is. */
  function Max(a: Num, b: Num): (r: Num)
    ensures r.Finite? <==> a.Finite? && b.Finite?
    ensures r.Finite? ==> r.v >= a.v && r.v >= b.v && (r.v == a.v || r.v == b.v)
  {
    if a.NaN? || b.NaN? then NaN else if a.v >= b.v then a else b
  }

  /** `Math.min(a, b)`: `NaN` if either is. */
  function Min(a: Num, b: Num): (r: Num)
    ensures r.Finite? <==> a.Finite? && b.Finite?
    ensures r.Finite? ==> r.v <= a.v && r.v <= b.v && (r.v == a.v || r.v == b.v)
  {
    if a.NaN? || b.NaN? then NaN else if a.v <= b.v then a else b
  }

  /** `Math.min(Math.max(x, 0), 100)`: a finite `x` lands in [0, 100], unchanged if already there. */
  function Clamp(x: Num): (r: Num)
    ensures r.Finite? <==> x.Finite?
    ensures r.Finite? ==> 0.0 <= r.v <= 100.0
    ensures x.Finite? && 0.0 <= x.v <= 100.0 ==> r == x
    ensures x.Finite? && x.v <= 0.0 ==> r == Finite(0.0)
    ensures x.Finite? && x.v >= 100.0 ==> r == Finite(100.0)
  {
    Min(Max(x, Finite(0.0)), Finite(100.0))
  }

  /** Clamping keeps order: a larger input never gives a smaller result. */
  lemma ClampMonotone(a: real, b: real)
    requires a <= b
    ensures Clamp(Finite(a)).v <= Clamp(Finite(b)).v
  {
  }

  /** A nullable number used as a condition: `null`, `undefined` and 0 are falsy. */
  predicate Truthy(n: Option<int>) {
    n.Some? && n.value != 0
  }

  /** A nullable string used as a condition: `null` and `''` are falsy. */
  predicate Present(s: Option<string>) {
    s.Some? && s.value != ""
  }

  /** `(since / interval) * 100` with JavaScript's real division. */
  function Percent(since: int, interval: int): real
    requires interval != 0
  {
    (since as real / interval as real) * 100.0
  }

  /** The km branch every copy shares: `Math.min(Math.max((kmSinceLast / interval) * 100, 0), 100)`. */
  function KmProgress(currentKm: int, lastKm: int, interval: int): (p: Num)
    requires interval != 0
    ensures p.Finite? && 0.0 <= p.v <= 100.0
  {
    Clamp(Finite(Percent(currentKm - lastKm, interval)))
  }

  /** For a positive interval: 0 up to the last service, 100 from one interval after it, rising between. */
  lemma KmProgressShape(currentKm: int, lastKm: int, interval: int, laterKm: int)
    requires interval > 0 && currentKm <= laterKm
    ensures currentKm <= lastKm ==> KmProgress(currentKm, lastKm, interval) == Finite(0.0)
    ensures currentKm >= lastKm + interval ==> KmProgress(currentKm, lastKm, interval) == Finite(100.0)
    ensures lastKm <= currentKm <= lastKm + interval ==>
      KmProgress(currentKm, lastKm, interval) == Finite(Percent(currentKm - lastKm, interval))
    ensures KmProgress(currentKm, lastKm, interval).v <= KmProgress(laterKm, lastKm, interval).v
  {
    PercentBounds(currentKm - lastKm, interval);
    PercentMonotone(currentKm - lastKm, laterKm - lastKm, interval);
    ClampMonotone(Percent(currentKm - lastKm, interval), Percent(laterKm - lastKm, interval));
  }

  /** Where the raw percentage falls: at most 0 before the start, at least 100 from one interval on. */
  lemma PercentBounds(since: int, interval: int)
    requires interval > 0
    ensures since <= 0 ==> Percent(since, interval) <= 0.0
    ensures since >= interval ==> Percent(since, interval) >= 100.0
    ensures 0 <= since <= interval ==> 0.0 <= Percent(since, interval) <= 100.0
  {
    var d, a := interval as real, since as real;
    if since <= 0 {
      QuotientSign(a, d);
    }
    if since >= interval {
      QuotientAtLeastOne(a, d);
    }
    if 0 <= since <= interval {
      QuotientSign(a, d);
      QuotientAtMostOne(a, d);
    }
  }

  lemma QuotientSign(a: real, d: real)
    requires d > 0.0
    ensures a <= 0.0 ==> a / d <= 0.0
    ensures a >= 0.0 ==> a / d >= 0.0
  {
    var q := a / d;
    assert q * d == a;
  }

  lemma QuotientAtLeastOne(a: real, d: real)
    requires d > 0.0 && a >= d
    ensures a / d >= 1.0
  {
    var q := a / d;
    assert q * d == a;
  }

  lemma QuotientAtMostOne(a: real, d: real)
    requires d > 0.0 && a <= d
    ensures a / d <= 1.0
  {
    var q := a / d;
    assert q * d == a;
  }

  /** More distance gives a larger raw percentage. */
  lemma PercentMonotone(since: int, later: int, interval: int)
    requires interval > 0 && since <= later
    ensures Percent(since, interval) <= Percent(later, interval)
  {
    var d := interval as real;
    var p, q := since as real / d, later as real / d;
    assert p * d == since as real && q * d == later as real;
  }

  /** The time branch's divisor: the value in days, times 30 for months, times 365 for years. */
  function IntervalInDays(unit: IntervalType, value: int): (d: int)
    ensures value != 0 ==> d != 0
    ensures d == value * (if unit == MONTH then 30 else if unit == YEAR then 365 else 1)
  {
    if unit == MONTH then value * 30 else if unit == YEAR then value * 365 else value
  }

  /** `Math.floor((now - new Date(lastDate)) / msPerDay)`, or `NaN` when `lastDate` is not a date. */
  function DaysSince(lastDate: string, nowMs: int): (r: Option<int>)
    ensures r.Some? <==> Calendar.ParseIsoDate(lastDate).Some?
  {
    match Calendar.ParseIsoDate(lastDate)
    case None => None
    case Some(c) => Some(Calendar.FloorDays(nowMs - Calendar.DayOf(c) * Calendar.MsPerDay))
  }

  /** The whole days from the service date to now are today's day number minus the service day's. */
  lemma DaysSinceIsDayDifference(lastDate: string, nowMs: int)
    requires Calendar.ParseIsoDate(lastDate).Some?
    ensures DaysSince(lastDate, nowMs).value
      == Calendar.FloorDays(nowMs) - Calendar.DayOf(Calendar.ParseIsoDate(lastDate).value)
  {
    Calendar.FloorDaysFromMidnight(nowMs, Calendar.DayOf(Calendar.ParseIsoDate(lastDate).value));
  }

  /** The time branch every copy shares: elapsed whole days over the interval in days, clamped. */
  function TimeProgress(lastDate: string, unit: IntervalType, value: int, nowMs: int): (p: Num)
    requires value != 0
    ensures p.Finite? <==> Calendar.ParseIsoDate(lastDate).Some?
    ensures p.Finite? ==> 0.0 <= p.v <= 100.0
  {
    match DaysSince(lastDate, nowMs)
    case None => NaN
    case Some(days) => Clamp(Finite(Percent(days, IntervalInDays(unit, value))))
  }

  /**
   * For a positive interval and a valid date: 0 up to the service day, 100 once a whole interval
   * of days has passed, and otherwise the share of it that has passed.
   */
  lemma TimeProgressShape(lastDate: string, unit: IntervalType, value: int, nowMs: int)
    requires value > 0 && Calendar.ParseIsoDate(lastDate).Some?
    ensures var days := Calendar.FloorDays(nowMs) - Calendar.DayOf(Calendar.ParseIsoDate(lastDate).value);
      var span := IntervalInDays(unit, value);
      && (days <= 0 ==> TimeProgress(lastDate, unit, value, nowMs) == Finite(0.0))
      && (days >= span ==> TimeProgress(lastDate, unit, value, nowMs) == Finite(100.0))
      && (0 <= days <= span ==> TimeProgress(lastDate, unit, value, nowMs) == Finite(Percent(days, span)))
  {
    DaysSinceIsDayDifference(lastDate, nowMs);
    var days := DaysSince(lastDate, nowMs).value;
    var span := IntervalInDays(unit, value);
    assert span > 0;
    KmProgressShape(days, 0, span, days);
    assert KmProgress(days, 0, span) == TimeProgress(lastDate, unit, value, nowMs);
  }

  /**
   * The due date: `setDate(getDate() + n)` for days, `setMonth(getMonth() + n)` for months,
   * `setFullYear(getFullYear() + n)` for years; any other unit leaves the date where it was.
   * `None` when `lastDate` is not a date.
   */
  function DueDay(lastDate: string, unit: IntervalType, value: int): (r: Option<int>)
    ensures r.Some? <==> Calendar.ParseIsoDate(lastDate).Some?
  {
    match Calendar.ParseIsoDate(lastDate)
    case None => None
    case Some(c) =>
      Some(if unit == DAY then Calendar.AddDays(c, value)
           else if unit == MONTH then Calendar.AddMonths(c, value)
           else if unit == YEAR then Calendar.AddYears(c, value)
           else Calendar.DayOf(c))
  }

  /** A year is twelve months, and a day interval lands exactly `value` days later. */
  lemma DueDayUnits(lastDate: string, value: int)
    requires Calendar.ParseIsoDate(lastDate).Some?
    ensures DueDay(lastDate, YEAR, value) == DueDay(lastDate, MONTH, 12 * value)
    ensures DueDay(lastDate, DAY, value).value == Calendar.DayOf(Calendar.ParseIsoDate(lastDate).value) + value
  {
    Calendar.AddMonthsTwelve(Calendar.ParseIsoDate(lastDate).value, value);
  }
}
