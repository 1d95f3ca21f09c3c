/**
 * The slice of JavaScript's `Date` that the due-date code uses, with the local time zone taken
 * to be UTC: parsing a `YYYY-MM-DD` string, day numbers counted from 1970-01-01, and the
 * `setDate`/`setMonth`/`setFullYear` arithmetic, whose overflow follows ECMAScript's MakeDay.
 */
module Calendar {
  import opened Wrappers
  import JsText

  /** Milliseconds in a day, `1000 * 60 * 60 * 24`. */
  const MsPerDay: int := 86400000

  /** A calendar date of the proleptic Gregorian calendar; `month` counts from 1. */
  datatype CivilDate = CivilDate(year: int, month: int, day: int)

  predicate IsLeapYear(y: int) {
    (y % 4 == 0 && y % 100 != 0) || y % 400 == 0
  }

  function DaysInMonth(y: int, m: int): (n: int)
    requires 1 <= m <= 12
    ensures 28 <= n <= 31
    ensures n == 29 <==> m == 2 && IsLeapYear(y)
  {
    if m == 2 then (if IsLeapYear(y) then 29 else 28)
    else if m == 4 || m == 6 || m == 9 || m == 11 then 30
    else 31
  }

  predicate IsValidDate(c: CivilDate) {
    1 <= c.month <= 12 && 1 <= c.day <= DaysInMonth(c.year, c.month)
  }

  /** The day number of the first of March of year `y`, counted in 400-year eras of 146097 days. */
  function MarchFirst(y: int): int {
    var era := y / 400;
    var yoe := y % 400;
    era * 146097 + yoe * 365 + yoe / 4 - yoe / 100 - 719468
  }

  /**
   * MakeDay(y, m - 1, d) / msPerDay: the day number of the first of month `m` of year `y`, plus
   * `d - 1`. Any `d` is allowed, so an out-of-range day rolls over into later or earlier months.
   */
  function DayNumber(y: int, m: int, d: int): int
    requires 1 <= m <= 12
  {
    var y' := if m <= 2 then y - 1 else y;
    var mp := if m > 2 then m - 3 else m + 9;
    MarchFirst(y') + (153 * mp + 2) / 5 + d - 1
  }

  function DayOf(c: CivilDate): int
    requires 1 <= c.month <= 12
  {
    DayNumber(c.year, c.month, c.day)
  }

  /** The epoch is day 0. */
  lemma EpochIsDayZero()
    ensures DayNumber(1970, 1, 1) == 0
  {
  }

  /** Counting multiples of `d` up to `r` instead of `r - 1` adds one exactly when `d` divides `r`. */
  lemma DivStep(r: int, d: int)
    requires d > 0
    ensures r / d - (r - 1) / d == (if r % d == 0 then 1 else 0)
  {
    var q, m := (r - 1) / d, (r - 1) % d;
    if m + 1 == d {
      ModOfSplit(r, d, q + 1, 0);
    } else {
      ModOfSplit(r, d, q, m + 1);
    }
  }

  /** Adding whole eras of 400 years changes no remainder by 4 or 100. */
  lemma ModOfEras(era: int, r: int)
    ensures (400 * era + r) % 4 == r % 4 && (400 * era + r) % 100 == r % 100
  {
    ModOfSplit(400 * era + r, 4, 100 * era + r / 4, r % 4);
    ModOfSplit(400 * era + r, 100, 4 * era + r / 100, r % 100);
  }

  /** A year from one first of March to the next has 365 days, or 366 when it holds a 29 February. */
  lemma MarchFirstStep(y: int)
    ensures MarchFirst(y + 1) == MarchFirst(y) + (if IsLeapYear(y + 1) then 366 else 365)
  {
    var era := y / 400;
    var yoe := y % 400;
    if yoe == 399 {
      ModOfSplit(y + 1, 400, era + 1, 0);
    } else {
      var r := yoe + 1;
      ModOfSplit(y + 1, 400, era, r);
      ModOfEras(era, r);
      DivStep(r, 4);
      DivStep(r, 100);
    }
  }

  /** The day after the last day of a month is the first of the next month: day numbers have no gaps. */
  lemma DayAfterMonthEnd(y: int, m: int)
    requires 1 <= m <= 12
    ensures DayNumber(y, m, DaysInMonth(y, m) + 1)
      == if m == 12 then DayNumber(y + 1, 1, 1) else DayNumber(y, m + 1, 1)
  {
    if m == 2 {
      MarchFirstStep(y - 1);
    }
  }

  /** `date.setDate(date.getDate() + n)`. */
  function AddDays(c: CivilDate, n: int): int
    requires 1 <= c.month <= 12
  {
    DayNumber(c.year, c.month, c.day + n)
  }

  /** `date.setMonth(date.getMonth() + n)`: the month moves by `n` (carrying into the year), the day stays. */
  function AddMonths(c: CivilDate, n: int): int
    requires 1 <= c.month <= 12
  {
    var k := c.month - 1 + n;
    DayNumber(c.year + k / 12, k % 12 + 1, c.day)
  }

  /** `date.setFullYear(date.getFullYear() + n)`. */
  function AddYears(c: CivilDate, n: int): int
    requires 1 <= c.month <= 12
  {
    DayNumber(c.year + n, c.month, c.day)
  }

  /** Moving by twelve months lands on the same day as moving by one year; moving by none stays put. */
  lemma AddMonthsTwelve(c: CivilDate, n: int)
    requires 1 <= c.month <= 12
    ensures AddMonths(c, 12 * n) == AddYears(c, n)
    ensures AddMonths(c, 0) == AddDays(c, 0) == DayOf(c)
  {
    ModOfSplit(c.month - 1 + 12 * n, 12, n, c.month - 1);
    ModOfSplit(c.month - 1, 12, 0, c.month - 1);
  }

  /** `Math.floor((later - earlier) / msPerDay)` for two instants in milliseconds. */
  function FloorDays(ms: int): int {
    ms / MsPerDay
  }

  /** For an instant at midnight of day `day`, the floor of the days from it to `nowMs`. */
  lemma FloorDaysFromMidnight(nowMs: int, day: int)
    ensures FloorDays(nowMs - day * MsPerDay) == FloorDays(nowMs) - day
    ensures FloorDays(day * MsPerDay - nowMs)
              == day - FloorDays(nowMs) - (if nowMs % MsPerDay == 0 then 0 else 1)
  {
    var q := nowMs / MsPerDay;
    var r := nowMs % MsPerDay;
    assert nowMs - day * MsPerDay == (q - day) * MsPerDay + r;
    if r == 0 {
      assert day * MsPerDay - nowMs == (day - q) * MsPerDay;
    } else {
      assert day * MsPerDay - nowMs == (day - q - 1) * MsPerDay + (MsPerDay - r);
    }
  }

  predicate IsDigitAt(s: string, i: int) {
    0 <= i < |s| && JsText.IsDecimalDigit(s[i])
  }

  /**
   * `new Date(s)` for the date-only form `YYYY-MM-DD`, which ECMAScript reads as midnight UTC;
   * a string of another shape, or naming a day that does not exist, is an invalid date (`None`).
   */
  function ParseIsoDate(s: string): (r: Option<CivilDate>)
    ensures r.Some? ==> IsValidDate(r.value) && 0 <= r.value.year <= 9999
  {
    if |s| == 10 && s[4] == '-' && s[7] == '-'
       && IsDigitAt(s, 0) && IsDigitAt(s, 1) && IsDigitAt(s, 2) && IsDigitAt(s, 3)
       && IsDigitAt(s, 5) && IsDigitAt(s, 6) && IsDigitAt(s, 8) && IsDigitAt(s, 9)
    then
      var y := JsText.DigitsValue(s[..4], 10);
      var m := JsText.DigitsValue(s[5..7], 10);
      var d := JsText.DigitsValue(s[8..], 10);
      if y <= 9999 && 1 <= m <= 12 && 1 <= d <= DaysInMonth(y, m) then Some(CivilDate(y, m, d)) else None
    else None
  }

  /** `n` written with exactly `width` decimal digits, zero-padded on the left (`padStart(width, '0')`). */
  function PadDigits(n: nat, width: nat): (s: string)
    ensures |s| == width
    ensures forall i | 0 <= i < |s| :: JsText.IsDecimalDigit(s[i])
  {
    if width == 0 then [] else PadDigits(n / 10, width - 1) + [JsText.DecimalChar(n % 10)]
  }

  lemma {:induction false} DigitsValueOfPadDigits(n: nat, width: nat)
    ensures JsText.DigitsValue(PadDigits(n, width), 10) == n % Pow10(width)
  {
    if width > 0 {
      var s := PadDigits(n, width);
      assert s[..|s| - 1] == PadDigits(n / 10, width - 1);
      DigitsValueOfPadDigits(n / 10, width - 1);
      Pow10Step(n, width);
    }
  }

  function Pow10(k: nat): (p: nat)
    ensures p >= 1
  {
    if k == 0 then 1 else 10 * Pow10(k - 1)
  }

  lemma Pow10Step(n: nat, width: nat)
    requires width > 0
    ensures (n / 10) % Pow10(width - 1) * 10 + n % 10 == n % Pow10(width)
  {
    var p := Pow10(width - 1);
    var q := n / 10;
    var a := q / p;
    var b := q % p;
    assert q == a * p + b;
    assert n == 10 * q + n % 10;
    assert n == a * (10 * p) + (b * 10 + n % 10) by {
      assert 10 * q == 10 * (a * p) + 10 * b;
      assert 10 * (a * p) == a * (10 * p);
    }
    assert 0 <= b * 10 + n % 10 < 10 * p;
    ModOfSplit(n, 10 * p, a, b * 10 + n % 10);
  }

  /**
   * Quotient and remainder are unique: whatever splits `n` as `a * d + r` with `0 <= r < d` has
   * `a == n / d` and `r == n % d`.
   */
  lemma ModOfSplit(n: int, d: int, a: int, r: int)
    requires d > 0 && n == a * d + r && 0 <= r < d
    ensures n / d == a && n % d == r
  {
    var q := n / d;
    var m := n % d;
    assert n == q * d + m;
    if q < a {
      assert (a - q) * d == a * d - q * d;
      MulAtLeast(a - q, d);
    } else if q > a {
      assert (q - a) * d == q * d - a * d;
      MulAtLeast(q - a, d);
    }
  }

  lemma {:induction false} MulAtLeast(k: int, d: int)
    requires k >= 1 && d > 0
    ensures k * d >= d
  {
    if k > 1 {
      MulAtLeast(k - 1, d);
      assert k * d == (k - 1) * d + d;
    }
  }

  /** The `YYYY-MM-DD` form of a date of a four-digit year. */
  function FormatIsoDate(c: CivilDate): (s: string)
    requires 0 <= c.year <= 9999 && IsValidDate(c)
    ensures |s| == 10
  {
    PadDigits(c.year, 4) + "-" + PadDigits(c.month, 2) + "-" + PadDigits(c.day, 2)
  }

  /** Every valid date of a four-digit year, written out, reads back as itself. */
  lemma ParseFormatIsoDate(c: CivilDate)
    requires 0 <= c.year <= 9999 && IsValidDate(c)
    ensures ParseIsoDate(FormatIsoDate(c)) == Some(c)
  {
    FormattedShape(c);
    FormattedFields(c);
  }

  lemma FormattedShape(c: CivilDate)
    requires 0 <= c.year <= 9999 && IsValidDate(c)
    ensures var s := FormatIsoDate(c);
      s[4] == '-' && s[7] == '-'
      && IsDigitAt(s, 0) && IsDigitAt(s, 1) && IsDigitAt(s, 2) && IsDigitAt(s, 3)
      && IsDigitAt(s, 5) && IsDigitAt(s, 6) && IsDigitAt(s, 8) && IsDigitAt(s, 9)
  {
    var ys, ms, ds := PadDigits(c.year, 4), PadDigits(c.month, 2), PadDigits(c.day, 2);
    var s := FormatIsoDate(c);
    assert s == ys + "-" + ms + "-" + ds;
    assert s[0] == ys[0] && s[1] == ys[1] && s[2] == ys[2] && s[3] == ys[3];
    assert s[5] == ms[0] && s[6] == ms[1] && s[8] == ds[0] && s[9] == ds[1];
  }

  lemma FormattedFields(c: CivilDate)
    requires 0 <= c.year <= 9999 && IsValidDate(c)
    ensures var s := FormatIsoDate(c);
      JsText.DigitsValue(s[..4], 10) == c.year && JsText.DigitsValue(s[5..7], 10) == c.month
      && JsText.DigitsValue(s[8..], 10) == c.day
  {
    var ys, ms, ds := PadDigits(c.year, 4), PadDigits(c.month, 2), PadDigits(c.day, 2);
    var s := FormatIsoDate(c);
    assert s == ys + "-" + ms + "-" + ds;
    assert s[..4] == ys && s[5..7] == ms && s[8..] == ds;
    PaddedValue(c.year, 4);
    PaddedValue(c.month, 2);
    PaddedValue(c.day, 2);
  }

  /** A number that fits in `width` digits reads back from its zero-padded form. */
  lemma PaddedValue(n: nat, width: nat)
    requires n < Pow10(width)
    ensures JsText.DigitsValue(PadDigits(n, width), 10) == n
  {
    DigitsValueOfPadDigits(n, width);
  }
}
