/**
 * The vehicle-tax reminders of the vehicle detail page
 * (client/src/components/vehicles/VehicleDetailPage.tsx): the next annual tax month, the next
 * five-yearly tax-and-plate month, how many calendar months away each is, and the badge colour
 * and text shown for it. Dates are (year, month index) pairs as `getFullYear`/`getMonth` give
 * them; "now" is a parameter.
 */
module TaxReminder {
  import opened Wrappers
  import JsText
  import opened Types

  /** A month index as `Date.getMonth()` returns it: 0 for January up to 11 for December. */
  type MonthIndex = m: int | 0 <= m < 12

  datatype YearMonth = YearMonth(year: int, month: MonthIndex)

  /** Calendar order on (year, month) pairs. */
  predicate NotBefore(a: YearMonth, b: YearMonth) {
    a.year > b.year || (a.year == b.year && a.month >= b.month)
  }

  /**
   * `new Date(year, month, 1)` read back through `getFullYear`/`getMonth`: a two-digit year
   * 0..99 means 1900..1999, and a month index outside 0..11 carries into the year.
   */
  function MakeDate(year: int, month: int): (d: YearMonth)
    ensures !(0 <= year <= 99) && 0 <= month < 12 ==> d == YearMonth(year, month)
    ensures d.month == month % 12
  {
    var fullYear := if 0 <= year <= 99 then 1900 + year else year;
    YearMonth(fullYear + month / 12, month % 12)
  }

  /** `getMonthsUntil`: whole calendar months from `now` to `target`, ignoring the day. */
  function MonthsUntil(target: YearMonth, now: YearMonth): (n: int)
    ensures n == 0 <==> target == now
    ensures n >= 0 <==> NotBefore(target, now)
  {
    (target.year - now.year) * 12 + (target.month - now.month)
  }

  /** The month `k` calendar months after `from` (before it, for negative `k`). */
  function Shift(from: YearMonth, k: int): YearMonth {
    YearMonth(from.year + (from.month + k) / 12, (from.month + k) % 12)
  }

  /** Counting months is the inverse of stepping by months, in both directions. */
  lemma MonthsUntilShift(now: YearMonth, k: int, target: YearMonth)
    ensures MonthsUntil(Shift(now, k), now) == k
    ensures Shift(now, MonthsUntil(target, now)) == target
  {
    var s := now.month + k;
    assert s == (s / 12) * 12 + s % 12;
    var t := now.month + MonthsUntil(target, now);
    assert t == (target.year - now.year) * 12 + target.month;
    DivModUnique(t, target.year - now.year, target.month);
  }

  lemma DivModUnique(t: int, q: int, r: int)
    requires 0 <= r < 12 && t == q * 12 + r
    ensures t / 12 == q && t % 12 == r
  {
  }

  // ---- Annual tax ----

  /**
   * `getNextAnnualTaxDate`: the registration month `bulanPajak` (1 = January) of this year if
   * it has not passed yet (the current month counts), otherwise of next year.
   */
  function NextAnnual(bulanPajak: int, now: YearMonth): YearMonth {
    var dueMonth := bulanPajak - 1;
    var dueYear := if dueMonth >= now.month then now.year else now.year + 1;
    MakeDate(dueYear, dueMonth)
  }

  /**
   * For a month 1..12 (and a four-digit current year): the annual date falls in that month, is
   * 0..11 months away, and is exactly the first such month from now on.
   */
  lemma AnnualWindow(bulanPajak: int, now: YearMonth)
    requires 1 <= bulanPajak <= 12 && now.year >= 100
    ensures var d := NextAnnual(bulanPajak, now);
      && d.month == bulanPajak - 1
      && 0 <= MonthsUntil(d, now) <= 11
      && MonthsUntil(d, now) == (bulanPajak - 1 - now.month) % 12
      && (d.year == now.year <==> bulanPajak - 1 >= now.month)
  {
  }

  // ---- Five-yearly tax and plate ----

  /** `dueYear += Math.ceil((nowYear - dueYear) / 5) * 5` for a year in the past. */
  function CatchUp(year: int, nowYear: int): (y: int)
    requires year < nowYear
    ensures nowYear <= y < nowYear + 5
    ensures (y - year) % 5 == 0
  {
    var gap := nowYear - year;
    var steps := (gap + 4) / 5;
    year + steps * 5
  }

  /**
   * `getNextFiveYearTaxDate`: starting from the vehicle's year `tahun`, a year in the past is
   * moved forward in steps of five to this year or later; if that lands on this year after the
   * registration month, it moves five more.
   */
  function NextFiveYear(bulanPajak: int, tahun: int, now: YearMonth): YearMonth {
    var dueMonth := bulanPajak - 1;
    var caughtUp := if tahun < now.year then CatchUp(tahun, now.year) else tahun;
    var dueYear := if caughtUp == now.year && dueMonth < now.month then caughtUp + 5 else caughtUp;
    MakeDate(dueYear, dueMonth)
  }

  /**
   * For a month 1..12 and a vehicle year not after the current (four-digit) year: the date
   * falls in the registration month of a year that is a multiple of five after `tahun`, it is
   * 0..59 months away, and no earlier such month lies ahead of now.
   */
  lemma FiveYearWindow(bulanPajak: int, tahun: int, now: YearMonth, other: int)
    requires 1 <= bulanPajak <= 12 && tahun <= now.year && now.year >= 100
    ensures var d := NextFiveYear(bulanPajak, tahun, now);
      && d.month == bulanPajak - 1
      && d.year >= now.year
      && (d.year - tahun) % 5 == 0
      && 0 <= MonthsUntil(d, now) <= 59
      && ((other - tahun) % 5 == 0 && NotBefore(YearMonth(other, bulanPajak - 1), now) ==> other >= d.year)
  {
    var caughtUp := if tahun < now.year then CatchUp(tahun, now.year) else tahun;
    assert now.year <= caughtUp < now.year + 5 && (caughtUp - tahun) % 5 == 0;
    var d := NextFiveYear(bulanPajak, tahun, now);
    if (other - tahun) % 5 == 0 && NotBefore(YearMonth(other, bulanPajak - 1), now) && other < d.year {
      FiveApart(other, d.year, tahun);
    }
  }

  /** Two years congruent to `base` modulo 5 that differ are at least five apart. */
  lemma FiveApart(a: int, b: int, base: int)
    requires (a - base) % 5 == 0 && (b - base) % 5 == 0 && a < b
    ensures b - a >= 5
  {
    var qa := (a - base) / 5;
    var qb := (b - base) / 5;
    assert a - base == qa * 5;
    assert b - base == qb * 5;
    assert qa < qb;
  }

  /** A vehicle year after the current year is taken as the due year as it stands. */
  lemma FutureVehicleYear(bulanPajak: int, tahun: int, now: YearMonth)
    requires 1 <= bulanPajak <= 12 && tahun > now.year && tahun >= 100
    ensures NextFiveYear(bulanPajak, tahun, now) == YearMonth(tahun, bulanPajak - 1)
  {
  }

  // ---- The badge ----

  /** `formatMonthsLeft`: "bulan ini" for 0, otherwise "<n> bulan lagi". */
  function FormatMonthsLeft(monthsLeft: int): string {
    if monthsLeft == 0 then "bulan ini"
    else if monthsLeft == 1 then "1 bulan lagi"
    else JsText.IntToString(monthsLeft) + " bulan lagi"
  }

  /** Every month count but 0 is written by the general template, "1 bulan lagi" included. */
  lemma FormatMonthsLeftTemplate(n: int)
    requires n != 0
    ensures FormatMonthsLeft(n) == JsText.IntToString(n) + " bulan lagi"
    ensures |FormatMonthsLeft(n)| > |FormatMonthsLeft(0)|
  {
    assert JsText.IntToString(1) == "1";
  }

  /** Different month counts always read differently. */
  lemma FormatMonthsLeftInjective(a: int, b: int)
    ensures FormatMonthsLeft(a) == FormatMonthsLeft(b) ==> a == b
  {
    if a != 0 {
      FormatMonthsLeftTemplate(a);
    }
    if b != 0 {
      FormatMonthsLeftTemplate(b);
    }
    if a != 0 && b != 0 && FormatMonthsLeft(a) == FormatMonthsLeft(b) {
      SameSuffix(JsText.IntToString(a), JsText.IntToString(b), " bulan lagi");
      JsText.ParseIntOfIntToString(a);
      JsText.ParseIntOfIntToString(b);
    }
  }

  lemma SameSuffix(x: string, y: string, t: string)
    requires x + t == y + t
    ensures x == y
  {
    assert |x| == |y|;
    assert x == (x + t)[..|x|];
    assert y == (y + t)[..|y|];
  }

  datatype Variant = Success | Warning | Destructive

  /** How pressing a variant is: success 0, warning 1, destructive 2. */
  function Urgency(v: Variant): nat {
    match v
    case Success => 0
    case Warning => 1
    case Destructive => 2
  }

  /** `getReminderVariant`: destructive at one month or less, warning up to the threshold. */
  function ReminderVariant(monthsLeft: int, threshold: int): (v: Variant)
    ensures v == Destructive <==> monthsLeft <= 1
    ensures v == Warning <==> 1 < monthsLeft <= threshold
    ensures v == Success <==> monthsLeft > 1 && monthsLeft > threshold
  {
    if monthsLeft <= 1 then Destructive
    else if monthsLeft <= threshold then Warning
    else Success
  }

  /** Fewer months left is never less urgent, and a higher threshold warns at least as early. */
  lemma ReminderVariantMonotone(fewer: int, more: int, threshold: int, higher: int)
    requires fewer <= more && threshold <= higher
    ensures Urgency(ReminderVariant(fewer, threshold)) >= Urgency(ReminderVariant(more, threshold))
    ensures Urgency(ReminderVariant(more, higher)) >= Urgency(ReminderVariant(more, threshold))
  {
  }

  /** One reminder badge: the due month, the months left, its colour and its text. */
  datatype Reminder = Reminder(due: YearMonth, monthsLeft: int, variant: Variant, text: string)

  /** The annual badge, with threshold 6; shown only when `bulanPajak` is set and non-zero. */
  function AnnualReminder(v: Vehicle, now: YearMonth): (r: Option<Reminder>)
    ensures r.Some? <==> v.bulanPajak.Some? && v.bulanPajak.value != 0
  {
    if v.bulanPajak.None? || v.bulanPajak.value == 0 then None
    else
      var due := NextAnnual(v.bulanPajak.value, now);
      var left := MonthsUntil(due, now);
      Some(Reminder(due, left, ReminderVariant(left, 6), FormatMonthsLeft(left)))
  }

  /**
   * The five-yearly badge, with threshold 12; shown only when both `bulanPajak` and `tahun` are
   * set and non-zero.
   */
  function FiveYearReminder(v: Vehicle, now: YearMonth): (r: Option<Reminder>)
    ensures r.Some? <==> v.bulanPajak.Some? && v.bulanPajak.value != 0 && v.tahun.Some? && v.tahun.value != 0
  {
    if v.bulanPajak.None? || v.bulanPajak.value == 0 || v.tahun.None? || v.tahun.value == 0 then None
    else
      var due := NextFiveYear(v.bulanPajak.value, v.tahun.value, now);
      var left := MonthsUntil(due, now);
      Some(Reminder(due, left, ReminderVariant(left, 12), FormatMonthsLeft(left)))
  }

  /**
   * With a registration month 1..12: the annual badge is red in its due month and the month
   * before, amber two to six months ahead and green seven to eleven months ahead; the
   * five-yearly badge (for a vehicle not from the future) is green only 13 to 59 months ahead.
   */
  lemma ReminderColours(v: Vehicle, now: YearMonth)
    requires v.bulanPajak.Some? && 1 <= v.bulanPajak.value <= 12 && now.year >= 100
    ensures var r := AnnualReminder(v, now).value;
      && 0 <= r.monthsLeft <= 11
      && (r.variant == Success <==> 7 <= r.monthsLeft <= 11)
      && (r.variant == Warning <==> 2 <= r.monthsLeft <= 6)
    ensures v.tahun.Some? && v.tahun.value != 0 && v.tahun.value <= now.year ==>
      var r := FiveYearReminder(v, now).value;
      && 0 <= r.monthsLeft <= 59
      && (r.variant == Success <==> 13 <= r.monthsLeft)
  {
    AnnualWindow(v.bulanPajak.value, now);
    if v.tahun.Some? && v.tahun.value != 0 && v.tahun.value <= now.year {
      FiveYearWindow(v.bulanPajak.value, v.tahun.value, now, now.year);
    }
  }
}
