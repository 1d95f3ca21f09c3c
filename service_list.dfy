/**
 * The older service list (client/src/components/ServiceList.tsx): its own item shape, its own
 * progress and due texts, the bar colour, and the due-service alert it raises when items or the
 * odometer change. "Now" and the odometer reading are parameters.
 */
module ServiceList {
  import opened Wrappers
  import JsText
  import Calendar
  import opened Types
  import opened Gauge
  import Sequences

  /** The list's own item: the row's first seven fields, without the time interval of "whichever first". */
  datatype LegacyItem = LegacyItem(
    id: int, kendaraanId: int, nama: string, intervalType: Option<IntervalType>,
    intervalValue: Option<int>, lastKm: Option<int>, lastDate: Option<string>)

  /** The transform in `fetchServiceItems`: seven fields copied, the two time-interval columns dropped. */
  function FromRow(row: ServiceItemRow): (item: LegacyItem)
    ensures ToServiceItem(row) == ServiceItem(item.id, item.kendaraanId, item.nama, item.intervalType,
      item.intervalValue, row.time_interval_value, row.time_interval_unit, item.lastKm, item.lastDate)
  {
    LegacyItem(row.id, row.kendaraan_id, row.nama, row.interval_type, row.interval_value,
               row.last_km, row.last_date)
  }

  /** `['DAY', 'MONTH', 'YEAR'].includes(item.intervalType || '')`. */
  predicate IsTimeType(t: Option<IntervalType>) {
    t == Some(DAY) || t == Some(MONTH) || t == Some(YEAR)
  }

  /** The km branch applies: a km item with a truthy `lastKm` and interval. */
  predicate KmApplies(item: LegacyItem) {
    item.intervalType == Some(KM) && Truthy(item.lastKm) && Truthy(item.intervalValue)
  }

  /** The time branch applies: a day, month or year item with a date and a truthy interval. */
  predicate TimeApplies(item: LegacyItem) {
    IsTimeType(item.intervalType) && Present(item.lastDate) && Truthy(item.intervalValue)
  }

  // ---- Progress and colour ----

  /** This list's `calculateProgress`: like the dashboard's, with no "whichever first" branch. */
  function CalculateProgress(item: LegacyItem, currentKm: int, nowMs: int): (p: Num)
    ensures p.Finite? ==> 0.0 <= p.v <= 100.0
    ensures p.NaN? <==> TimeApplies(item) && Calendar.ParseIsoDate(item.lastDate.value).None?
  {
    if item.intervalType.None? || item.intervalType == Some(NONE) then Finite(0.0)
    else if KmApplies(item) then KmProgress(currentKm, item.lastKm.value, item.intervalValue.value)
    else if TimeApplies(item) then
      TimeProgress(item.lastDate.value, item.intervalType.value, item.intervalValue.value, nowMs)
    else Finite(0.0)
  }

  datatype Colour = Success | Warning | Error

  /** `progress < 50 ? 'success' : progress < 80 ? 'warning' : 'error'`; `NaN` fails both tests. */
  function ColourOf(p: Num): (c: Colour)
    ensures c == Success <==> p.Finite? && p.v < 50.0
    ensures c == Warning <==> p.Finite? && 50.0 <= p.v < 80.0
    ensures c == Error <==> p.NaN? || p.v >= 80.0
  {
    if p.Finite? && p.v < 50.0 then Success
    else if p.Finite? && p.v < 80.0 then Warning
    else Error
  }

  // ---- Due and last-service texts ----

  /** `getDueInfo`'s results: "No interval set", "Due: <km> km", "Due: <date>", or "N/A". */
  datatype DueText = NoIntervalSet | DueKm(km: int) | DueDate(day: int) | NotApplicable

  /** `format` on an invalid date throws a `RangeError`. */
  datatype RangeError = InvalidTimeValue

  /** The due day of a time item, as the alert and the due text compute it; `None` for an unreadable date. */
  function ItemDueDay(item: LegacyItem): Option<int>
    requires TimeApplies(item)
  {
    DueDay(item.lastDate.value, item.intervalType.value, item.intervalValue.value)
  }

  /** `getDueInfo`: the km or the date the item is due at. */
  function GetDueInfo(item: LegacyItem): (r: Result<DueText, RangeError>)
    ensures r.Err? <==> TimeApplies(item) && Calendar.ParseIsoDate(item.lastDate.value).None?
    ensures r == Ok(NoIntervalSet) <==> item.intervalType.None? || item.intervalType == Some(NONE)
    ensures KmApplies(item) ==> r == Ok(DueKm(item.lastKm.value + item.intervalValue.value))
  {
    if item.intervalType.None? || item.intervalType == Some(NONE) then Ok(NoIntervalSet)
    else if KmApplies(item) then Ok(DueKm(item.lastKm.value + item.intervalValue.value))
    else if TimeApplies(item) then
      match ItemDueDay(item)
      case None => Err(InvalidTimeValue)
      case Some(d) => Ok(DueDate(d))
    else Ok(NotApplicable)
  }

  /** One part of the "Last: ..." text. */
  datatype LastPart = LastOn(day: int) | LastAt(km: int)

  /** `getLastInfo`'s results: "Last: " with the parts joined by " / ", or "No service recorded". */
  datatype LastInfo = NoServiceRecorded | Last(parts: seq<LastPart>)

  /** `getLastInfo`: the date if there is one, then the km if it is truthy. */
  function GetLastInfo(item: LegacyItem): Result<LastInfo, RangeError> {
    var datePart :=
      if !Present(item.lastDate) then Ok([])
      else match Calendar.ParseIsoDate(item.lastDate.value)
        case None => Err(InvalidTimeValue)
        case Some(c) => Ok([LastOn(Calendar.DayOf(c))]);
    match datePart
    case Err(e) => Err(e)
    case Ok(parts) =>
      var all := parts + (if Truthy(item.lastKm) then [LastAt(item.lastKm.value)] else []);
      if all == [] then Ok(NoServiceRecorded) else Ok(Last(all))
  }

  /**
   * "No service recorded" exactly when there is no date and the km is falsy (so a `lastKm` of 0
   * counts as none); otherwise the date comes first and the km second.
   */
  lemma LastInfoCases(item: LegacyItem)
    requires !Present(item.lastDate) || Calendar.ParseIsoDate(item.lastDate.value).Some?
    ensures GetLastInfo(item) == Ok(NoServiceRecorded) <==> !Present(item.lastDate) && !Truthy(item.lastKm)
    ensures GetLastInfo(item).Ok?
    ensures GetLastInfo(item).value.Last? ==>
      var parts := GetLastInfo(item).value.parts;
      && |parts| == (if Present(item.lastDate) then 1 else 0) + (if Truthy(item.lastKm) then 1 else 0)
      && (Present(item.lastDate) ==> parts[0] == LastOn(Calendar.DayOf(Calendar.ParseIsoDate(item.lastDate.value).value)))
      && (Truthy(item.lastKm) ==> parts[|parts| - 1] == LastAt(item.lastKm.value))
  {
  }

  /** An unreadable date makes the text throw, whatever the km. */
  lemma LastInfoThrows(item: LegacyItem)
    requires Present(item.lastDate) && Calendar.ParseIsoDate(item.lastDate.value).None?
    ensures GetLastInfo(item) == Err(InvalidTimeValue)
  {
  }

  // ---- The due-service alert ----

  /** An entry of the alert: "<name> (<n> km remaining)", "<name> (<n> days remaining)" or "<name> (OVERDUE)". */
  datatype DueEntry = KmLeft(nama: string, km: int) | DaysLeft(nama: string, days: int) | OverdueEntry(nama: string)

  function EntryText(e: DueEntry): string {
    match e
    case KmLeft(nama, km) => nama + " (" + JsText.IntToString(km) + " km remaining)"
    case DaysLeft(nama, days) => nama + " (" + JsText.IntToString(days) + " days remaining)"
    case OverdueEntry(nama) => nama + " (OVERDUE)"
  }

  /** The km test: at most 500 km left gives a "remaining" entry, none left gives "OVERDUE". */
  function KmAlert(item: LegacyItem, currentKm: int): Option<DueEntry> {
    if !KmApplies(item) then None
    else
      var kmRemaining := (item.lastKm.value + item.intervalValue.value) - currentKm;
      if kmRemaining <= 500 && kmRemaining > 0 then Some(KmLeft(item.nama, kmRemaining))
      else if kmRemaining <= 0 then Some(OverdueEntry(item.nama))
      else None
  }

  /** `Math.floor((dueDate - now) / msPerDay)` for a due date at midnight of `dueDay`. */
  function DaysRemaining(dueDay: int, nowMs: int): int {
    Calendar.FloorDays(dueDay * Calendar.MsPerDay - nowMs)
  }

  /** The date test: at most 7 days left gives a "remaining" entry, none left gives "OVERDUE". */
  function TimeAlert(item: LegacyItem, nowMs: int): Option<DueEntry> {
    if !TimeApplies(item) then None
    else match ItemDueDay(item)
      case None => None
      case Some(due) =>
        var daysRemaining := DaysRemaining(due, nowMs);
        if daysRemaining <= 7 && daysRemaining > 0 then Some(DaysLeft(item.nama, daysRemaining))
        else if daysRemaining <= 0 then Some(OverdueEntry(item.nama))
        else None
  }

  /** The entries one item adds: the km test's, then the date test's. */
  function ItemEntries(item: LegacyItem, currentKm: int, nowMs: int): seq<DueEntry> {
    (match KmAlert(item, currentKm) case Some(e) => [e] case None => [])
    + (match TimeAlert(item, nowMs) case Some(e) => [e] case None => [])
  }

  /** `dueItems` after the loop over `items`. */
  function AlertTexts(items: seq<LegacyItem>, currentKm: int, nowMs: int): seq<string> {
    if items == [] then []
    else
      AlertTexts(items[..|items| - 1], currentKm, nowMs) + ItemTexts(items[|items| - 1], currentKm, nowMs)
  }

  /** The texts of one item's entries. */
  function ItemTexts(item: LegacyItem, currentKm: int, nowMs: int): seq<string> {
    var es := ItemEntries(item, currentKm, nowMs);
    seq(|es|, k requires 0 <= k < |es| => EntryText(es[k]))
  }

  /** The km test in terms of what is left: 1..500 km, none, or more than 500 km. */
  lemma KmAlertCases(item: LegacyItem, currentKm: int)
    requires KmApplies(item)
    ensures var left := item.lastKm.value + item.intervalValue.value - currentKm;
      && (0 < left <= 500 ==> KmAlert(item, currentKm) == Some(KmLeft(item.nama, left)))
      && (left <= 0 ==> KmAlert(item, currentKm) == Some(OverdueEntry(item.nama)))
      && (left > 500 <==> KmAlert(item, currentKm).None?)
  {
  }

  /**
   * The date test in calendar terms: the count of days left is the due day minus today, one less
   * once today has begun; 1..7 gives a "remaining" entry, 0 or less "OVERDUE", more than 7 nothing.
   */
  lemma TimeAlertCases(item: LegacyItem, nowMs: int)
    requires TimeApplies(item) && Calendar.ParseIsoDate(item.lastDate.value).Some?
    ensures var due := ItemDueDay(item).value;
      var left := due - Calendar.FloorDays(nowMs) - (if nowMs % Calendar.MsPerDay == 0 then 0 else 1);
      && DaysRemaining(due, nowMs) == left
      && (0 < left <= 7 ==> TimeAlert(item, nowMs) == Some(DaysLeft(item.nama, left)))
      && (left <= 0 ==> TimeAlert(item, nowMs) == Some(OverdueEntry(item.nama)))
      && (left > 7 <==> TimeAlert(item, nowMs).None?)
  {
    Calendar.FloorDaysFromMidnight(nowMs, ItemDueDay(item).value);
  }

  /**
   * Because the count is floored, an item is reported "OVERDUE" during the whole day before its
   * due day (except at its very first instant).
   */
  lemma OverdueTheDayBefore(item: LegacyItem, nowMs: int)
    requires TimeApplies(item) && Calendar.ParseIsoDate(item.lastDate.value).Some?
    requires Calendar.FloorDays(nowMs) == ItemDueDay(item).value - 1
    requires nowMs % Calendar.MsPerDay != 0
    ensures TimeAlert(item, nowMs) == Some(OverdueEntry(item.nama))
  {
    TimeAlertCases(item, nowMs);
  }

  /** An unreadable date gives no alert: the count is `NaN`, which fails both tests. */
  lemma TimeAlertBadDate(item: LegacyItem, nowMs: int)
    requires TimeApplies(item) && Calendar.ParseIsoDate(item.lastDate.value).None?
    ensures TimeAlert(item, nowMs).None?
  {
  }

  /** The km and date tests look at different interval types, so an item adds at most one entry. */
  lemma AtMostOneEntry(item: LegacyItem, currentKm: int, nowMs: int)
    ensures |ItemEntries(item, currentKm, nowMs)| <= 1
    ensures ItemEntries(item, currentKm, nowMs) != [] ==> KmApplies(item) || TimeApplies(item)
  {
  }

  /** The alert has at most one entry per item, and some entry exactly when some item adds one. */
  lemma {:induction false} AlertTextsCount(items: seq<LegacyItem>, currentKm: int, nowMs: int)
    ensures |AlertTexts(items, currentKm, nowMs)| <= |items|
    ensures AlertTexts(items, currentKm, nowMs) != []
        <==> exists i | 0 <= i < |items| :: ItemEntries(items[i], currentKm, nowMs) != []
  {
    if items != [] {
      var init, last := items[..|items| - 1], items[|items| - 1];
      AlertTextsCount(init, currentKm, nowMs);
      ItemTextsCount(last, currentKm, nowMs);
      Sequences.ExistsSplit(items, init, item => ItemEntries(item, currentKm, nowMs) != []);
    }
  }

  /** One item's texts: at most one, and one exactly when it adds an entry. */
  lemma ItemTextsCount(item: LegacyItem, currentKm: int, nowMs: int)
    ensures |ItemTexts(item, currentKm, nowMs)| <= 1
    ensures ItemTexts(item, currentKm, nowMs) != [] <==> ItemEntries(item, currentKm, nowMs) != []
  {
    AtMostOneEntry(item, currentKm, nowMs);
  }

  /** The prefix "Service due soon: " and the entries joined by ", ". */
  function AlertMessage(texts: seq<string>): string {
    "Service due soon: " + JsText.Join(texts, ", ")
  }

  /** The list's state: the items shown and the alert snackbar. */
  class ServiceListState {
    var items: seq<LegacyItem>
    var showAlert: bool
    var alertMessage: string

    /** `useState<ServiceItem[]>([])`, `useState(false)`, `useState('')`. */
    constructor ()
      ensures items == [] && !showAlert && alertMessage == ""
    {
      items := [];
      showAlert := false;
      alertMessage := "";
    }

    /** `setItems(transformedItems)` after a fetch: each row through the transform, in order. */
    method SetItems(rows: seq<ServiceItemRow>)
      modifies this
      ensures |items| == |rows| && forall i | 0 <= i < |rows| :: items[i] == FromRow(rows[i])
      ensures showAlert == old(showAlert) && alertMessage == old(alertMessage)
    {
      var transformed: seq<LegacyItem> := [];
      for i := 0 to |rows|
        invariant |transformed| == i && forall k | 0 <= k < i :: transformed[k] == FromRow(rows[k])
      {
        transformed := transformed + [FromRow(rows[i])];
      }
      items := transformed;
    }

    /**
     * `checkForDueServices`: collect an entry per due item, and raise the alert with them only
     * when there is at least one; with none, the alert state stays as it was.
     */
    method CheckForDueServices(currentKm: int, nowMs: int)
      modifies this
      ensures items == old(items)
      ensures var texts := AlertTexts(old(items), currentKm, nowMs);
        if texts != [] then showAlert && alertMessage == AlertMessage(texts)
        else showAlert == old(showAlert) && alertMessage == old(alertMessage)
    {
      var list := items;
      var dueItems: seq<string> := [];
      for i := 0 to |list|
        invariant dueItems == AlertTexts(list[..i], currentKm, nowMs)
        invariant items == list && showAlert == old(showAlert) && alertMessage == old(alertMessage)
      {
        dueItems := PushEntries(list[i], currentKm, nowMs, dueItems);
        Sequences.PrefixStep(list, i);
      }
      Sequences.Whole(list);
      if |dueItems| > 0 {
        alertMessage := "Service due soon: " + JsText.Join(dueItems, ", ");
        showAlert := true;
      }
    }

    /** The snackbar's `onClose`. */
    method CloseAlert()
      modifies this
      ensures !showAlert && items == old(items) && alertMessage == old(alertMessage)
    {
      showAlert := false;
    }
  }

  /** One pass of the `forEach` in `checkForDueServices`: the km test, then the date test. */
  method PushEntries(item: LegacyItem, currentKm: int, nowMs: int, dueItems: seq<string>) returns (out: seq<string>)
    ensures out == dueItems + ItemTexts(item, currentKm, nowMs)
  {
    var kmTexts: seq<string> := [];
    if item.intervalType == Some(KM) && Truthy(item.lastKm) && Truthy(item.intervalValue) {
      var kmRemaining := (item.lastKm.value + item.intervalValue.value) - currentKm;
      if kmRemaining <= 500 && kmRemaining > 0 {
        kmTexts := [item.nama + " (" + JsText.IntToString(kmRemaining) + " km remaining)"];
      } else if kmRemaining <= 0 {
        kmTexts := [item.nama + " (OVERDUE)"];
      }
    }
    assert kmTexts == TextsOf(KmAlert(item, currentKm));
    out := dueItems + kmTexts;
    var timeTexts: seq<string> := [];
    if IsTimeType(item.intervalType) && Present(item.lastDate) && Truthy(item.intervalValue) {
      var due := DueDay(item.lastDate.value, item.intervalType.value, item.intervalValue.value);
      if due.Some? {
        var daysRemaining := Calendar.FloorDays(due.value * Calendar.MsPerDay - nowMs);
        if daysRemaining <= 7 && daysRemaining > 0 {
          timeTexts := [item.nama + " (" + JsText.IntToString(daysRemaining) + " days remaining)"];
        } else if daysRemaining <= 0 {
          timeTexts := [item.nama + " (OVERDUE)"];
        }
      }
    }
    assert timeTexts == TextsOf(TimeAlert(item, nowMs));
    out := out + timeTexts;
    ItemTextsSplit(item, currentKm, nowMs);
    Sequences.Associative(dueItems, kmTexts, timeTexts);
  }

  /** The text of an entry, if there is one. */
  function TextsOf(e: Option<DueEntry>): (texts: seq<string>)
    ensures |texts| <= 1 && (texts == [] <==> e.None?)
  {
    match e
    case Some(entry) => [EntryText(entry)]
    case None => []
  }

  /** An item's texts: its km entry's, then its date entry's. */
  lemma ItemTextsSplit(item: LegacyItem, currentKm: int, nowMs: int)
    ensures ItemTexts(item, currentKm, nowMs) == TextsOf(KmAlert(item, currentKm)) + TextsOf(TimeAlert(item, nowMs))
  {
  }
}
