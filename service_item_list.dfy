/**
 * The service-interval engine of the item list (client/src/components/services/ServiceItemList.tsx):
 * how far an item is through its interval, what it is due at, how its interval is labelled, and
 * the status colour and badge shown for it. "Now" and the odometer reading are parameters.
 */
module ServiceItemList {
  import opened Wrappers
  import Calendar
  import opened Types
  import opened Gauge

  /** Whether an item goes by dates: a day/month/year interval, or the time half of "whichever first". */
  predicate IsDateUnit(t: IntervalType) {
    t == DAY || t == MONTH || t == YEAR
  }

  /** The km half of a "whichever first" item: counted when `lastKm` is set and the interval is non-zero. */
  predicate HasKmPart(item: ServiceItem) {
    item.lastKm.Some? && Truthy(item.intervalValue)
  }

  /** The time half of a "whichever first" item: a date, a non-zero value and a unit. */
  predicate HasTimePart(item: ServiceItem) {
    Present(item.lastDate) && Truthy(item.timeIntervalValue) && item.timeIntervalUnit.Some?
  }

  function KmPart(item: ServiceItem, currentKm: int): Num {
    if HasKmPart(item) then KmProgress(currentKm, item.lastKm.value, item.intervalValue.value)
    else Finite(0.0)
  }

  function TimePart(item: ServiceItem, nowMs: int): Num {
    if HasTimePart(item)
    then TimeProgress(item.lastDate.value, item.timeIntervalUnit.value, item.timeIntervalValue.value, nowMs)
    else Finite(0.0)
  }

  /** `calculateProgress`: how far, in percent, the item is through its interval. */
  function CalculateProgress(item: ServiceItem, currentKm: int, nowMs: int): (p: Num)
    ensures p.Finite? ==> 0.0 <= p.v <= 100.0
  {
    match item.intervalType
    case None => Finite(0.0)
    case Some(t) =>
      if t == NONE then Finite(0.0)
      else if t == KM && item.lastKm.Some? && Truthy(item.intervalValue) then
        KmProgress(currentKm, item.lastKm.value, item.intervalValue.value)
      else if IsDateUnit(t) && Present(item.lastDate) && Truthy(item.intervalValue) then
        TimeProgress(item.lastDate.value, t, item.intervalValue.value, nowMs)
      else if t == WHICHEVER_FIRST then Max(KmPart(item, currentKm), TimePart(item, nowMs))
      else Finite(0.0)
  }

  /**
   * The items whose date is read: by the DAY/MONTH/YEAR branch or the time half of "whichever
   * first". Only their progress can come out `NaN`, and only their due date can throw.
   */
  predicate ReadsDate(item: ServiceItem) {
    match item.intervalType
    case None => false
    case Some(t) =>
      (IsDateUnit(t) && Present(item.lastDate) && Truthy(item.intervalValue))
      || (t == WHICHEVER_FIRST && HasTimePart(item))
  }

  /**
   * Progress is a number in [0, 100] unless the item reads a date that is not a date, in which
   * case it is `NaN`; an item without an interval, or with nothing to measure from, is at 0.
   */
  lemma ProgressNaNOnlyFromBadDate(item: ServiceItem, currentKm: int, nowMs: int)
    ensures CalculateProgress(item, currentKm, nowMs).NaN?
        <==> ReadsDate(item) && Calendar.ParseIsoDate(item.lastDate.value).None?
    ensures item.intervalType in {None, Some(NONE)} ==> CalculateProgress(item, currentKm, nowMs) == Finite(0.0)
  {
  }

  /**
   * A km item with a recorded `lastKm` (0 included) and a positive interval: 0 at the last
   * service, 100 from one interval later, and never falling as the odometer rises.
   */
  lemma KmItemProgress(item: ServiceItem, currentKm: int, laterKm: int, nowMs: int)
    requires item.intervalType == Some(KM) && item.lastKm.Some?
    requires item.intervalValue.Some? && item.intervalValue.value > 0
    requires currentKm <= laterKm
    ensures var lastKm, interval := item.lastKm.value, item.intervalValue.value;
      && (currentKm == lastKm ==> CalculateProgress(item, currentKm, nowMs) == Finite(0.0))
      && (currentKm >= lastKm + interval ==> CalculateProgress(item, currentKm, nowMs) == Finite(100.0))
      && (lastKm <= currentKm <= lastKm + interval ==>
            CalculateProgress(item, currentKm, nowMs) == Finite(Percent(currentKm - lastKm, interval)))
      && CalculateProgress(item, currentKm, nowMs).v <= CalculateProgress(item, laterKm, nowMs).v
  {
    KmProgressShape(currentKm, item.lastKm.value, item.intervalValue.value, laterKm);
  }

  /**
   * A day/month/year item with a valid date and a positive interval: the whole days since the
   * service, over the interval counted as value, 30 * value or 365 * value days, clamped.
   */
  lemma TimeItemProgress(item: ServiceItem, currentKm: int, nowMs: int)
    requires item.intervalType.Some? && IsDateUnit(item.intervalType.value)
    requires item.lastDate.Some? && Calendar.ParseIsoDate(item.lastDate.value).Some?
    requires item.intervalValue.Some? && item.intervalValue.value > 0
    ensures var days := Calendar.FloorDays(nowMs) - Calendar.DayOf(Calendar.ParseIsoDate(item.lastDate.value).value);
      var span := item.intervalValue.value
        * (match item.intervalType.value case MONTH => 30 case YEAR => 365 case _ => 1);
      && (days <= 0 ==> CalculateProgress(item, currentKm, nowMs) == Finite(0.0))
      && (days >= span ==> CalculateProgress(item, currentKm, nowMs) == Finite(100.0))
      && (0 <= days <= span ==> CalculateProgress(item, currentKm, nowMs) == Finite(Percent(days, span)))
  {
    assert item.lastDate.value != "";
    TimeProgressShape(item.lastDate.value, item.intervalType.value, item.intervalValue.value, nowMs);
  }

  /**
   * A "whichever first" item is as far along as the further of its two halves; a half that is
   * not set up counts as 0, so an item with neither is at 0.
   */
  lemma WhicheverFirstProgress(item: ServiceItem, currentKm: int, nowMs: int)
    requires item.intervalType == Some(WHICHEVER_FIRST)
    ensures var p := CalculateProgress(item, currentKm, nowMs);
      && (!HasKmPart(item) && !HasTimePart(item) ==> p == Finite(0.0))
      && (p.Finite? ==> p.v >= KmPart(item, currentKm).v && p.v >= TimePart(item, nowMs).v)
      && (p.Finite? ==> p == KmPart(item, currentKm) || p == TimePart(item, nowMs))
      && (!HasTimePart(item) ==> p == KmPart(item, currentKm))
  {
  }

  // ---- Due target ----

  /** One half of a due target: an odometer reading or a day. */
  datatype DuePart = DueKm(km: int) | DueDate(day: int)

  /** `getDueInfo`'s three kinds of text: "Tidak ada interval", "Target: ..." and "-". */
  datatype DueInfo = NoInterval | Target(parts: seq<DuePart>) | Dash

  /** `toISOString` on an invalid date throws a `RangeError`. */
  datatype RangeError = InvalidTimeValue

  function KmTarget(item: ServiceItem): seq<DuePart> {
    if HasKmPart(item) then [DueKm(item.lastKm.value + item.intervalValue.value)] else []
  }

  function TimeTarget(item: ServiceItem): Result<seq<DuePart>, RangeError> {
    if !HasTimePart(item) then Ok([])
    else match DueDay(item.lastDate.value, item.timeIntervalUnit.value, item.timeIntervalValue.value)
      case None => Err(InvalidTimeValue)
      case Some(d) => Ok([DueDate(d)])
  }

  /**
   * `getDueInfo`: the km or date the item is due at; parts of "whichever first" are joined by
   * "atau". "Tidak ada interval" exactly for a missing or 'NONE' type; a throw exactly when the
   * date is read and is not a date; a DAY/MONTH/YEAR item is due one interval after its date.
   */
  function GetDueInfo(item: ServiceItem): (r: Result<DueInfo, RangeError>)
    ensures r.Ok? && r.value.Target? ==> 1 <= |r.value.parts| <= 2
    ensures r == Ok(NoInterval) <==> item.intervalType in {None, Some(NONE)}
    ensures r.Err? <==> ReadsDate(item) && Calendar.ParseIsoDate(item.lastDate.value).None?
    ensures item.intervalType.Some? && IsDateUnit(item.intervalType.value)
            && Present(item.lastDate) && Truthy(item.intervalValue)
            && Calendar.ParseIsoDate(item.lastDate.value).Some? ==>
      r == Ok(Target([DueDate(DueDay(item.lastDate.value, item.intervalType.value, item.intervalValue.value).value)]))
  {
    match item.intervalType
    case None => Ok(NoInterval)
    case Some(t) =>
      if t == NONE then Ok(NoInterval)
      else if t == KM && item.lastKm.Some? && Truthy(item.intervalValue) then
        Ok(Target([DueKm(item.lastKm.value + item.intervalValue.value)]))
      else if IsDateUnit(t) && Present(item.lastDate) && Truthy(item.intervalValue) then
        match DueDay(item.lastDate.value, t, item.intervalValue.value)
        case None => Err(InvalidTimeValue)
        case Some(d) => Ok(Target([DueDate(d)]))
      else if t == WHICHEVER_FIRST then
        match TimeTarget(item)
        case Err(e) => Err(e)
        case Ok(timeParts) =>
          var parts := KmTarget(item) + timeParts;
          if parts == [] then Ok(Dash) else Ok(Target(parts))
      else Ok(Dash)
  }

  /**
   * The due km is `lastKm + intervalValue` for km and "whichever first" items alike; a "whichever
   * first" item with neither half shows "-", and one with both shows the km first, then the date.
   */
  lemma DueInfoTargets(item: ServiceItem)
    requires item.intervalType in {Some(KM), Some(WHICHEVER_FIRST)} && HasKmPart(item)
    ensures GetDueInfo(item).Ok? ==>
              GetDueInfo(item).value.Target?
              && GetDueInfo(item).value.parts[0] == DueKm(item.lastKm.value + item.intervalValue.value)
  {
  }

  lemma WhicheverFirstDueInfo(item: ServiceItem)
    requires item.intervalType == Some(WHICHEVER_FIRST)
    ensures !HasKmPart(item) && !HasTimePart(item) ==> GetDueInfo(item) == Ok(Dash)
    ensures HasKmPart(item) && HasTimePart(item)
              && Calendar.ParseIsoDate(item.lastDate.value).Some? ==>
      GetDueInfo(item) == Ok(Target([
        DueKm(item.lastKm.value + item.intervalValue.value),
        DueDate(DueDay(item.lastDate.value, item.timeIntervalUnit.value, item.timeIntervalValue.value).value)]))
    ensures GetDueInfo(item).Err? <==> HasTimePart(item) && Calendar.ParseIsoDate(item.lastDate.value).None?
  {
    if HasKmPart(item) && HasTimePart(item) && Calendar.ParseIsoDate(item.lastDate.value).Some? {
      var d := DueDay(item.lastDate.value, item.timeIntervalUnit.value, item.timeIntervalValue.value);
      assert TimeTarget(item) == Ok([DueDate(d.value)]);
      assert KmTarget(item) + [DueDate(d.value)]
          == [DueKm(item.lastKm.value + item.intervalValue.value), DueDate(d.value)];
    }
  }

  // ---- Interval label ----

  /** A time unit as the label writes it: hari, bulan, tahun, or the unit's own name. */
  datatype UnitLabel = Hari | Bulan | Tahun | Named(t: IntervalType)

  /** One amount in a label. `Time` carries the raw value, which the template prints even when null. */
  datatype Amount = Km(km: int) | Time(value: Option<int>, unit: UnitLabel)

  /** "Tanpa interval", "Setiap <amount>" or "Setiap <amount> atau <amount>", and "Mana duluan". */
  datatype IntervalLabel = WithoutInterval | Every(first: Amount, second: Option<Amount>) | WhicheverFirst

  function UnitLabelOf(t: IntervalType): UnitLabel {
    match t
    case DAY => Hari
    case MONTH => Bulan
    case YEAR => Tahun
    case _ => Named(t)
  }

  /** `getIntervalLabel(type, value, item)`; the list always passes the item. */
  function GetIntervalLabel(t: Option<IntervalType>, value: Option<int>, item: Option<ServiceItem>): (l: IntervalLabel)
    ensures l == WithoutInterval <==> t in {None, Some(NONE)}
    ensures t == Some(KM) ==> l == Every(Km(if value.Some? then value.value else 0), None)
    ensures t.Some? && IsDateUnit(t.value) ==> l == Every(Time(value, UnitLabelOf(t.value)), None)
    ensures t == Some(WHICHEVER_FIRST) && item.None? ==> l == WhicheverFirst
  {
    match t
    case None => WithoutInterval
    case Some(k) =>
      if k == NONE then WithoutInterval
      else if k == WHICHEVER_FIRST && item.Some? then
        var it := item.value;
        var kmPart := if Truthy(it.intervalValue) then Some(Km(it.intervalValue.value)) else None;
        var timePart :=
          if Truthy(it.timeIntervalValue) && it.timeIntervalUnit.Some?
          then Some(Time(it.timeIntervalValue, UnitLabelOf(it.timeIntervalUnit.value))) else None;
        if kmPart.Some? && timePart.Some? then Every(kmPart.value, timePart)
        else if kmPart.Some? then Every(kmPart.value, None)
        else if timePart.Some? then Every(timePart.value, None)
        else WhicheverFirst
      else
        match k
        case KM => Every(Km(match value case Some(v) => v case None => 0), None)
        case DAY => Every(Time(value, Hari), None)
        case MONTH => Every(Time(value, Bulan), None)
        case YEAR => Every(Time(value, Tahun), None)
        case WHICHEVER_FIRST => WhicheverFirst
  }

  /**
   * A "whichever first" item with neither a km nor a time interval is labelled "Mana duluan";
   * with both, the label names the km first and the time second.
   */
  lemma WhicheverFirstLabel(item: ServiceItem)
    requires item.intervalType == Some(WHICHEVER_FIRST)
    ensures !Truthy(item.intervalValue) && !(Truthy(item.timeIntervalValue) && item.timeIntervalUnit.Some?)
      ==> GetIntervalLabel(item.intervalType, item.intervalValue, Some(item)) == WhicheverFirst
    ensures Truthy(item.intervalValue) && Truthy(item.timeIntervalValue) && item.timeIntervalUnit.Some?
      ==> GetIntervalLabel(item.intervalType, item.intervalValue, Some(item))
          == Every(Km(item.intervalValue.value),
                   Some(Time(item.timeIntervalValue, UnitLabelOf(item.timeIntervalUnit.value))))
  {
  }

  // ---- Status ----

  datatype Status = Success | Warning | Destructive

  /** The colour and badge variant: destructive from 100, warning from 70, success below (and for `NaN`). */
  function StatusOf(p: Num): (s: Status)
    ensures s == Destructive <==> p.Finite? && p.v >= 100.0
    ensures s == Warning <==> p.Finite? && 70.0 <= p.v < 100.0
  {
    if p.Finite? && p.v >= 100.0 then Destructive
    else if p.Finite? && p.v >= 70.0 then Warning
    else Success
  }

  /** The "Terlambat" (overdue) badge. */
  predicate ShowsOverdueBadge(p: Num) {
    p.Finite? && p.v >= 100.0
  }

  /** The "Segera" (soon) badge. */
  predicate ShowsSoonBadge(p: Num) {
    p.Finite? && p.v >= 70.0 && p.v < 100.0
  }

  /** The badges agree with the status: at most one shows, and the status names which. */
  lemma BadgesMatchStatus(p: Num)
    ensures ShowsOverdueBadge(p) <==> StatusOf(p) == Destructive
    ensures ShowsSoonBadge(p) <==> StatusOf(p) == Warning
    ensures !(ShowsOverdueBadge(p) && ShowsSoonBadge(p))
  {
  }
}
