/**
 * The dashboard (client/src/components/dashboard/DashboardPage.tsx): its own copy of the progress
 * calculation, the sorting of every vehicle's items into "overdue" and "due soon", the due-soon
 * list ordered by progress, and the summary figures.
 */
module DashboardPage {
  import opened Wrappers
  import JsText
  import Calendar
  import opened Types
  import opened Gauge
  import StableSort
  import HistoryPage
  import Sequences

  /** A time unit as the dashboard reads it: the item's own interval type. */
  predicate IsTimeType(t: Option<IntervalType>) {
    t == Some(DAY) || t == Some(MONTH) || t == Some(YEAR)
  }

  /**
   * The dashboard's `calculateProgress`. Unlike the item list it wants a truthy `lastKm`, reads
   * `intervalValue` for the day, month and year types, and has no whichever-first branch. The
   * result is `NaN` exactly for a time type with an unreadable last date.
   */
  function CalculateProgress(item: ServiceItem, currentKm: int, nowMs: int): (p: Num)
    ensures p.Finite? ==> 0.0 <= p.v <= 100.0
    ensures p.NaN? <==> (IsTimeType(item.intervalType) && Present(item.lastDate)
                         && Truthy(item.intervalValue) && Calendar.ParseIsoDate(item.lastDate.value).None?)
  {
    match item.intervalType
    case None => Finite(0.0)
    case Some(t) =>
      if t == NONE then Finite(0.0)
      else if t == KM && Truthy(item.lastKm) && Truthy(item.intervalValue) then
        KmProgress(currentKm, item.lastKm.value, item.intervalValue.value)
      else if IsTimeType(item.intervalType) && Present(item.lastDate) && Truthy(item.intervalValue) then
        TimeProgress(item.lastDate.value, t, item.intervalValue.value, nowMs)
      else Finite(0.0)
  }

  /** A vehicle with the items fetched for it. */
  datatype VehicleItems = VehicleItems(vehicle: Vehicle, items: seq<ServiceItem>)

  datatype Overdue = Overdue(item: ServiceItem, vehicle: Vehicle)

  datatype DueSoon = DueSoon(item: ServiceItem, vehicle: Vehicle, progress: real)

  /** `progress >= 100`: false for `NaN`. */
  predicate IsOverdue(item: ServiceItem, v: Vehicle, nowMs: int) {
    var p := CalculateProgress(item, v.currentKm, nowMs);
    p.Finite? && p.v >= 100.0
  }

  /** Not overdue and `progress >= 70`: false for `NaN`. */
  predicate IsDueSoon(item: ServiceItem, v: Vehicle, nowMs: int) {
    var p := CalculateProgress(item, v.currentKm, nowMs);
    p.Finite? && 70.0 <= p.v < 100.0
  }

  /** The overdue entries one vehicle's items contribute, in item order. */
  function OverdueIn(v: Vehicle, items: seq<ServiceItem>, nowMs: int): seq<Overdue> {
    if items == [] then []
    else
      var last := items[|items| - 1];
      OverdueIn(v, items[..|items| - 1], nowMs) + (if IsOverdue(last, v, nowMs) then [Overdue(last, v)] else [])
  }

  /** The due-soon entries one vehicle's items contribute, in item order, each with its progress. */
  function DueSoonIn(v: Vehicle, items: seq<ServiceItem>, nowMs: int): (r: seq<DueSoon>)
    ensures forall d | d in r ::
      && d.vehicle == v && d.item in items && IsDueSoon(d.item, v, nowMs)
      && CalculateProgress(d.item, v.currentKm, nowMs) == Finite(d.progress)
  {
    if items == [] then []
    else
      var last := items[|items| - 1];
      var p := CalculateProgress(last, v.currentKm, nowMs);
      DueSoonIn(v, items[..|items| - 1], nowMs) + (if IsDueSoon(last, v, nowMs) then [DueSoon(last, v, p.v)] else [])
  }

  /** `overdueItems` after the two nested `forEach` loops. */
  function OverdueOf(groups: seq<VehicleItems>, nowMs: int): seq<Overdue> {
    if groups == [] then []
    else
      var g := groups[|groups| - 1];
      OverdueOf(groups[..|groups| - 1], nowMs) + OverdueIn(g.vehicle, g.items, nowMs)
  }

  /** `dueSoonItems` after the two nested `forEach` loops, before the sort. */
  function DueSoonOf(groups: seq<VehicleItems>, nowMs: int): (r: seq<DueSoon>)
    ensures forall d | d in r ::
      && IsDueSoon(d.item, d.vehicle, nowMs) && 70.0 <= d.progress < 100.0
      && CalculateProgress(d.item, d.vehicle.currentKm, nowMs) == Finite(d.progress)
  {
    if groups == [] then []
    else
      var g := groups[|groups| - 1];
      DueSoonOf(groups[..|groups| - 1], nowMs) + DueSoonIn(g.vehicle, g.items, nowMs)
  }

  /** `dueSoonItems.sort((a, b) => b.progress - a.progress)`: `x` goes first when its progress is larger. */
  function MoreProgress(x: DueSoon, y: DueSoon): bool {
    x.progress > y.progress
  }

  /**
   * The inner `forEach` for one vehicle: each of its items is scored once and pushed onto the
   * overdue list or the due-soon list (or neither).
   */
  method ScoreVehicle(v: Vehicle, items: seq<ServiceItem>, nowMs: int, overdue0: seq<Overdue>, soon0: seq<DueSoon>)
    returns (overdue: seq<Overdue>, soon: seq<DueSoon>)
    ensures overdue == overdue0 + OverdueIn(v, items, nowMs)
    ensures soon == soon0 + DueSoonIn(v, items, nowMs)
  {
    overdue, soon := overdue0, soon0;
    for j := 0 to |items|
      invariant overdue == overdue0 + OverdueIn(v, items[..j], nowMs)
      invariant soon == soon0 + DueSoonIn(v, items[..j], nowMs)
    {
      var progress := CalculateProgress(items[j], v.currentKm, nowMs);
      Sequences.PrefixStep(items, j);
      if progress.Finite? && progress.v >= 100.0 {
        overdue := overdue + [Overdue(items[j], v)];
      } else if progress.Finite? && progress.v >= 70.0 {
        soon := soon + [DueSoon(items[j], v, progress.v)];
      }
    }
    Sequences.Whole(items);
  }

  /**
   * The buckets as the page fills them: every vehicle's items are scored in turn, and the
   * due-soon list is then sorted in place by descending progress.
   */
  method Bucket(groups: seq<VehicleItems>, nowMs: int) returns (overdue: seq<Overdue>, dueSoon: seq<DueSoon>)
    ensures overdue == OverdueOf(groups, nowMs)
    ensures dueSoon == StableSort.InsertionSort(DueSoonOf(groups, nowMs), MoreProgress)
  {
    overdue := [];
    var soon: seq<DueSoon> := [];
    for i := 0 to |groups|
      invariant overdue == OverdueOf(groups[..i], nowMs)
      invariant soon == DueSoonOf(groups[..i], nowMs)
    {
      Sequences.PrefixStep(groups, i);
      overdue, soon := ScoreVehicle(groups[i].vehicle, groups[i].items, nowMs, overdue, soon);
    }
    Sequences.Whole(groups);
    dueSoon := StableSort.SortedCopy(soon, MoreProgress);
  }

  // ---- What the buckets hold ----

  /** An item of a vehicle is listed as overdue exactly when it belongs to that vehicle and its progress reaches 100. */
  lemma {:induction false} OverdueMembership(groups: seq<VehicleItems>, nowMs: int, item: ServiceItem, v: Vehicle)
    ensures Overdue(item, v) in OverdueOf(groups, nowMs)
       <==> IsOverdue(item, v, nowMs) && exists g | g in groups :: g.vehicle == v && item in g.items
  {
    if groups != [] {
      var init := groups[..|groups| - 1];
      var g := groups[|groups| - 1];
      OverdueMembership(init, nowMs, item, v);
      OverdueInMembership(g.vehicle, g.items, nowMs, item, v);
      assert forall h | h in groups :: h in init || h == g;
      assert forall h | h in init :: h in groups;
    }
  }

  lemma {:induction false} OverdueInMembership(w: Vehicle, items: seq<ServiceItem>, nowMs: int, item: ServiceItem, v: Vehicle)
    ensures Overdue(item, v) in OverdueIn(w, items, nowMs) <==> w == v && item in items && IsOverdue(item, v, nowMs)
  {
    if items != [] {
      var init := items[..|items| - 1];
      OverdueInMembership(w, init, nowMs, item, v);
      assert forall x | x in items :: x in init || x == items[|items| - 1];
      assert forall x | x in init :: x in items;
    }
  }

  /** An item of a vehicle is listed as due soon exactly when it belongs to that vehicle and its progress is in [70, 100). */
  lemma {:induction false} DueSoonMembership(groups: seq<VehicleItems>, nowMs: int, item: ServiceItem, v: Vehicle)
    ensures (exists d | d in DueSoonOf(groups, nowMs) :: d.item == item && d.vehicle == v)
       <==> IsDueSoon(item, v, nowMs) && exists g | g in groups :: g.vehicle == v && item in g.items
  {
    if groups != [] {
      var init := groups[..|groups| - 1];
      var g := groups[|groups| - 1];
      DueSoonMembership(init, nowMs, item, v);
      DueSoonInMembership(g.vehicle, g.items, nowMs, item, v);
      assert forall h | h in groups :: h in init || h == g;
      assert forall h | h in init :: h in groups;
    }
  }

  lemma {:induction false} DueSoonInMembership(w: Vehicle, items: seq<ServiceItem>, nowMs: int, item: ServiceItem, v: Vehicle)
    ensures (exists d | d in DueSoonIn(w, items, nowMs) :: d.item == item && d.vehicle == v)
       <==> w == v && item in items && IsDueSoon(item, v, nowMs)
  {
    if items != [] {
      var init := items[..|items| - 1];
      DueSoonInMembership(w, init, nowMs, item, v);
      assert forall x | x in items :: x in init || x == items[|items| - 1];
      assert forall x | x in init :: x in items;
      var last := items[|items| - 1];
      if w == v && last == item && IsDueSoon(item, v, nowMs) {
        var d := DueSoon(last, w, CalculateProgress(last, w.currentKm, nowMs).v);
        assert d in DueSoonIn(w, items, nowMs);
      }
    }
  }

  /** No item is in both buckets. */
  lemma BucketsDisjoint(item: ServiceItem, v: Vehicle, nowMs: int)
    ensures !(IsOverdue(item, v, nowMs) && IsDueSoon(item, v, nowMs))
  {
  }

  // ---- Counts ----

  /** `allVehicleItems.flatMap((vi) => vi.items)`. */
  function AllItems(groups: seq<VehicleItems>): seq<ServiceItem> {
    if groups == [] then [] else AllItems(groups[..|groups| - 1]) + groups[|groups| - 1].items
  }

  /** How many items, counted vehicle by vehicle, have a progress of at least 70. */
  function NeedingAttention(groups: seq<VehicleItems>, nowMs: int): nat {
    if groups == [] then 0
    else NeedingAttention(groups[..|groups| - 1], nowMs) + CountAtLeast70(groups[|groups| - 1], nowMs)
  }

  function CountAtLeast70(g: VehicleItems, nowMs: int): nat {
    CountIn(g.vehicle, g.items, nowMs)
  }

  function CountIn(v: Vehicle, items: seq<ServiceItem>, nowMs: int): nat {
    if items == [] then 0
    else CountIn(v, items[..|items| - 1], nowMs)
         + (if AtLeast70(CalculateProgress(items[|items| - 1], v.currentKm, nowMs)) then 1 else 0)
  }

  predicate AtLeast70(p: Num) {
    p.Finite? && p.v >= 70.0
  }

  /**
   * The "Perlu Perhatian" figure, `overdueItems.length + dueSoonItems.length`, counts the items
   * whose progress is at least 70, and never more than the "Item Servis" figure.
   */
  lemma {:induction false} AttentionCount(groups: seq<VehicleItems>, nowMs: int)
    ensures |OverdueOf(groups, nowMs)| + |DueSoonOf(groups, nowMs)| == NeedingAttention(groups, nowMs)
    ensures NeedingAttention(groups, nowMs) <= |AllItems(groups)|
  {
    if groups != [] {
      var g := groups[|groups| - 1];
      AttentionCount(groups[..|groups| - 1], nowMs);
      BucketsCountIn(g.vehicle, g.items, nowMs);
    }
  }

  lemma {:induction false} BucketsCountIn(v: Vehicle, items: seq<ServiceItem>, nowMs: int)
    ensures |OverdueIn(v, items, nowMs)| + |DueSoonIn(v, items, nowMs)| == CountIn(v, items, nowMs)
    ensures CountIn(v, items, nowMs) <= |items|
  {
    if items != [] {
      BucketsCountIn(v, items[..|items| - 1], nowMs);
    }
  }

  // ---- The due-soon list ----

  /** Descending progress is a strict weak order, so the sort is well defined. */
  lemma MoreProgressIsStrictWeakOrder(s: seq<DueSoon>)
    ensures StableSort.StrictWeakOrderOn(s, MoreProgress)
  {
  }

  /**
   * The sorted due-soon list holds the same entries, in descending progress, with entries of
   * equal progress left in the order the loops found them.
   */
  lemma DueSoonSorted(groups: seq<VehicleItems>, nowMs: int, e: DueSoon)
    ensures var s := DueSoonOf(groups, nowMs);
      var r := StableSort.InsertionSort(s, MoreProgress);
      && multiset(r) == multiset(s)
      && (forall i, j | 0 <= i < j < |r| :: r[i].progress >= r[j].progress)
      && (e in s ==> StableSort.EquivalentTo(r, e, MoreProgress) == StableSort.EquivalentTo(s, e, MoreProgress))
  {
    var s := DueSoonOf(groups, nowMs);
    MoreProgressIsStrictWeakOrder(s);
    StableSort.SortIsPermutation(s, MoreProgress);
    StableSort.SortIsSorted(s, MoreProgress);
    if e in s {
      StableSort.SortIsStable(s, e, MoreProgress);
    }
  }

  /** `dueSoonItems.slice(0, 3)`: the shown entries are the most urgent ones. */
  lemma ShownAreMostUrgent(groups: seq<VehicleItems>, nowMs: int)
    ensures var r := StableSort.InsertionSort(DueSoonOf(groups, nowMs), MoreProgress);
      forall i, j | 0 <= i < 3 && 3 <= j < |r| :: r[i].progress >= r[j].progress
  {
    DueSoonSorted(groups, nowMs, DueSoon(ServiceItem(0, 0, "", None, None, None, None, None, None),
                                         Vehicle(0, None, "", None, None, None, None, 0, None, None), 0.0));
  }

  // ---- Summary figures ----

  /** The "Perlu Perhatian" caption: "N terlambat", ", ", "M segera", or "semua aman" when both are 0. */
  function AttentionCaption(overdue: nat, soon: nat): string {
    (if overdue > 0 then JsText.IntToString(overdue) + " terlambat" else "")
    + (if overdue > 0 && soon > 0 then ", " else "")
    + (if soon > 0 then JsText.IntToString(soon) + " segera" else "")
    + (if overdue == 0 && soon == 0 then "semua aman" else "")
  }

  /** The caption says "semua aman" exactly when nothing needs attention, and otherwise starts with a count. */
  lemma AttentionCaptionCases(overdue: nat, soon: nat)
    ensures AttentionCaption(overdue, soon) == "semua aman" <==> overdue == 0 && soon == 0
    ensures overdue > 0 ==> AttentionCaption(overdue, soon)[..|JsText.IntToString(overdue)|] == JsText.IntToString(overdue)
  {
    var c := AttentionCaption(overdue, soon);
    if overdue > 0 {
      var d := JsText.IntToString(overdue);
      assert c == d + (" terlambat" + (if soon > 0 then ", " else "") + (if soon > 0 then JsText.IntToString(soon) + " segera" else ""));
      assert JsText.IsDecimalDigit(c[0]);
    } else if soon > 0 {
      var d := JsText.IntToString(soon);
      assert c == d + " segera";
      assert JsText.IsDecimalDigit(c[0]);
    }
  }

  /** `history.slice(0, 5)`. */
  function Recent(hs: seq<ServiceHistory>): (r: seq<ServiceHistory>)
    ensures |r| == if |hs| < 5 then |hs| else 5
    ensures r == hs[..|r|]
  {
    if |hs| < 5 then hs else hs[..5]
  }

  /** The "Total Pengeluaran" figure is the history page's total, and equals the sum of its month totals. */
  lemma TotalSpentMatchesHistory(hs: seq<ServiceHistory>)
    ensures HistoryPage.TotalSpent(hs) == HistoryPage.SumOfMonthTotals(HistoryPage.Grouped(hs))
  {
    HistoryPage.MonthTotalsAddUp(hs);
  }

  /** `/kendaraan/${vehicle.shortId || vehicle.id}`: the short id when there is one. */
  function LinkId(v: Vehicle): (r: string)
    ensures Present(v.shortId) ==> r == v.shortId.value
    ensures !Present(v.shortId) ==> r == JsText.IntToString(v.id) && JsText.ParseInt(r) == Some(v.id)
  {
    JsText.ParseIntOfIntToString(v.id);
    if Present(v.shortId) then v.shortId.value else JsText.IntToString(v.id)
  }
}
