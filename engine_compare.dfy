/**
 * The three copies of `calculateProgress` (the item list, the dashboard and the legacy service
 * list) side by side, each fed the same database row: where they agree, and the inputs on which
 * they part ways. Also the two colour scales: 70/100 on the item list, 50/80 on the legacy list.
 */
module EngineCompare {
  import opened Wrappers
  import Calendar
  import opened Types
  import opened Gauge
  import ServiceItemList
  import DashboardPage
  import ServiceList

  function ItemListProgress(row: ServiceItemRow, currentKm: int, nowMs: int): Num {
    ServiceItemList.CalculateProgress(ToServiceItem(row), currentKm, nowMs)
  }

  function DashboardProgress(row: ServiceItemRow, currentKm: int, nowMs: int): Num {
    DashboardPage.CalculateProgress(ToServiceItem(row), currentKm, nowMs)
  }

  function LegacyProgress(row: ServiceItemRow, currentKm: int, nowMs: int): Num {
    ServiceList.CalculateProgress(ServiceList.FromRow(row), currentKm, nowMs)
  }

  /**
   * The dashboard and the legacy list compute the same progress for every row: the legacy list
   * drops only the two time-interval columns, which neither of them reads.
   */
  lemma DashboardAgreesWithLegacy(row: ServiceItemRow, currentKm: int, nowMs: int)
    ensures DashboardProgress(row, currentKm, nowMs) == LegacyProgress(row, currentKm, nowMs)
  {
    var item := ToServiceItem(row);
    var legacy := ServiceList.FromRow(row);
    if legacy.intervalType.None? || legacy.intervalType == Some(NONE) {
    } else if ServiceList.KmApplies(legacy) {
    } else if ServiceList.TimeApplies(legacy) {
      assert DashboardPage.IsTimeType(item.intervalType);
    } else {
      assert !(item.intervalType == Some(KM) && Truthy(item.lastKm) && Truthy(item.intervalValue));
    }
  }

  /**
   * The three agree on every row that is not "whichever first" and does not record a `lastKm`
   * of 0: the only two places where the item list's rules differ from the other two.
   */
  lemma AllAgree(row: ServiceItemRow, currentKm: int, nowMs: int)
    requires row.interval_type != Some(WHICHEVER_FIRST)
    requires row.last_km != Some(0)
    ensures ItemListProgress(row, currentKm, nowMs) == DashboardProgress(row, currentKm, nowMs)
    ensures ItemListProgress(row, currentKm, nowMs) == LegacyProgress(row, currentKm, nowMs)
  {
    DashboardAgreesWithLegacy(row, currentKm, nowMs);
    var item := ToServiceItem(row);
    match item.intervalType
    case None =>
    case Some(t) =>
      if t == KM {
        assert item.lastKm.Some? <==> Truthy(item.lastKm);
      } else if ServiceItemList.IsDateUnit(t) {
        assert DashboardPage.IsTimeType(item.intervalType);
      }
  }

  /**
   * A km item last serviced at 0 km: the item list measures from 0, the other two treat the
   * falsy `lastKm` as "never serviced" and stay at 0. Once the odometer has covered an interval
   * the item list reports overdue while the others report nothing.
   */
  lemma ZeroLastKmDiffers(row: ServiceItemRow, currentKm: int, nowMs: int)
    requires row.interval_type == Some(KM) && row.last_km == Some(0)
    requires row.interval_value.Some? && row.interval_value.value > 0
    ensures DashboardProgress(row, currentKm, nowMs) == Finite(0.0)
    ensures LegacyProgress(row, currentKm, nowMs) == Finite(0.0)
    ensures ItemListProgress(row, currentKm, nowMs)
         == KmProgress(currentKm, 0, row.interval_value.value)
    ensures currentKm >= row.interval_value.value ==> ItemListProgress(row, currentKm, nowMs) == Finite(100.0)
    ensures currentKm > 0 ==> ItemListProgress(row, currentKm, nowMs).v > 0.0
  {
    var interval := row.interval_value.value;
    KmProgressShape(currentKm, 0, interval, currentKm);
    if currentKm > 0 {
      var a := currentKm as real;
      var d := interval as real;
      assert a / d > 0.0;
      if currentKm < interval {
        assert a / d < 1.0 by {
          assert a < d;
        }
      }
    }
  }

  /**
   * A "whichever first" row: the dashboard and the legacy list have no branch for it and show 0,
   * while the item list takes the further of its km and time halves, so a row whose km half has
   * run out is overdue there and nowhere else.
   */
  lemma WhicheverFirstDiffers(row: ServiceItemRow, currentKm: int, nowMs: int)
    requires row.interval_type == Some(WHICHEVER_FIRST)
    ensures DashboardProgress(row, currentKm, nowMs) == Finite(0.0)
    ensures LegacyProgress(row, currentKm, nowMs) == Finite(0.0)
    ensures var item := ToServiceItem(row);
      ItemListProgress(row, currentKm, nowMs)
        == Max(ServiceItemList.KmPart(item, currentKm), ServiceItemList.TimePart(item, nowMs))
    ensures row.last_km.Some? && row.interval_value.Some? && row.interval_value.value > 0
         && currentKm >= row.last_km.value + row.interval_value.value
         && ItemListProgress(row, currentKm, nowMs).Finite?
         ==> ItemListProgress(row, currentKm, nowMs) == Finite(100.0)
  {
    var item := ToServiceItem(row);
    if row.last_km.Some? && row.interval_value.Some? && row.interval_value.value > 0
       && currentKm >= row.last_km.value + row.interval_value.value {
      KmProgressShape(currentKm, row.last_km.value, row.interval_value.value, currentKm);
      assert ServiceItemList.KmPart(item, currentKm) == Finite(100.0);
    }
  }

  /**
   * The two colour scales on one progress value: they agree below 50 (success), from 70 to 80
   * (warning) and from 100 (destructive, error); between 50 and 70 the legacy list already warns,
   * and between 80 and 100 it shows an error where the item list only warns. `NaN` is green on
   * the item list and red on the legacy list.
   */
  lemma ColourScales(p: Num)
    ensures ServiceItemList.StatusOf(p) == ServiceItemList.Success && ServiceList.ColourOf(p) == ServiceList.Warning
        <==> p.Finite? && 50.0 <= p.v < 70.0
    ensures ServiceItemList.StatusOf(p) == ServiceItemList.Warning && ServiceList.ColourOf(p) == ServiceList.Error
        <==> p.Finite? && 80.0 <= p.v < 100.0
    ensures ServiceItemList.StatusOf(p) == ServiceItemList.Success && ServiceList.ColourOf(p) == ServiceList.Error
        <==> p.NaN?
    ensures p.Finite? && (p.v < 50.0 || 70.0 <= p.v < 80.0 || p.v >= 100.0) ==>
      (ServiceItemList.StatusOf(p) == ServiceItemList.Success <==> ServiceList.ColourOf(p) == ServiceList.Success)
      && (ServiceItemList.StatusOf(p) == ServiceItemList.Warning <==> ServiceList.ColourOf(p) == ServiceList.Warning)
      && (ServiceItemList.StatusOf(p) == ServiceItemList.Destructive <==> ServiceList.ColourOf(p) == ServiceList.Error)
  {
  }
}
