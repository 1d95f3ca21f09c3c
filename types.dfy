/**
 * The client's data model: the rows the API returns (snake_case, as stored) and the records the
 * components work with (camelCase), with the transformers between them. Dates stay strings here,
 * as they travel; the engine modules read them with `Calendar.ParseIsoDate`.
 */
module Types {
  import opened Wrappers
  import JsonIds

  /** How a service item's interval is measured. */
  datatype IntervalType = KM | DAY | MONTH | YEAR | WHICHEVER_FIRST | NONE

  /** The name each interval type is stored and sent under. */
  function IntervalTypeName(t: IntervalType): string {
    match t
    case KM => "KM"
    case DAY => "DAY"
    case MONTH => "MONTH"
    case YEAR => "YEAR"
    case WHICHEVER_FIRST => "WHICHEVER_FIRST"
    case NONE => "NONE"
  }

  /** Reads a stored name back; any other string is not an interval type. */
  function ParseIntervalType(s: string): (r: Option<IntervalType>)
    ensures r.Some? ==> IntervalTypeName(r.value) == s
  {
    if s == "KM" then Some(KM)
    else if s == "DAY" then Some(DAY)
    else if s == "MONTH" then Some(MONTH)
    else if s == "YEAR" then Some(YEAR)
    else if s == "WHICHEVER_FIRST" then Some(WHICHEVER_FIRST)
    else if s == "NONE" then Some(NONE)
    else None
  }

  /** There are exactly six interval types, each with its own name. */
  lemma IntervalTypeNames(t: IntervalType)
    ensures ParseIntervalType(IntervalTypeName(t)) == Some(t)
    ensures t in {KM, DAY, MONTH, YEAR, WHICHEVER_FIRST, NONE}
  {
  }

  // ---- Vehicle ----

  datatype VehicleRow = VehicleRow(
    id: int, short_id: Option<string>, user_id: int, nama: string, tipe: Option<string>,
    plat: Option<string>, tahun: Option<int>, bulan_pajak: Option<int>,
    /** Declared a number; the transformer also accepts it `null` or missing. */
    current_km: Option<int>,
    pajak_tahunan_sampai: Option<string>, pajak_5tahunan_sampai: Option<string>)

  datatype Vehicle = Vehicle(
    id: int, shortId: Option<string>, nama: string, tipe: Option<string>, plat: Option<string>,
    tahun: Option<int>, bulanPajak: Option<int>, currentKm: int,
    pajakTahunanSampai: Option<string>, pajak5TahunanSampai: Option<string>)

  /** `toVehicle`: a missing odometer reads as 0, a missing paid-until date as `null`. */
  function ToVehicle(row: VehicleRow): (v: Vehicle)
    ensures v.currentKm == (if row.current_km.Some? then row.current_km.value else 0)
    ensures v.pajakTahunanSampai == row.pajak_tahunan_sampai
    ensures v.pajak5TahunanSampai == row.pajak_5tahunan_sampai
  {
    Vehicle(row.id, row.short_id, row.nama, row.tipe, row.plat, row.tahun, row.bulan_pajak,
            match row.current_km case Some(km) => km case None => 0,
            row.pajak_tahunan_sampai, row.pajak_5tahunan_sampai)
  }

  /** The row a vehicle is stored as, for a given owner. */
  function VehicleToRow(v: Vehicle, userId: int): VehicleRow {
    VehicleRow(v.id, v.shortId, userId, v.nama, v.tipe, v.plat, v.tahun, v.bulanPajak,
               Some(v.currentKm), v.pajakTahunanSampai, v.pajak5TahunanSampai)
  }

  /**
   * Storing a vehicle and reading it back gives the same vehicle; two rows read as the same
   * vehicle exactly when they differ at most in owner and in a missing versus zero odometer.
   */
  lemma ToVehicleRoundTrip(v: Vehicle, userId: int, r1: VehicleRow, r2: VehicleRow)
    ensures ToVehicle(VehicleToRow(v, userId)) == v
    ensures ToVehicle(r1) == ToVehicle(r2) <==>
      r1.(user_id := 0, current_km := None) == r2.(user_id := 0, current_km := None)
      && (r1.current_km == r2.current_km || (r1.current_km in {None, Some(0)} && r2.current_km in {None, Some(0)}))
  {
  }

  // ---- Service item ----

  /**
   * A stored service item. The interval columns hold one of the six interval-type names or
   * `null`; a row is modelled with the name already read as an `IntervalType`.
   */
  datatype ServiceItemRow = ServiceItemRow(
    id: int, kendaraan_id: int, nama: string, interval_type: Option<IntervalType>,
    interval_value: Option<int>, time_interval_value: Option<int>,
    time_interval_unit: Option<IntervalType>, last_km: Option<int>, last_date: Option<string>)

  datatype ServiceItem = ServiceItem(
    id: int, kendaraanId: int, nama: string, intervalType: Option<IntervalType>,
    intervalValue: Option<int>, timeIntervalValue: Option<int>,
    timeIntervalUnit: Option<IntervalType>, lastKm: Option<int>, lastDate: Option<string>)

  /** `toServiceItem`: the same nine fields under their camelCase names. */
  function ToServiceItem(row: ServiceItemRow): ServiceItem {
    ServiceItem(row.id, row.kendaraan_id, row.nama, row.interval_type, row.interval_value,
                row.time_interval_value, row.time_interval_unit, row.last_km, row.last_date)
  }

  function ServiceItemToRow(item: ServiceItem): ServiceItemRow {
    ServiceItemRow(item.id, item.kendaraanId, item.nama, item.intervalType, item.intervalValue,
                   item.timeIntervalValue, item.timeIntervalUnit, item.lastKm, item.lastDate)
  }

  /** `toServiceItem` loses nothing and adds nothing: it is a bijection between rows and items. */
  lemma ServiceItemRoundTrip(row: ServiceItemRow, item: ServiceItem)
    ensures ServiceItemToRow(ToServiceItem(row)) == row
    ensures ToServiceItem(ServiceItemToRow(item)) == item
  {
  }

  // ---- Service history ----

  datatype ServiceHistoryRow = ServiceHistoryRow(
    id: int, kendaraan_id: int, service_date: string, odometer_km: int,
    /** A JSON array of item ids, as text. */
    service_item_ids: string,
    total_cost: Option<int>, notes: Option<string>, created_at: string)

  datatype ServiceHistory = ServiceHistory(
    id: int, kendaraanId: int, serviceDate: string, odometerKm: int, serviceItemIds: seq<int>,
    totalCost: Option<int>, notes: Option<string>, createdAt: string)

  /**
   * `toServiceHistory`: copies the fields and parses the id list. A list that is not a JSON array
   * of integers is refused with `SyntaxError`.
   */
  function ToServiceHistory(row: ServiceHistoryRow): (r: Result<ServiceHistory, JsonIds.JsonError>)
    ensures r.Ok? <==> JsonIds.DecodeIds(row.service_item_ids).Ok?
    ensures r.Ok? ==> r.value.serviceItemIds == JsonIds.DecodeIds(row.service_item_ids).value
  {
    match JsonIds.DecodeIds(row.service_item_ids)
    case Err(e) => Err(e)
    case Ok(ids) =>
      Ok(ServiceHistory(row.id, row.kendaraan_id, row.service_date, row.odometer_km, ids,
                        row.total_cost, row.notes, row.created_at))
  }

  /** The row an entry is stored as, with its ids written by `JSON.stringify`. */
  function ServiceHistoryToRow(h: ServiceHistory): ServiceHistoryRow {
    ServiceHistoryRow(h.id, h.kendaraanId, h.serviceDate, h.odometerKm,
                      JsonIds.EncodeIds(h.serviceItemIds), h.totalCost, h.notes, h.createdAt)
  }

  /** An entry stored with its ids written as JSON reads back unchanged. */
  lemma ServiceHistoryRoundTrip(h: ServiceHistory)
    ensures ToServiceHistory(ServiceHistoryToRow(h)) == Ok(h)
  {
    JsonIds.DecodeEncodeIds(h.serviceItemIds);
  }

  /** Every row whose id list is a JSON array of integers converts, and the conversion reverses to that row up to the id text. */
  lemma ToServiceHistoryKeepsRow(row: ServiceHistoryRow)
    requires JsonIds.DecodeIds(row.service_item_ids).Ok?
    ensures ToServiceHistory(row).Ok?
    ensures ServiceHistoryToRow(ToServiceHistory(row).value).(service_item_ids := row.service_item_ids) == row
  {
  }

  // ---- Tax payment ----

  datatype TaxPaymentRow = TaxPaymentRow(
    id: int, kendaraan_id: int, taxType: string, paid_until: string, paid_date: string,
    cost: Option<int>, notes: Option<string>, created_at: string)

  /** `taxType` is `'tahunan'` (annual) or `'5tahunan'` (five-yearly); the cast does not check it. */
  datatype TaxPayment = TaxPayment(
    id: int, kendaraanId: int, taxType: string, paidUntil: string, paidDate: string,
    cost: Option<int>, notes: Option<string>, createdAt: string)

  /** `toTaxPayment`: the same eight fields under their camelCase names. */
  function ToTaxPayment(row: TaxPaymentRow): TaxPayment {
    TaxPayment(row.id, row.kendaraan_id, row.taxType, row.paid_until, row.paid_date, row.cost,
               row.notes, row.created_at)
  }

  function TaxPaymentToRow(p: TaxPayment): TaxPaymentRow {
    TaxPaymentRow(p.id, p.kendaraanId, p.taxType, p.paidUntil, p.paidDate, p.cost, p.notes,
                  p.createdAt)
  }

  /** `toTaxPayment` is a bijection between rows and payments. */
  lemma TaxPaymentRoundTrip(row: TaxPaymentRow, p: TaxPayment)
    ensures TaxPaymentToRow(ToTaxPayment(row)) == row
    ensures ToTaxPayment(TaxPaymentToRow(p)) == p
  {
  }
}
