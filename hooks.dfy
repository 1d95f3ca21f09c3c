/**
 * The data hooks for service history and tax payments (client/src/hooks/useServiceHistory.ts,
 * client/src/hooks/useTaxPayments.ts): the guards that skip a fetch, the conversion of fetched
 * rows, and the newest-first sort of the lists gathered for all vehicles. A hook's state is an
 * object whose fields its fetch updates; the HTTP responses are parameters (`None` when the
 * request failed, which the hook catches and logs).
 */
module Hooks {
  import opened Wrappers
  import Calendar
  import opened Types
  import JsonIds
  import StableSort
  import Gauge

  // ---- Newest first ----

  /** `new Date(s).getTime()` for a date column; `None` is `NaN`. */
  function DateMs(s: string): (t: Option<int>)
    ensures t.Some? <==> Calendar.ParseIsoDate(s).Some?
  {
    match Calendar.ParseIsoDate(s)
    case None => None
    case Some(c) => Some(Calendar.DayOf(c) * Calendar.MsPerDay)
  }

  /**
   * The comparator `(a, b) => time(b) - time(a)` read as "`x` goes before `y`": `x` is strictly
   * newer. A `NaN` difference compares as equal.
   */
  predicate Newer(x: string, y: string) {
    DateMs(x).Some? && DateMs(y).Some? && DateMs(x).value > DateMs(y).value
  }

  predicate NewerEntry(x: ServiceHistory, y: ServiceHistory) {
    Newer(x.serviceDate, y.serviceDate)
  }

  predicate NewerPayment(x: TaxPayment, y: TaxPayment) {
    Newer(x.paidDate, y.paidDate)
  }

  /** On valid dates the comparator is a strict weak order: later day first, same day tied. */
  lemma EntryOrderIsStrictWeak(s: seq<ServiceHistory>)
    requires forall x | x in s :: DateMs(x.serviceDate).Some?
    ensures StableSort.StrictWeakOrderOn(s, NewerEntry)
  {
  }

  lemma PaymentOrderIsStrictWeak(s: seq<TaxPayment>)
    requires forall x | x in s :: DateMs(x.paidDate).Some?
    ensures StableSort.StrictWeakOrderOn(s, NewerPayment)
  {
  }

  // ---- Service history ----

  /** `(data.results || [])`: a response without results counts as empty. */
  function ResultsOf<R>(response: Option<seq<R>>): seq<R> {
    if response.Some? then response.value else []
  }

  /** `results.flatMap(r => r.results || [])`: every response's rows, in response order. */
  function AllRows<R>(responses: seq<Option<seq<R>>>): (rows: seq<R>)
    ensures responses != [] ==> rows == ResultsOf(responses[0]) + AllRows(responses[1..])
  {
    if responses == [] then [] else ResultsOf(responses[0]) + AllRows(responses[1..])
  }

  /** `.map(toServiceHistory)`: the first row whose id list is not JSON throws. */
  function ConvertHistory(rows: seq<ServiceHistoryRow>): Result<seq<ServiceHistory>, JsonIds.JsonError> {
    MapAll(rows, ToServiceHistory)
  }

  /**
   * The conversion succeeds exactly when every row's id list parses, and then it converts each
   * row in place: nothing is dropped, added or reordered.
   */
  lemma ConvertHistoryRows(rows: seq<ServiceHistoryRow>)
    ensures ConvertHistory(rows).Ok? <==> forall i | 0 <= i < |rows| :: ToServiceHistory(rows[i]).Ok?
    ensures ConvertHistory(rows).Ok? ==>
      && |ConvertHistory(rows).value| == |rows|
      && forall i | 0 <= i < |rows| :: ConvertHistory(rows).value[i] == ToServiceHistory(rows[i]).value
  {
    MapAllEach(rows, ToServiceHistory);
  }

  /** The state of `useServiceHistory(kendaraanId)`. */
  class VehicleHistory {
    var history: seq<ServiceHistory>
    var loading: bool

    constructor()
      ensures history == [] && !loading
    {
      history := [];
      loading := false;
    }

    /**
     * `fetchHistory`: nothing happens without a vehicle id (`null` or 0); otherwise the fetched
     * rows are converted and replace the list. A failed request or a malformed row is caught
     * and leaves the list as it was; either way loading ends.
     */
    method FetchHistory(kendaraanId: Option<int>, response: Option<Option<seq<ServiceHistoryRow>>>)
      modifies this
      ensures !Gauge.Truthy(kendaraanId) ==> history == old(history) && loading == old(loading)
      ensures Gauge.Truthy(kendaraanId) ==> !loading
      ensures Gauge.Truthy(kendaraanId) ==>
        history == (if response.Some? && ConvertHistory(ResultsOf(response.value)).Ok?
                    then ConvertHistory(ResultsOf(response.value)).value
                    else old(history))
    {
      if kendaraanId.None? || kendaraanId.value == 0 {
        return;
      }
      loading := true;
      if response.Some? {
        var converted := ConvertHistory(ResultsOf(response.value));
        if converted.Ok? {
          history := converted.value;
        }
      }
      loading := false;
    }
  }

  /** The state of `useAllServiceHistory(vehicleIds)`. */
  class AllHistory {
    var history: seq<ServiceHistory>
    var loading: bool

    constructor()
      ensures history == [] && !loading
    {
      history := [];
      loading := false;
    }

    /**
     * `fetchAll`: nothing happens for an empty id list; otherwise the per-vehicle responses
     * are merged in order, converted, and sorted in place newest first. A failed request or a
     * malformed row is caught and leaves the list as it was.
     */
    method FetchAll(vehicleIds: seq<int>, responses: Option<seq<Option<seq<ServiceHistoryRow>>>>)
      modifies this
      ensures vehicleIds == [] ==> history == old(history) && loading == old(loading)
      ensures vehicleIds != [] ==> !loading
      ensures vehicleIds != [] ==>
        history == (if responses.Some? && ConvertHistory(AllRows(responses.value)).Ok?
                    then StableSort.InsertionSort(ConvertHistory(AllRows(responses.value)).value, NewerEntry)
                    else old(history))
    {
      if |vehicleIds| == 0 {
        return;
      }
      loading := true;
      if responses.Some? {
        var all := ConvertHistory(AllRows(responses.value));
        if all.Ok? {
          history := StableSort.SortedCopy(all.value, NewerEntry);
        }
      }
      loading := false;
    }
  }

  /** Every entry's service date parses, and no entry is older than one after it. */
  ghost predicate NewestFirst(r: seq<ServiceHistory>) {
    forall i, j | 0 <= i < j < |r| ::
      var ti, tj := DateMs(r[i].serviceDate), DateMs(r[j].serviceDate); ti.Some? && tj.Some? && ti.value >= tj.value
  }

  /**
   * The merged history: every fetched entry exactly once, newest service date first, entries
   * of the same day in the order the vehicles and their rows came in.
   */
  lemma MergedHistoryOrder(responses: seq<Option<seq<ServiceHistoryRow>>>, e: ServiceHistory)
    requires ConvertHistory(AllRows(responses)).Ok?
    requires forall h | h in ConvertHistory(AllRows(responses)).value :: DateMs(h.serviceDate).Some?
    ensures var s := ConvertHistory(AllRows(responses)).value;
      var r := StableSort.InsertionSort(s, NewerEntry);
      && multiset(r) == multiset(s)
      && |r| == |AllRows(responses)|
      && NewestFirst(r)
      && (e in s ==> StableSort.EquivalentTo(r, e, NewerEntry) == StableSort.EquivalentTo(s, e, NewerEntry))
  {
    var rows := AllRows(responses);
    var s := ConvertHistory(rows).value;
    ConvertHistoryRows(rows);
    HistorySorted(s, e);
  }

  lemma HistorySorted(s: seq<ServiceHistory>, e: ServiceHistory)
    requires forall h | h in s :: DateMs(h.serviceDate).Some?
    ensures var r := StableSort.InsertionSort(s, NewerEntry);
      && multiset(r) == multiset(s)
      && NewestFirst(r)
      && (e in s ==> StableSort.EquivalentTo(r, e, NewerEntry) == StableSort.EquivalentTo(s, e, NewerEntry))
  {
    EntryOrderIsStrictWeak(s);
    StableSort.SortIsPermutation(s, NewerEntry);
    StableSort.SortIsSorted(s, NewerEntry);
    var r := StableSort.InsertionSort(s, NewerEntry);
    forall i | 0 <= i < |r| ensures DateMs(r[i].serviceDate).Some? {
      assert r[i] in multiset(r);
    }
    if e in s {
      StableSort.SortIsStable(s, e, NewerEntry);
    }
  }

  // ---- Tax payments ----

  function ConvertPayments(rows: seq<TaxPaymentRow>): (r: seq<TaxPayment>)
    ensures |r| == |rows| && forall i | 0 <= i < |rows| :: r[i] == ToTaxPayment(rows[i])
  {
    seq(|rows|, i requires 0 <= i < |rows| => ToTaxPayment(rows[i]))
  }

  /** The state of `useTaxPayments(kendaraanId)`. */
  class VehicleTaxPayments {
    var taxPayments: seq<TaxPayment>
    var loading: bool

    constructor()
      ensures taxPayments == [] && !loading
    {
      taxPayments := [];
      loading := false;
    }

    /** `fetchTaxPayments`: skipped without a vehicle id; otherwise the converted rows. */
    method FetchTaxPayments(kendaraanId: Option<int>, response: Option<Option<seq<TaxPaymentRow>>>)
      modifies this
      ensures !Gauge.Truthy(kendaraanId) ==> taxPayments == old(taxPayments) && loading == old(loading)
      ensures Gauge.Truthy(kendaraanId) ==> !loading
      ensures Gauge.Truthy(kendaraanId) ==>
        taxPayments == (if response.Some? then ConvertPayments(ResultsOf(response.value)) else old(taxPayments))
    {
      if kendaraanId.None? || kendaraanId.value == 0 {
        return;
      }
      loading := true;
      if response.Some? {
        taxPayments := ConvertPayments(ResultsOf(response.value));
      }
      loading := false;
    }
  }

  /** The state of `useAllTaxPayments(vehicleIds)`. */
  class AllTaxPayments {
    var taxPayments: seq<TaxPayment>
    var loading: bool

    constructor()
      ensures taxPayments == [] && !loading
    {
      taxPayments := [];
      loading := false;
    }

    /**
     * `fetchAll`: for a non-empty id list, one request for every payment of the user; the ids
     * only decide whether to fetch, they filter nothing. The rows are converted and sorted in
     * place, latest payment first.
     */
    method FetchAll(vehicleIds: seq<int>, response: Option<Option<seq<TaxPaymentRow>>>)
      modifies this
      ensures vehicleIds == [] ==> taxPayments == old(taxPayments) && loading == old(loading)
      ensures vehicleIds != [] ==> !loading
      ensures vehicleIds != [] ==>
        taxPayments == (if response.Some?
                        then StableSort.InsertionSort(ConvertPayments(ResultsOf(response.value)), NewerPayment)
                        else old(taxPayments))
    {
      if |vehicleIds| == 0 {
        return;
      }
      loading := true;
      if response.Some? {
        var all := ConvertPayments(ResultsOf(response.value));
        taxPayments := StableSort.SortedCopy(all, NewerPayment);
      }
      loading := false;
    }
  }

  /**
   * The sorted payments: every fetched row's payment exactly once, latest payment date first,
   * payments of the same day in the order the server sent them.
   */
  lemma PaymentsOrder(rows: seq<TaxPaymentRow>, e: TaxPayment)
    requires forall i | 0 <= i < |rows| :: DateMs(rows[i].paid_date).Some?
    ensures var s := ConvertPayments(rows);
      var r := StableSort.InsertionSort(s, NewerPayment);
      && multiset(r) == multiset(s)
      && (forall i, j | 0 <= i < j < |r| ::
            var ti, tj := DateMs(r[i].paidDate), DateMs(r[j].paidDate); ti.Some? && tj.Some? && ti.value >= tj.value)
      && (e in s ==> StableSort.EquivalentTo(r, e, NewerPayment) == StableSort.EquivalentTo(s, e, NewerPayment))
  {
    var s := ConvertPayments(rows);
    forall p | p in s ensures DateMs(p.paidDate).Some? {
      var i :| 0 <= i < |s| && s[i] == p;
    }
    PaymentOrderIsStrictWeak(s);
    StableSort.SortIsPermutation(s, NewerPayment);
    StableSort.SortIsSorted(s, NewerPayment);
    var r := StableSort.InsertionSort(s, NewerPayment);
    forall i | 0 <= i < |r| ensures DateMs(r[i].paidDate).Some? {
      assert r[i] in multiset(r);
    }
    if e in s {
      StableSort.SortIsStable(s, e, NewerPayment);
    }
  }
}
