/**
 * The two forms that record a service (client/src/components/history/AddHistoryForm.tsx and
 * client/src/components/TambahServis.tsx): a checkbox list of service items, a submit gate
 * (selection first, then the odometer) and the payload posted to `/api/service-history`. The
 * request itself is a parameter: the outcome the server or the network gave. Today's date, which
 * both forms read from the clock, is a parameter too.
 */
module HistoryForms {
  import opened Wrappers
  import JsText
  import Gauge
  import Validation
  import FormFields
  import Types

  /** Why a submit was refused before any request. */
  datatype GateError = NoSelection | BadOdometer

  /**
   * `selectedIds.length === 0`, then `!odometerKm || parseInt(odometerKm) <= 0`. A text that
   * does not parse is `NaN`, and `NaN <= 0` is false, so it passes.
   */
  function SubmitGate(selected: seq<int>, odometer: string): Option<GateError> {
    if |selected| == 0 then Some(NoSelection)
    else if odometer == "" || (JsText.ParseInt(odometer).Some? && JsText.ParseInt(odometer).value <= 0) then Some(BadOdometer)
    else None
  }

  /** The body of the POST: the odometer and the cost parsed, empty cost and notes as `null`. */
  datatype HistoryPayload = HistoryPayload(
    kendaraanId: int, serviceDate: string, odometerKm: Option<int>, serviceItemIds: seq<int>,
    totalCost: Option<int>, notes: Option<string>)

  function PayloadOf(kendaraanId: int, serviceDate: string, odometer: string, selected: seq<int>,
                     totalCost: string, notes: string): HistoryPayload {
    HistoryPayload(kendaraanId, serviceDate, JsText.ParseInt(odometer), selected,
                   FormFields.IntOrNull(totalCost), FormFields.OrNull(notes))
  }

  /**
   * The selection is checked first: with nothing selected the odometer is never looked at.
   * With a selection, a reading typed as a whole number passes exactly when it is positive.
   */
  lemma GateOrder(selected: seq<int>, odometer: string, km: int)
    ensures |selected| == 0 ==> SubmitGate(selected, odometer) == Some(NoSelection)
    ensures |selected| > 0 ==> (SubmitGate(selected, JsText.IntToString(km)) == None <==> km > 0)
    ensures |selected| > 0 ==> SubmitGate(selected, "") == Some(BadOdometer)
  {
    JsText.ParseIntOfIntToString(km);
  }

  /**
   * A reading of 0 is refused although the server's `isValidOdometer` accepts it, and a reading
   * that is not a number passes the gate and is sent as `null`.
   */
  lemma GateAgainstServer(id: int)
    ensures SubmitGate([id], "0") == Some(BadOdometer)
    ensures Validation.IsValidOdometer(Gauge.Finite(0.0))
    ensures SubmitGate([id], "abc") == None
    ensures JsText.ParseInt("abc") == None
  {
    JsText.ParseIntOfIntToString(0);
    assert JsText.IntToString(0) == "0";
    assert JsText.TrimStart("abc") == "abc";
    assert JsText.DigitPrefix("abc", 10) == "";
  }

  /**
   * Whatever passes the gate is sent with at least one item and an odometer that is positive or
   * `null`; the cost is `null` when left empty and the typed number otherwise, and notes are
   * `null` exactly when empty.
   */
  lemma PayloadShape(kendaraanId: int, date: string, odometer: string, selected: seq<int>,
                     totalCost: string, notes: string, cost: int)
    requires SubmitGate(selected, odometer) == None
    ensures var p := PayloadOf(kendaraanId, date, odometer, selected, totalCost, notes);
      && |p.serviceItemIds| > 0
      && (p.odometerKm.None? || p.odometerKm.value > 0)
      && (totalCost == "" ==> p.totalCost.None?)
      && (totalCost == JsText.IntToString(cost) ==> p.totalCost == Some(cost))
      && (p.notes.None? <==> notes == "")
  {
    FormFields.NumberTextRoundTrip(Some(cost));
  }

  /** How `api.post` ended: saved, or threw (with the `Error`'s message, if it was one). */
  datatype PostOutcome = Saved | Threw(message: Option<string>)

  /** AddHistoryForm's state; `kendaraanId` and `currentKm` are its props. */
  class AddHistoryForm {
    const kendaraanId: int
    const currentKm: int
    var serviceDate: string
    var odometerKm: string
    var selectedIds: seq<int>
    var totalCost: string
    var notes: string
    var loading: bool
    var error: string

    /** The checkbox list never holds an id twice. */
    predicate Valid()
      reads this
    {
      FormFields.NoDuplicates(selectedIds)
    }

    constructor(kendaraanId: int, currentKm: int, today: string)
      ensures this.kendaraanId == kendaraanId && this.currentKm == currentKm
      ensures serviceDate == today && odometerKm == JsText.IntToString(currentKm)
      ensures selectedIds == [] && totalCost == "" && notes == "" && !loading && error == ""
      ensures Valid()
    {
      this.kendaraanId := kendaraanId;
      this.currentKm := currentKm;
      serviceDate := today;
      odometerKm := JsText.IntToString(currentKm);
      selectedIds := [];
      totalCost := "";
      notes := "";
      loading := false;
      error := "";
    }

    /** `handleToggle`: flips `id` in the selection and keeps it free of duplicates. */
    method HandleToggle(id: int)
      requires Valid()
      modifies this
      ensures Valid()
      ensures selectedIds == FormFields.Toggle(old(selectedIds), id)
      ensures id in selectedIds <==> id !in old(selectedIds)
      ensures serviceDate == old(serviceDate) && odometerKm == old(odometerKm)
      ensures totalCost == old(totalCost) && notes == old(notes)
      ensures loading == old(loading) && error == old(error)
    {
      FormFields.ToggleFlips(selectedIds, id, id);
      selectedIds := FormFields.Toggle(selectedIds, id);
    }

    /** `resetForm`: today's date, the odometer back to `currentKm`, everything else empty. */
    method ResetForm(today: string)
      modifies this
      ensures Valid()
      ensures serviceDate == today && odometerKm == JsText.IntToString(currentKm)
      ensures selectedIds == [] && totalCost == "" && notes == "" && error == ""
      ensures loading == old(loading)
    {
      serviceDate := today;
      odometerKm := JsText.IntToString(currentKm);
      selectedIds := [];
      totalCost := "";
      notes := "";
      error := "";
    }

    /**
     * `handleSubmit`: a refused gate sets its message and sends nothing; otherwise the payload is
     * sent, and a save resets the form while a failure keeps the inputs and shows the message.
     */
    method HandleSubmit(today: string, outcome: PostOutcome) returns (sent: Option<HistoryPayload>)
      modifies this
      ensures var gate := SubmitGate(old(selectedIds), old(odometerKm));
        && (gate.Some? ==> sent.None?)
        && (gate == Some(NoSelection) ==> error == "Pilih minimal satu item servis")
        && (gate == Some(BadOdometer) ==> error == "Masukkan odometer yang valid")
        && (gate.None? ==> sent == Some(PayloadOf(kendaraanId, old(serviceDate), old(odometerKm),
                                                  old(selectedIds), old(totalCost), old(notes))))
      ensures sent.None? ==>
        && serviceDate == old(serviceDate) && odometerKm == old(odometerKm)
        && selectedIds == old(selectedIds) && totalCost == old(totalCost) && notes == old(notes)
        && loading == old(loading)
      ensures sent.Some? && outcome.Saved? ==>
        && serviceDate == today && odometerKm == JsText.IntToString(currentKm)
        && selectedIds == [] && totalCost == "" && notes == "" && error == "" && !loading
      ensures sent.Some? && outcome.Threw? ==>
        && serviceDate == old(serviceDate) && odometerKm == old(odometerKm)
        && selectedIds == old(selectedIds) && totalCost == old(totalCost) && notes == old(notes)
        && error == (if outcome.message.Some? then outcome.message.value else "Gagal menyimpan")
        && !loading
    {
      var gate := SubmitGate(selectedIds, odometerKm);
      if gate == Some(NoSelection) {
        error := "Pilih minimal satu item servis";
        return None;
      }
      if gate == Some(BadOdometer) {
        error := "Masukkan odometer yang valid";
        return None;
      }
      loading := true;
      error := "";
      sent := Some(PayloadOf(kendaraanId, serviceDate, odometerKm, selectedIds, totalCost, notes));
      match outcome {
        case Saved =>
          ResetForm(today);
        case Threw(message) =>
          error := if message.Some? then message.value else "Gagal menyimpan";
      }
      loading := false;
    }
  }

  /** How the POST in TambahServis ended. */
  datatype FetchOutcome =
    | Ok
    /** A non-OK response, with its body's `error` field. */
    | NotOk(errorField: Option<string>)
    | Failed

  /** How loading the vehicle's service items ended: the `results` field, a non-OK status, or a throw. */
  datatype ItemsOutcome = Loaded(results: Option<seq<Types.ServiceItem>>) | ItemsNotOk | ItemsFailed

  /** TambahServis's state; `kendaraanId` and `currentKm` are its props. */
  class TambahServis {
    const kendaraanId: int
    const currentKm: int
    var serviceDate: string
    var odometerKm: string
    var selectedServices: seq<int>
    var totalCost: string
    var notes: string
    var serviceItems: seq<Types.ServiceItem>
    var loading: bool
    var error: string

    predicate Valid()
      reads this
    {
      FormFields.NoDuplicates(selectedServices)
    }

    constructor(kendaraanId: int, currentKm: int, today: string)
      ensures this.kendaraanId == kendaraanId && this.currentKm == currentKm
      ensures serviceDate == today && odometerKm == JsText.IntToString(currentKm)
      ensures selectedServices == [] && totalCost == "" && notes == "" && serviceItems == []
      ensures !loading && error == ""
      ensures Valid()
    {
      this.kendaraanId := kendaraanId;
      this.currentKm := currentKm;
      serviceDate := today;
      odometerKm := JsText.IntToString(currentKm);
      selectedServices := [];
      totalCost := "";
      notes := "";
      serviceItems := [];
      loading := false;
      error := "";
    }

    /**
     * The effect run when the dialog opens: the items are loaded (`results || []`, or an error
     * message) and the odometer goes back to `currentKm`.
     */
    method Open(items: ItemsOutcome)
      modifies this
      ensures odometerKm == JsText.IntToString(currentKm) && !loading
      ensures items.Loaded? ==> serviceItems == (if items.results.Some? then items.results.value else [])
      ensures items.Loaded? ==> error == old(error)
      ensures !items.Loaded? ==> serviceItems == old(serviceItems)
      ensures items == ItemsNotOk ==> error == "Failed to load service items"
      ensures items == ItemsFailed ==> error == "Error loading service items"
      ensures selectedServices == old(selectedServices) && serviceDate == old(serviceDate)
      ensures totalCost == old(totalCost) && notes == old(notes)
    {
      match items {
        case Loaded(results) =>
          serviceItems := if results.Some? then results.value else [];
        case ItemsNotOk =>
          error := "Failed to load service items";
        case ItemsFailed =>
          error := "Error loading service items";
      }
      loading := false;
      odometerKm := JsText.IntToString(currentKm);
    }

    /** `handleServiceToggle`. */
    method HandleServiceToggle(id: int)
      requires Valid()
      modifies this
      ensures Valid()
      ensures selectedServices == FormFields.Toggle(old(selectedServices), id)
      ensures id in selectedServices <==> id !in old(selectedServices)
      ensures serviceDate == old(serviceDate) && odometerKm == old(odometerKm)
      ensures totalCost == old(totalCost) && notes == old(notes) && serviceItems == old(serviceItems)
      ensures loading == old(loading) && error == old(error)
    {
      FormFields.ToggleFlips(selectedServices, id, id);
      selectedServices := FormFields.Toggle(selectedServices, id);
    }

    /** `resetForm`, which `handleClose` also runs. */
    method ResetForm(today: string)
      modifies this
      ensures Valid()
      ensures serviceDate == today && odometerKm == JsText.IntToString(currentKm)
      ensures selectedServices == [] && totalCost == "" && notes == "" && error == ""
      ensures serviceItems == old(serviceItems) && loading == old(loading)
    {
      serviceDate := today;
      odometerKm := JsText.IntToString(currentKm);
      selectedServices := [];
      totalCost := "";
      notes := "";
      error := "";
    }

    /**
     * `handleSubmit`: the same gate and payload as AddHistoryForm, with English messages; a
     * non-OK answer shows the server's `error` (or a fixed message) and keeps the inputs.
     */
    method HandleSubmit(today: string, outcome: FetchOutcome) returns (sent: Option<HistoryPayload>)
      modifies this
      ensures var gate := SubmitGate(old(selectedServices), old(odometerKm));
        && (gate.Some? ==> sent.None?)
        && (gate == Some(NoSelection) ==> error == "Please select at least one service item")
        && (gate == Some(BadOdometer) ==> error == "Please enter a valid odometer reading")
        && (gate.None? ==> sent == Some(PayloadOf(kendaraanId, old(serviceDate), old(odometerKm),
                                                  old(selectedServices), old(totalCost), old(notes))))
      ensures serviceItems == old(serviceItems)
      ensures sent.None? ==>
        && serviceDate == old(serviceDate) && odometerKm == old(odometerKm)
        && selectedServices == old(selectedServices) && totalCost == old(totalCost)
        && notes == old(notes) && loading == old(loading)
      ensures sent.Some? && outcome.Ok? ==>
        && serviceDate == today && odometerKm == JsText.IntToString(currentKm)
        && selectedServices == [] && totalCost == "" && notes == "" && error == "" && !loading
      ensures sent.Some? && !outcome.Ok? ==>
        && serviceDate == old(serviceDate) && odometerKm == old(odometerKm)
        && selectedServices == old(selectedServices) && totalCost == old(totalCost)
        && notes == old(notes) && !loading
        && error == (if outcome.NotOk? && Gauge.Present(outcome.errorField) then outcome.errorField.value
                     else if outcome.NotOk? then "Failed to save service record"
                     else "Error saving service record")
    {
      var gate := SubmitGate(selectedServices, odometerKm);
      if gate == Some(NoSelection) {
        error := "Please select at least one service item";
        return None;
      }
      if gate == Some(BadOdometer) {
        error := "Please enter a valid odometer reading";
        return None;
      }
      loading := true;
      error := "";
      sent := Some(PayloadOf(kendaraanId, serviceDate, odometerKm, selectedServices, totalCost, notes));
      match outcome {
        case Ok =>
          ResetForm(today);
        case NotOk(errorField) =>
          error := if Gauge.Present(errorField) then errorField.value else "Failed to save service record";
        case Failed =>
          error := "Error saving service record";
      }
      loading := false;
    }
  }
}
