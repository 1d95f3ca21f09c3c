/**
 * The two vehicle forms: client/src/components/vehicles/VehicleForm.tsx (add or edit, payload
 * through the caller's `onSubmit`) and client/src/components/VehicleSelector.tsx (the vehicle
 * picker with its add, delete and odometer dialogs). The picker's selection and odometer live in
 * a store (client/src/store/useKendaraanStore.ts) whose setters only assign; here they are two
 * fields of the picker. Every request is a parameter: the response the server gave.
 */
module VehicleForms {
  import opened Wrappers
  import JsText
  import Gauge
  import FormFields
  import Types

  // ---- VehicleForm ----

  /** The fields a stored vehicle is shown with: `x || ''`, numbers through `toString()`. */
  function LoadVehicle(v: Types.Vehicle): FormFields.VehicleFields {
    FormFields.VehicleFields(v.nama, FormFields.Text(v.tipe), FormFields.Text(v.plat),
                             FormFields.NumberText(v.tahun), FormFields.NumberText(v.bulanPajak),
                             FormFields.NumberText(Some(v.currentKm)))
  }

  /**
   * Editing a vehicle and saving it unchanged sends back its own name, type, plate, year, tax
   * month and odometer (0 included), except that an empty type or plate goes out as `null`.
   */
  lemma EditVehicleRoundTrip(v: Types.Vehicle)
    requires v.nama != ""
    ensures FormFields.VehiclePayloadOf(LoadVehicle(v)) == Some(FormFields.VehiclePayload(
      v.nama, if v.tipe == Some("") then None else v.tipe, if v.plat == Some("") then None else v.plat,
      v.tahun, v.bulanPajak, Some(v.currentKm)))
  {
    FormFields.TextRoundTrip(v.tipe);
    FormFields.TextRoundTrip(v.plat);
    FormFields.NumberTextRoundTrip(v.tahun);
    FormFields.NumberTextRoundTrip(v.bulanPajak);
    FormFields.NumberTextRoundTrip(Some(v.currentKm));
  }

  /** An empty form with only a name sends `null` for everything optional and 0 km. */
  lemma OnlyNameDefaults(nama: string)
    requires nama != ""
    ensures FormFields.VehiclePayloadOf(FormFields.EmptyVehicleFields.(nama := nama))
         == Some(FormFields.VehiclePayload(nama, None, None, None, None, Some(0)))
  {
  }

  class VehicleForm {
    const isEdit: bool
    var fields: FormFields.VehicleFields
    var loading: bool

    /** The initial state: the vehicle's fields when editing, all empty when adding. */
    constructor(vehicle: Option<Types.Vehicle>)
      ensures isEdit <==> vehicle.Some?
      ensures fields == (if vehicle.Some? then LoadVehicle(vehicle.value) else FormFields.EmptyVehicleFields)
      ensures !loading
    {
      isEdit := vehicle.Some?;
      fields := if vehicle.Some? then LoadVehicle(vehicle.value) else FormFields.EmptyVehicleFields;
      loading := false;
    }

    /** `resetForm`: all six inputs empty. */
    method ResetForm()
      modifies this
      ensures fields == FormFields.EmptyVehicleFields && loading == old(loading)
    {
      fields := FormFields.EmptyVehicleFields;
    }

    /**
     * `handleSubmit`: nothing without a name; otherwise the payload goes to `onSubmit`, and a
     * successful add (never an edit) empties the form.
     */
    method HandleSubmit(succeeded: bool) returns (sent: Option<FormFields.VehiclePayload>)
      modifies this
      ensures sent == FormFields.VehiclePayloadOf(old(fields))
      ensures sent.None? ==> fields == old(fields) && loading == old(loading)
      ensures sent.Some? ==> !loading
      ensures sent.Some? ==> fields == (if succeeded && !isEdit then FormFields.EmptyVehicleFields else old(fields))
    {
      if fields.nama == "" {
        return None;
      }
      loading := true;
      sent := FormFields.VehiclePayloadOf(fields);
      if succeeded && !isEdit {
        ResetForm();
      }
      loading := false;
    }
  }

  // ---- VehicleSelector ----

  /** A row of `/api/vehicles` as the picker reads it. */
  datatype PickerRow = PickerRow(
    id: int, nama: string, tipe: Option<string>, plat: Option<string>, tahun: Option<int>,
    bulan_pajak: Option<int>, current_km: Option<int>)

  /** The picker's own vehicle record: the odometer stays nullable. */
  datatype PickerVehicle = PickerVehicle(
    id: int, nama: string, tipe: Option<string>, plat: Option<string>, tahun: Option<int>,
    bulanPajak: Option<int>, currentKm: Option<int>)

  function ToPickerVehicle(r: PickerRow): PickerVehicle {
    PickerVehicle(r.id, r.nama, r.tipe, r.plat, r.tahun, r.bulan_pajak, r.current_km)
  }

  /** `(data.results || []).map(...)`. */
  function Transform(results: Option<seq<PickerRow>>): (vs: seq<PickerVehicle>)
    ensures results.None? ==> vs == []
    ensures results.Some? ==> |vs| == |results.value|
    ensures results.Some? ==> forall i | 0 <= i < |vs| :: vs[i] == ToPickerVehicle(results.value[i])
  {
    if results.None? then [] else seq(|results.value|, i requires 0 <= i < |results.value| => ToPickerVehicle(results.value[i]))
  }

  /** The transform renames and drops nothing: distinct rows give distinct vehicles, in order. */
  lemma TransformInjective(a: Option<seq<PickerRow>>, b: Option<seq<PickerRow>>)
    requires a.Some? && b.Some?
    ensures Transform(a) == Transform(b) <==> a == b
  {
    if Transform(a) == Transform(b) {
      assert |a.value| == |b.value|;
      forall i | 0 <= i < |a.value|
        ensures a.value[i] == b.value[i]
      {
        assert Transform(a)[i] == Transform(b)[i];
      }
      assert a.value == b.value;
    }
  }

  /** `vehicles.find(v => v.id === id)`: the first vehicle with that id. */
  function Find(vs: seq<PickerVehicle>, id: int): (r: Option<PickerVehicle>)
    ensures r.None? <==> forall i | 0 <= i < |vs| :: vs[i].id != id
    ensures r.Some? ==> r.value.id == id
    ensures r.Some? ==> exists i | 0 <= i < |vs| :: vs[i] == r.value && (forall j | 0 <= j < i :: vs[j].id != id)
  {
    if vs == [] then None
    else if vs[0].id == id then Some(vs[0])
    else
      var r := Find(vs[1..], id);
      assert forall i | 1 <= i < |vs| :: vs[i] == vs[1..][i - 1];
      if r.Some? then
        assert exists i | 0 <= i < |vs| :: vs[i] == r.value && (forall j | 0 <= j < i :: vs[j].id != id) by {
          var k :| 0 <= k < |vs[1..]| && vs[1..][k] == r.value && forall j | 0 <= j < k :: vs[1..][j].id != id;
          assert vs[k + 1] == r.value;
          assert forall j | 1 <= j < k + 1 :: vs[j] == vs[1..][j - 1];
        }
        r
      else r
  }

  /** `v.currentKm || 0`. */
  function KmOf(v: PickerVehicle): int {
    if v.currentKm.Some? then v.currentKm.value else 0
  }

  /** The store's two fields. */
  datatype Selection = Selection(selected: Option<int>, km: int)

  /** The odometer shown is the selected vehicle's whenever that vehicle is in the list. */
  predicate Consistent(s: Selection, vs: seq<PickerVehicle>) {
    s.selected.Some? && Find(vs, s.selected.value).Some? ==> s.km == KmOf(Find(vs, s.selected.value).value)
  }

  /** What `fetchVehicles` does to the store: a truthy selection found in the list takes its km. */
  function Refresh(s: Selection, vs: seq<PickerVehicle>): Selection {
    if Gauge.Truthy(s.selected) && Find(vs, s.selected.value).Some? then s.(km := KmOf(Find(vs, s.selected.value).value))
    else s
  }

  /** What `handleVehicleChange` does to the store; -1 opens the add dialog instead. */
  function Choose(s: Selection, vs: seq<PickerVehicle>, value: int): Selection {
    if value == -1 then s
    else if Find(vs, value).Some? then Selection(Some(value), KmOf(Find(vs, value).value))
    else s.(selected := Some(value))
  }

  /** After a successful delete: the first remaining vehicle, or none and 0 km, if it was selected. */
  function AfterDelete(s: Selection, deleted: int, vs: seq<PickerVehicle>): Selection {
    if Some(deleted) != s.selected then s
    else if |vs| > 0 then Selection(Some(vs[0].id), KmOf(vs[0]))
    else Selection(None, 0)
  }

  /** After a successful add: the list is refreshed for the old selection, then the new id is selected. */
  function AfterAdd(s: Selection, vs: seq<PickerVehicle>, lastRowId: Option<int>): Selection {
    var r := Refresh(s, vs);
    if Gauge.Truthy(lastRowId) then r.(selected := lastRowId) else r
  }

  /**
   * Choosing a listed vehicle selects it with its own odometer (0 for none) and leaves the
   * store consistent; choosing the sentinel -1 changes nothing.
   */
  lemma ChooseSelects(s: Selection, vs: seq<PickerVehicle>, value: int)
    ensures value == -1 ==> Choose(s, vs, value) == s
    ensures value != -1 ==> Choose(s, vs, value).selected == Some(value)
    ensures value != -1 && Find(vs, value).Some? ==> Consistent(Choose(s, vs, value), vs)
    ensures value != -1 && Find(vs, value).None? ==> Choose(s, vs, value).km == s.km
  {
  }

  /**
   * Deleting the selected vehicle selects the first remaining one, consistently, or nothing with
   * 0 km; deleting another vehicle leaves the selection and the odometer alone.
   */
  lemma DeleteFallback(s: Selection, deleted: int, vs: seq<PickerVehicle>)
    ensures Some(deleted) != s.selected ==> AfterDelete(s, deleted, vs) == s
    ensures Some(deleted) == s.selected && vs == [] ==> AfterDelete(s, deleted, vs) == Selection(None, 0)
    ensures Some(deleted) == s.selected && vs != [] ==>
      AfterDelete(s, deleted, vs).selected == Some(vs[0].id) && Consistent(AfterDelete(s, deleted, vs), vs)
  {
  }

  /** Refreshing the list makes a truthy selection consistent with it. */
  lemma RefreshConsistent(s: Selection, vs: seq<PickerVehicle>)
    requires Gauge.Truthy(s.selected)
    ensures Consistent(Refresh(s, vs), vs)
    ensures Refresh(s, vs).selected == s.selected
  {
  }

  /**
   * After adding a vehicle, the new one is selected but the odometer is still the previously
   * selected vehicle's: here vehicle 1 (100 km) was selected and vehicle 2 (5 km) was added.
   */
  lemma AddKeepsOldKm()
    ensures var vs := [PickerVehicle(1, "A", None, None, None, None, Some(100)),
                       PickerVehicle(2, "B", None, None, None, None, Some(5))];
      var after := AfterAdd(Selection(Some(1), 100), vs, Some(2));
      after == Selection(Some(2), 100) && !Consistent(after, vs)
  {
    var vs := [PickerVehicle(1, "A", None, None, None, None, Some(100)),
               PickerVehicle(2, "B", None, None, None, None, Some(5))];
    assert Find(vs, 1) == Some(vs[0]);
    assert Find(vs, 2) == Some(vs[1]) by {
      assert Find(vs[1..], 2) == Some(vs[1]);
    }
  }

  /** `handleUpdateKm`'s guard and body: a selection and some input, then `parseInt` of it. */
  function KmUpdate(selected: Option<int>, kmInput: string): Option<(int, Option<int>)> {
    if !Gauge.Truthy(selected) || kmInput == "" then None else Some((selected.value, JsText.ParseInt(kmInput)))
  }

  /** An update is sent exactly with a (non-zero) selection and input; a typed number goes as itself. */
  lemma KmUpdateGuard(selected: Option<int>, kmInput: string, km: int)
    ensures KmUpdate(selected, kmInput).Some? <==> Gauge.Truthy(selected) && kmInput != ""
    ensures Gauge.Truthy(selected) ==> KmUpdate(selected, JsText.IntToString(km)) == Some((selected.value, Some(km)))
  {
    FormFields.NumberTextRoundTrip(Some(km));
  }

  /** How the POST of a new vehicle ended. */
  datatype AddOutcome =
    /** OK with `success`: the new row's id (if any) and the list fetched afterwards. */
    | Added(lastRowId: Option<int>, refreshed: Option<seq<PickerRow>>)
    /** Not OK, or no `success`: the body's `error` field. */
    | Refused(error: Option<string>)
    /** The request threw; the text the error converts to. */
    | AddThrew(description: string)

  class VehicleSelector {
    var vehicles: seq<PickerVehicle>
    var showKmDialog: bool
    var kmInput: string
    var showAddDialog: bool
    var newVehicle: FormFields.VehicleFields
    var deleteConfirm: Option<int>
    /** The store's `selectedKendaraanId` and `currentKm`. */
    var selection: Selection

    constructor(selection: Selection)
      ensures vehicles == [] && !showKmDialog && kmInput == "" && !showAddDialog
      ensures newVehicle == FormFields.EmptyVehicleFields && deleteConfirm.None?
      ensures this.selection == selection
    {
      vehicles := [];
      showKmDialog := false;
      kmInput := "";
      showAddDialog := false;
      newVehicle := FormFields.EmptyVehicleFields;
      deleteConfirm := None;
      this.selection := selection;
    }

    /** `fetchVehicles`: the list from `results`, and the selected vehicle's odometer. */
    method FetchVehicles(results: Option<seq<PickerRow>>)
      modifies this
      ensures vehicles == Transform(results)
      ensures selection == Refresh(old(selection), vehicles)
      ensures showKmDialog == old(showKmDialog) && kmInput == old(kmInput)
      ensures showAddDialog == old(showAddDialog) && newVehicle == old(newVehicle)
      ensures deleteConfirm == old(deleteConfirm)
    {
      vehicles := Transform(results);
      if Gauge.Truthy(selection.selected) {
        var current := Find(vehicles, selection.selected.value);
        if current.Some? {
          selection := selection.(km := KmOf(current.value));
        }
      }
    }

    /** `handleVehicleChange`. */
    method HandleVehicleChange(value: int)
      modifies this
      ensures selection == Choose(old(selection), vehicles, value)
      ensures showAddDialog == (value == -1 || old(showAddDialog))
      ensures vehicles == old(vehicles) && deleteConfirm == old(deleteConfirm)
      ensures newVehicle == old(newVehicle) && kmInput == old(kmInput) && showKmDialog == old(showKmDialog)
    {
      if value == -1 {
        showAddDialog := true;
      } else {
        selection := selection.(selected := Some(value));
        var vehicle := Find(vehicles, value);
        if vehicle.Some? {
          selection := selection.(km := KmOf(vehicle.value));
        }
      }
    }

    /** `handleDeleteVehicle`: remember which vehicle to delete. */
    method HandleDeleteVehicle(vehicleId: int)
      modifies this
      ensures deleteConfirm == Some(vehicleId)
      ensures vehicles == old(vehicles) && selection == old(selection)
      ensures newVehicle == old(newVehicle) && kmInput == old(kmInput)
      ensures showKmDialog == old(showKmDialog) && showAddDialog == old(showAddDialog)
    {
      deleteConfirm := Some(vehicleId);
    }

    /**
     * `confirmDeleteVehicle`: without a (non-zero) vehicle to delete, or when the DELETE fails,
     * nothing changes; otherwise the list is fetched again and, if the deleted vehicle was the
     * selected one, the selection falls back.
     */
    method ConfirmDeleteVehicle(ok: bool, refreshed: Option<seq<PickerRow>>)
      modifies this
      ensures !Gauge.Truthy(old(deleteConfirm)) || !ok ==>
        && vehicles == old(vehicles) && selection == old(selection) && deleteConfirm == old(deleteConfirm)
      ensures Gauge.Truthy(old(deleteConfirm)) && ok ==>
        && deleteConfirm.None? && vehicles == Transform(refreshed)
        && selection == AfterDelete(old(selection), old(deleteConfirm).value, vehicles)
      ensures newVehicle == old(newVehicle) && kmInput == old(kmInput)
      ensures showKmDialog == old(showKmDialog) && showAddDialog == old(showAddDialog)
    {
      if !Gauge.Truthy(deleteConfirm) || !ok {
        return;
      }
      var wasSelected := deleteConfirm == selection.selected;
      var deleted := deleteConfirm.value;
      deleteConfirm := None;
      vehicles := Transform(refreshed);
      if wasSelected {
        if |vehicles| > 0 {
          selection := Selection(Some(vehicles[0].id), KmOf(vehicles[0]));
        } else {
          selection := Selection(None, 0);
        }
      }
    }

    /**
     * `handleAddVehicle`: nothing without a name; otherwise the payload is sent. On success the
     * dialog closes, the inputs empty, the list is fetched and the new id selected; otherwise
     * an alert is raised and nothing changes.
     */
    method HandleAddVehicle(outcome: AddOutcome) returns (sent: Option<FormFields.VehiclePayload>, alert: Option<string>)
      modifies this
      ensures sent == FormFields.VehiclePayloadOf(old(newVehicle))
      ensures sent.Some? && outcome.Added? ==>
        && !showAddDialog && newVehicle == FormFields.EmptyVehicleFields && alert.None?
        && vehicles == Transform(outcome.refreshed)
        && selection == AfterAdd(old(selection), vehicles, outcome.lastRowId)
      ensures sent.None? || !outcome.Added? ==>
        && showAddDialog == old(showAddDialog) && newVehicle == old(newVehicle)
        && vehicles == old(vehicles) && selection == old(selection)
      ensures sent.None? ==> alert.None?
      ensures sent.Some? && outcome.Refused? ==> alert == Some("Failed to add vehicle: "
        + (if Gauge.Present(outcome.error) then outcome.error.value else "Unknown error"))
      ensures sent.Some? && outcome.AddThrew? ==> alert == Some("Error adding vehicle: " + outcome.description)
      ensures deleteConfirm == old(deleteConfirm) && kmInput == old(kmInput) && showKmDialog == old(showKmDialog)
    {
      sent := FormFields.VehiclePayloadOf(newVehicle);
      alert := None;
      if sent.None? {
        return;
      }
      match outcome {
        case Added(lastRowId, refreshed) =>
          showAddDialog := false;
          newVehicle := FormFields.EmptyVehicleFields;
          FetchVehicles(refreshed);
          if Gauge.Truthy(lastRowId) {
            selection := selection.(selected := lastRowId);
          }
        case Refused(error) =>
          alert := Some("Failed to add vehicle: " + (if Gauge.Present(error) then error.value else "Unknown error"));
        case AddThrew(description) =>
          alert := Some("Error adding vehicle: " + description);
      }
    }

    /**
     * `handleUpdateKm`: nothing without a selection and input; otherwise the reading is sent,
     * and an OK response closes the dialog, empties the input and fetches the list again.
     */
    method HandleUpdateKm(ok: bool, refreshed: Option<seq<PickerRow>>) returns (sent: Option<(int, Option<int>)>)
      modifies this
      ensures sent == KmUpdate(old(selection).selected, old(kmInput))
      ensures sent.Some? && ok ==>
        && !showKmDialog && kmInput == "" && vehicles == Transform(refreshed)
        && selection == Refresh(old(selection), vehicles)
      ensures sent.None? || !ok ==>
        && showKmDialog == old(showKmDialog) && kmInput == old(kmInput)
        && vehicles == old(vehicles) && selection == old(selection)
      ensures deleteConfirm == old(deleteConfirm) && newVehicle == old(newVehicle) && showAddDialog == old(showAddDialog)
    {
      sent := KmUpdate(selection.selected, kmInput);
      if sent.Some? && ok {
        showKmDialog := false;
        kmInput := "";
        FetchVehicles(refreshed);
      }
    }
  }
}
