/**
 * The three forms that create or edit a service item: client/src/components/services/ServiceItemForm.tsx,
 * client/src/components/AddServiceForm.tsx and client/src/components/EditServiceForm.tsx. Each keeps
 * the item's fields as text and builds the same payload shape from them; they differ in how the
 * interval value is read (`parseInt(v) || null` against plain `parseInt(v)`) and in when the
 * inputs are reset. The request is a parameter: whether it succeeded.
 */
module ItemForms {
  import opened Wrappers
  import JsText
  import FormFields
  import opened Types

  /** The inputs, as the forms hold them. */
  datatype ItemFields = ItemFields(
    nama: string, intervalType: IntervalType, intervalValue: string, lastKm: string, lastDate: string)

  /** The empty form: no name, type 'KM', every number and the date empty. */
  const DefaultFields := ItemFields("", KM, "", "", "")

  /** What is sent. There is no field for the time interval of a `WHICHEVER_FIRST` item. */
  datatype ItemPayload = ItemPayload(
    nama: string, intervalType: IntervalType, intervalValue: Option<int>, lastKm: Option<int>,
    lastDate: Option<string>)

  /** How the interval value text becomes a number. */
  datatype IntervalRule =
    /** `parseInt(v) || null` (ServiceItemForm): 0 and `NaN` both become `null`. */
    | ParseOrNull
    /** `parseInt(v)` (AddServiceForm, EditServiceForm): `NaN` is sent as `null`, 0 as 0. */
    | ParseOnly

  /** The payload: no interval for 'NONE', `lastKm ? parseInt : null`, `lastDate || null`. */
  function PayloadOf(f: ItemFields, rule: IntervalRule): ItemPayload {
    var interval :=
      if f.intervalType == NONE then None
      else if rule == ParseOrNull then FormFields.NonZeroIntOrNull(f.intervalValue)
      else JsText.ParseInt(f.intervalValue);
    ItemPayload(f.nama, f.intervalType, interval, FormFields.IntOrNull(f.lastKm), FormFields.OrNull(f.lastDate))
  }

  /**
   * The fields a stored item is shown with (ServiceItemForm's initial state, EditServiceForm's
   * load effect): a `null` type shows as 'KM', `null` numbers and dates as ''.
   */
  function LoadFields(item: ServiceItem): ItemFields {
    ItemFields(item.nama, if item.intervalType.Some? then item.intervalType.value else KM,
               FormFields.NumberText(item.intervalValue), FormFields.NumberText(item.lastKm),
               FormFields.Text(item.lastDate))
  }

  /**
   * Numbers typed into the form: an interval of `k` is sent as `k` unless the type is 'NONE'
   * (then `null`) or it is 0 under `parseInt(v) || null`; an empty interval, odometer or date
   * goes out as `null`, and a typed odometer reading as itself.
   */
  lemma PayloadOfTyped(f: ItemFields, rule: IntervalRule, k: int, km: int)
    requires f.intervalValue == JsText.IntToString(k) && f.lastKm == JsText.IntToString(km)
    ensures var p := PayloadOf(f, rule);
      && p.nama == f.nama && p.intervalType == f.intervalType
      && (f.intervalType == NONE ==> p.intervalValue.None?)
      && (f.intervalType != NONE && rule == ParseOnly ==> p.intervalValue == Some(k))
      && (f.intervalType != NONE && rule == ParseOrNull ==> p.intervalValue == (if k == 0 then None else Some(k)))
      && p.lastKm == Some(km)
      && (p.lastDate.None? <==> f.lastDate == "")
  {
    FormFields.NumberTextRoundTrip(Some(k));
    FormFields.NumberTextRoundTrip(Some(km));
  }

  /** Submitting the empty form sends `null` for the interval, the odometer and the date. */
  lemma PayloadOfEmpty(rule: IntervalRule, nama: string, t: IntervalType)
    ensures PayloadOf(DefaultFields.(nama := nama, intervalType := t), rule)
         == ItemPayload(nama, t, None, None, None)
  {
    FormFields.NumberTextRoundTrip(None);
  }

  /**
   * Loading an item and saving it unchanged with `parseInt(v)` sends back what was loaded, an
   * odometer of 0 included, when its type is set and not 'NONE' and its date is not ''. With
   * `parseInt(v) || null` the same holds except that an interval of 0 comes back `null`.
   */
  lemma LoadSubmitRoundTrip(item: ServiceItem)
    requires item.intervalType.Some? && item.intervalType.value != NONE
    requires item.lastDate != Some("")
    ensures PayloadOf(LoadFields(item), ParseOnly)
         == ItemPayload(item.nama, item.intervalType.value, item.intervalValue, item.lastKm, item.lastDate)
    ensures PayloadOf(LoadFields(item), ParseOrNull)
         == ItemPayload(item.nama, item.intervalType.value,
                        if item.intervalValue == Some(0) then None else item.intervalValue,
                        item.lastKm, item.lastDate)
  {
    FormFields.NumberTextRoundTrip(item.intervalValue);
    FormFields.NumberTextRoundTrip(item.lastKm);
    FormFields.TextRoundTrip(item.lastDate);
  }

  /**
   * Where the round trip does not hold: an item with no type is saved as 'KM', a 'NONE' item
   * loses its interval value, and an empty date is saved as `null`.
   */
  lemma LoadSubmitChanges(item: ServiceItem, rule: IntervalRule)
    ensures item.intervalType.None? ==> PayloadOf(LoadFields(item), rule).intervalType == KM
    ensures item.intervalType == Some(NONE) ==> PayloadOf(LoadFields(item), rule).intervalValue.None?
    ensures item.lastDate == Some("") ==> PayloadOf(LoadFields(item), rule).lastDate.None?
  {
  }

  /** ServiceItemForm's state; `item` is present when it edits. */
  class ServiceItemForm {
    const isEdit: bool
    var nama: string
    var intervalType: IntervalType
    var intervalValue: string
    var lastKm: string
    var lastDate: string
    var loading: bool

    function Fields(): ItemFields
      reads this
    {
      ItemFields(nama, intervalType, intervalValue, lastKm, lastDate)
    }

    /** The initial state: the item's fields when editing, the empty form when adding. */
    constructor(item: Option<ServiceItem>)
      ensures isEdit <==> item.Some?
      ensures Fields() == (if item.Some? then LoadFields(item.value) else DefaultFields)
      ensures !loading
    {
      isEdit := item.Some?;
      var f := if item.Some? then LoadFields(item.value) else DefaultFields;
      nama := f.nama;
      intervalType := f.intervalType;
      intervalValue := f.intervalValue;
      lastKm := f.lastKm;
      lastDate := f.lastDate;
      loading := false;
    }

    /**
     * `handleSubmit`: nothing without a name; otherwise the payload with `parseInt(v) || null`,
     * and after a successful add (not an edit) the form is emptied.
     */
    method HandleSubmit(succeeded: bool) returns (sent: Option<ItemPayload>)
      modifies this
      ensures old(nama) == "" ==> sent.None? && Fields() == old(Fields()) && loading == old(loading)
      ensures old(nama) != "" ==> sent == Some(PayloadOf(old(Fields()), ParseOrNull)) && !loading
      ensures old(nama) != "" ==> Fields() == (if succeeded && !isEdit then DefaultFields else old(Fields()))
    {
      if nama == "" {
        return None;
      }
      loading := true;
      sent := Some(PayloadOf(Fields(), ParseOrNull));
      if succeeded && !isEdit {
        nama := "";
        intervalType := KM;
        intervalValue := "";
        lastKm := "";
        lastDate := "";
      }
      loading := false;
    }
  }

  /** AddServiceForm's state; `kendaraanId` is its prop. */
  class AddServiceForm {
    const kendaraanId: int
    var nama: string
    var intervalType: IntervalType
    var intervalValue: string
    var lastKm: string
    var lastDate: string

    function Fields(): ItemFields
      reads this
    {
      ItemFields(nama, intervalType, intervalValue, lastKm, lastDate)
    }

    /** The interval input is shown unless the type is 'NONE'. */
    predicate ShowIntervalValue()
      reads this
    {
      intervalType != NONE
    }

    /** Save is disabled while the name is empty. */
    predicate SaveEnabled()
      reads this
    {
      nama != ""
    }

    constructor(kendaraanId: int)
      ensures this.kendaraanId == kendaraanId && Fields() == DefaultFields
      ensures !SaveEnabled() && ShowIntervalValue()
    {
      this.kendaraanId := kendaraanId;
      nama := "";
      intervalType := KM;
      intervalValue := "";
      lastKm := "";
      lastDate := "";
    }

    /**
     * `handleSubmit` (run from the Save button): the vehicle id and the payload with plain
     * `parseInt(v)` are sent; only an OK response empties the form.
     */
    method HandleSubmit(ok: bool) returns (sentFor: int, sent: ItemPayload)
      modifies this
      ensures sentFor == kendaraanId && sent == PayloadOf(old(Fields()), ParseOnly)
      ensures Fields() == (if ok then DefaultFields else old(Fields()))
    {
      sentFor, sent := kendaraanId, PayloadOf(Fields(), ParseOnly);
      if ok {
        nama := "";
        intervalType := KM;
        intervalValue := "";
        lastKm := "";
        lastDate := "";
      }
    }
  }

  /** EditServiceForm's state. */
  class EditServiceForm {
    var nama: string
    var intervalType: IntervalType
    var intervalValue: string
    var lastKm: string
    var lastDate: string

    function Fields(): ItemFields
      reads this
    {
      ItemFields(nama, intervalType, intervalValue, lastKm, lastDate)
    }

    predicate SaveEnabled()
      reads this
    {
      nama != ""
    }

    constructor()
      ensures Fields() == DefaultFields
    {
      nama := "";
      intervalType := KM;
      intervalValue := "";
      lastKm := "";
      lastDate := "";
    }

    /** The effect that runs when `item` is given: the five fields are loaded from it. */
    method Load(item: ServiceItem)
      modifies this
      ensures Fields() == LoadFields(item)
    {
      nama := item.nama;
      intervalType := if item.intervalType.Some? then item.intervalType.value else KM;
      intervalValue := FormFields.NumberText(item.intervalValue);
      lastKm := FormFields.NumberText(item.lastKm);
      lastDate := FormFields.Text(item.lastDate);
    }

    /**
     * `handleSubmit`: the PUT to the item's id with the payload; the inputs are never reset, and
     * the dialog closes (`onSuccess`, `onClose`) only on an OK response.
     */
    method HandleSubmit(item: ServiceItem, ok: bool) returns (sentTo: int, sent: ItemPayload, closed: bool)
      ensures sentTo == item.id && sent == PayloadOf(Fields(), ParseOnly)
      ensures closed <==> ok
    {
      sentTo, sent, closed := item.id, PayloadOf(Fields(), ParseOnly), ok;
    }
  }

  /**
   * Opening an existing item and saving it unchanged sends its own values back (for an item
   * whose type is set and not 'NONE' and whose date is not '').
   */
  method EditUnchanged(item: ServiceItem) returns (sent: ItemPayload)
    requires item.intervalType.Some? && item.intervalType.value != NONE
    requires item.lastDate != Some("")
    ensures sent == ItemPayload(item.nama, item.intervalType.value, item.intervalValue, item.lastKm, item.lastDate)
  {
    var form := new EditServiceForm();
    form.Load(item);
    var _, p, _ := form.HandleSubmit(item, true);
    LoadSubmitRoundTrip(item);
    sent := p;
  }
}
