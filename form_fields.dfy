/**
 * The conversions the client's forms share between text inputs and request payloads: `s || null`,
 * `s ? parseInt(s) : null`, `n?.toString() || ''`, the checkbox toggle of a list of ids, and the
 * vehicle payload built identically by client/src/components/vehicles/VehicleForm.tsx and
 * client/src/components/VehicleSelector.tsx. A payload number is `None` for `null` and for a
 * `NaN`, which `JSON.stringify` also sends as `null`.
 */
module FormFields {
  import opened Wrappers
  import JsText

  // ---- Text to payload ----

  /** `s || null`: the empty string becomes `null`. */
  function OrNull(s: string): (r: Option<string>)
    ensures r.None? <==> s == ""
    ensures r.Some? ==> r.value == s
  {
    if s == "" then None else Some(s)
  }

  /** `s ? parseInt(s) : null`. */
  function IntOrNull(s: string): (r: Option<int>)
    ensures s == "" ==> r.None?
    ensures s != "" ==> r == JsText.ParseInt(s)
  {
    if s == "" then None else JsText.ParseInt(s)
  }

  /** `s ? parseInt(s) : 0`. */
  function IntOrZero(s: string): (r: Option<int>)
    ensures s == "" ==> r == Some(0)
    ensures s != "" ==> r == JsText.ParseInt(s)
  {
    if s == "" then Some(0) else JsText.ParseInt(s)
  }

  /** `parseInt(s) || null`: both 0 and `NaN` become `null`. */
  function NonZeroIntOrNull(s: string): (r: Option<int>)
    ensures r.Some? ==> r.value != 0 && r == JsText.ParseInt(s)
    ensures r.None? ==> JsText.ParseInt(s) in {None, Some(0)}
  {
    var n := JsText.ParseInt(s);
    if n.Some? && n.value != 0 then n else None
  }

  // ---- Stored value to text ----

  /** `n?.toString() || ''`: a number's decimal text (0 included), `''` for `null`. */
  function NumberText(n: Option<int>): string {
    if n.Some? then JsText.IntToString(n.value) else ""
  }

  /** `s || ''`. */
  function Text(s: Option<string>): string {
    if s.Some? then s.value else ""
  }

  /**
   * A number shown in a form and submitted unchanged comes back as it was, 0 included (the
   * text "0" is not empty); with `parseInt(s) || null` a 0 is lost. A `null` number gives `''`,
   * which `parseInt` reads as `NaN` and JSON sends as `null`.
   */
  lemma NumberTextRoundTrip(n: Option<int>)
    ensures IntOrNull(NumberText(n)) == n
    ensures JsText.ParseInt(NumberText(n)) == n
    ensures NonZeroIntOrNull(NumberText(n)) == (if n == Some(0) then None else n)
  {
    if n.Some? {
      JsText.ParseIntOfIntToString(n.value);
      assert JsText.IntToString(n.value) != "" by {
        assert |JsText.NatToString(if n.value < 0 then -n.value else n.value)| > 0;
      }
    } else {
      assert JsText.TrimStart("") == "";
    }
  }

  /** Text shown and submitted unchanged comes back as it was, except that `''` becomes `null`. */
  lemma TextRoundTrip(s: Option<string>)
    ensures OrNull(Text(s)) == (if s == Some("") then None else s)
  {
  }

  // ---- The checkbox list ----

  /** `s.filter(i => i !== x)`. */
  function Without(s: seq<int>, x: int): (r: seq<int>)
    ensures x !in r
    ensures forall y | y != x :: y in r <==> y in s
    ensures |r| <= |s|
  {
    if s == [] then []
    else if s[0] == x then Without(s[1..], x)
    else [s[0]] + Without(s[1..], x)
  }

  predicate NoDuplicates(s: seq<int>) {
    forall i, j | 0 <= i < j < |s| :: s[i] != s[j]
  }

  /** `prev.includes(id) ? prev.filter(i => i !== id) : [...prev, id]`. */
  function Toggle(prev: seq<int>, id: int): seq<int> {
    if id in prev then Without(prev, id) else prev + [id]
  }

  /**
   * Toggling flips exactly `id`'s membership: an absent id is appended at the end, a present one
   * removed; no duplicate is ever created, and toggling an absent id twice restores the list.
   */
  lemma ToggleFlips(prev: seq<int>, id: int, other: int)
    ensures id in Toggle(prev, id) <==> id !in prev
    ensures other != id ==> (other in Toggle(prev, id) <==> other in prev)
    ensures id !in prev ==> Toggle(prev, id) == prev + [id]
    ensures id !in prev ==> Toggle(Toggle(prev, id), id) == prev
    ensures NoDuplicates(prev) ==> NoDuplicates(Toggle(prev, id))
  {
    if id !in prev {
      WithoutAbsent(prev, id);
      WithoutLast(prev, id);
    }
    if NoDuplicates(prev) && id in prev {
      WithoutKeepsDistinct(prev, id);
    }
  }

  lemma {:induction false} WithoutAbsent(s: seq<int>, x: int)
    requires x !in s
    ensures Without(s, x) == s
  {
    if s != [] {
      WithoutAbsent(s[1..], x);
    }
  }

  lemma {:induction false} WithoutLast(s: seq<int>, x: int)
    requires x !in s
    ensures Without(s + [x], x) == s
  {
    if s == [] {
      assert s + [x] == [x];
    } else {
      assert (s + [x])[1..] == s[1..] + [x];
      WithoutLast(s[1..], x);
    }
  }

  lemma {:induction false} WithoutKeepsDistinct(s: seq<int>, x: int)
    requires NoDuplicates(s)
    ensures NoDuplicates(Without(s, x))
  {
    if s != [] {
      WithoutKeepsDistinct(s[1..], x);
      if s[0] != x {
        var rest := Without(s[1..], x);
        assert s[0] !in s[1..];
        assert s[0] !in rest;
      }
    }
  }

  // ---- The vehicle payload ----

  /** The vehicle inputs, as text. */
  datatype VehicleFields = VehicleFields(
    nama: string, tipe: string, plat: string, tahun: string, bulanPajak: string, currentKm: string)

  datatype VehiclePayload = VehiclePayload(
    nama: string, tipe: Option<string>, plat: Option<string>, tahun: Option<int>,
    bulanPajak: Option<int>, currentKm: Option<int>)

  const EmptyVehicleFields := VehicleFields("", "", "", "", "", "")

  /**
   * The payload both vehicle forms send: nothing without a name; optional texts `|| null`,
   * year and tax month `? parseInt : null`, and the odometer `? parseInt : 0`.
   */
  function VehiclePayloadOf(f: VehicleFields): (r: Option<VehiclePayload>)
    ensures r.None? <==> f.nama == ""
  {
    if f.nama == "" then None
    else Some(VehiclePayload(f.nama, OrNull(f.tipe), OrNull(f.plat), IntOrNull(f.tahun),
                             IntOrNull(f.bulanPajak), IntOrZero(f.currentKm)))
  }

  /** The tax-month choices: `String(i + 1)` for the twelve month names. */
  function BulanPajakChoices(): (c: seq<string>)
    ensures |c| == 12
  {
    seq(12, i requires 0 <= i < 12 => JsText.IntToString(i + 1))
  }

  /** Whatever month is chosen, the payload carries a month number 1..12, the chosen one. */
  lemma BulanPajakChoicesAreMonths(f: VehicleFields, i: int)
    requires 0 <= i < 12 && f.nama != "" && f.bulanPajak == BulanPajakChoices()[i]
    ensures VehiclePayloadOf(f).value.bulanPajak == Some(i + 1)
  {
    NumberTextRoundTrip(Some(i + 1));
  }
}
