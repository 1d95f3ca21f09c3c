# Vehicle maintenance and tax reminders, modelled in Dafny

The application keeps a garage of vehicles. For each vehicle it tracks service items: oil, tyres, filters and so on. Each item falls due after a number of kilometres, days, months or years, or by "whichever first". The application also records service history and reminds the owner of the annual and five-yearly vehicle tax.

It has three parts:
- a Cloudflare Worker API on D1, which covers validation, error responses and password and session encoding;
- a React client, where the "due" engine, the forms and the history views live;
- a Python script that removes an image's plain background.

This project models the logic of those parts and proves what it promises.

The modules and what each one covers:
- `Gauge`, `Calendar`, `ServiceItemList`, `DashboardPage`, `ServiceList` and `EngineCompare` cover the service-interval engine. It exists in three diverging copies:
  - the item list, with 70/100 status thresholds;
  - the dashboard's reduced copy, with its overdue and due-soon buckets;
  - the older service list, with 500 km / 7 day alerts and 50/80 colours.

  Each copy is its own function. `EngineCompare` proves where the copies agree and names the inputs where they differ.
- `TaxReminder` covers the annual and five-yearly tax months, the months left until each, and the badge shown for it.
- `Validation` and `ErrorResponses` cover the server's email, password and odometer validators and its error responses.
- `Types` and `JsonIds` cover the row-to-record transformers and the JSON array of item ids.
- `HistoryPage`, `Hooks` and `StableSort` cover:
  - the month grouping and spending totals of the history page;
  - the fetch guards and newest-first sorts of the data hooks.

  `Array.prototype.sort` is modelled as an in-place stable sort on an array.
- `FormFields`, `HistoryForms`, `ItemForms`, `VehicleForms`, `PasswordChange` and `HeaderInitials` cover the client's forms and the header avatar:
  - text-to-payload conversions;
  - submit gates;
  - resets;
  - the vehicle picker's selection state;
  - the password-change gate;
  - the avatar initials.

  A component's state is a class whose methods update its fields.
- `Auth` covers the hex codec of the stored `saltHex:hashHex` password hash. With PBKDF2 as a deterministic function parameter, it proves that `verifyPassword` accepts what `hashPassword` produced. It also covers session ids and expiry.
- `RemoveBg` covers the background remover. This includes the `r,g,b` parser and the colour helpers. It also includes the breadth-first flood fill over a two-dimensional pixel array. The fill is proved to clear exactly the pixels joined to the border by a 4-neighbour path of pixels within the tolerance.
- `JsText` and `Wrappers` hold the JavaScript string and number semantics the client relies on, plus `Option`/`Result`.

Conventions across the model:
- JavaScript `null`/`undefined` are `None`.
- A `NaN` from `parseInt` is `None`. `JSON.stringify` sends it as `null`.
- A `NaN` progress from an unparsable date is `Gauge.NaN`.
- "Now", the odometer reading and every HTTP response are parameters.

## Model

| member | source | states |
|---|---|---|
| Auth.HexChar | src/auth.ts:29 | the digit written for 0..15 is a lowercase hex digit that base-16 `parseInt` reads back as the same value |
| Auth.ByteHexDigits | src/auth.ts:28-30 | each byte is written as exactly two hex digits, high nibble first (`padStart(2, '0')` supplies the leading zero) |
| Auth.HexEncodeShape | src/auth.ts:28-33 | the encoding has two characters per byte, all lowercase hex, byte i at positions 2i and 2i+1 |
| Auth.DecodeChunks | src/auth.ts:40 | decoding yields one byte per matched chunk |
| Auth.ParseByteHex | src/auth.ts:40 | `parseInt(pair, 16)` of a byte's two digits is that byte |
| Auth.MatchPairsOfHex | src/auth.ts:40 | `match(/.{1,2}/g)` on an encoding splits it back into each byte's two digits |
| Auth.HexRoundTrip | src/auth.ts:28-30 | decoding the hex of any byte string gives the byte string back, so the salt survives storage (also src/auth.ts:40) |
| Auth.HexEncodeInjective | src/auth.ts:28-33 | different byte strings never share an encoding |
| Auth.HashFormat | src/auth.ts:9-36 | a stored hash is 32 hex digits of salt, one colon, 64 hex digits of key |
| Auth.VerifyPassword | src/auth.ts:38-64 | the check throws exactly when the salt half matches no pairs (`null.map`) |
| Auth.SplitStored | src/auth.ts:35 | splitting a stored hash at ':' gives back the salt and key encodings (also src/auth.ts:39) |
| Auth.VerifyHashed | src/auth.ts:9-64 | a password verifies against its own hash, and another password verifies exactly when PBKDF2 gives it the same key under the stored salt |
| Auth.VerifyEmptySalt | src/auth.ts:39-40 | a stored value with an empty salt half makes `verifyPassword` throw |
| Auth.SessionIdShape | src/auth.ts:67-73 | a session id is 64 lowercase hex digits and distinct random bytes give distinct ids |
| Auth.SessionExpiry | src/auth.ts:77-78 | the expiry is exactly 30 days of milliseconds after now, 30 calendar days later |
| Calendar.DaysInMonth | client/src/components/services/ServiceItemList.tsx:75 | a month has 28 to 31 days, and 29 exactly for February of a leap year (the calendar `setMonth` and `new Date` count in) |
| Calendar.MarchFirstStep | client/src/components/services/ServiceItemList.tsx:33-35 | consecutive day numbers of 1 March are 365 or 366 apart, 366 exactly across a 29 February |
| Calendar.DayAfterMonthEnd | client/src/components/services/ServiceItemList.tsx:74 | the day after a month's last day is the next month's first: day numbers run without gaps |
| Calendar.AddMonthsTwelve | client/src/components/services/ServiceItemList.tsx:75-76 | `setMonth(m + 12n)` lands on the same day as `setFullYear(y + n)`, and moving by nothing stays put |
| Calendar.FloorDaysFromMidnight | client/src/components/services/ServiceItemList.tsx:35 | the floor of whole days from a midnight to now is today's day number minus that day's, in either direction |
| Calendar.ParseIsoDate | client/src/components/services/ServiceItemList.tsx:33 | a date string is accepted only as a real calendar date of years 0..9999 |
| Calendar.ParseFormatIsoDate | client/src/components/services/ServiceItemList.tsx:33 | every valid date written `YYYY-MM-DD` reads back as itself (also client/src/components/services/ServiceItemList.tsx:77) |
| Calendar.FormattedShape | client/src/components/services/ServiceItemList.tsx:77 | the written date has digits at the year, month and day positions and dashes between |
| Calendar.FormattedFields | client/src/components/services/ServiceItemList.tsx:77 | the written year, month and day digits hold the date's own values |
| Calendar.PaddedValue | client/src/components/services/ServiceItemList.tsx:77 | a zero-padded number that fits the width reads back as itself |
| Gauge.Max | client/src/components/services/ServiceItemList.tsx:60 | `Math.max` is NaN iff an argument is, else the larger argument |
| Gauge.Min | client/src/components/services/ServiceItemList.tsx:30 | `Math.min` is NaN iff an argument is, else the smaller argument |
| Gauge.Clamp | client/src/components/services/ServiceItemList.tsx:30 | a finite value lands in [0, 100], unchanged when already inside, 0 below and 100 above |
| Gauge.ClampMonotone | client/src/components/services/ServiceItemList.tsx:30 | clamping never reverses order |
| Gauge.KmProgress | client/src/components/services/ServiceItemList.tsx:29-30 | km progress is always a number in [0, 100] |
| Gauge.KmProgressShape | client/src/components/services/ServiceItemList.tsx:29-30 | km progress is 0 up to the last service, 100 from one interval later, the travelled share in between, and rises with the odometer |
| Gauge.IntervalInDays | client/src/components/services/ServiceItemList.tsx:36-38 | the interval in days is the value, 30 times it for months, 365 times it for years, and never 0 for a non-zero value |
| Gauge.DaysSince | client/src/components/services/ServiceItemList.tsx:33-35 | the elapsed days are a number exactly when the date parses |
| Gauge.DaysSinceIsDayDifference | client/src/components/services/ServiceItemList.tsx:35 | the elapsed whole days are today's day number minus the service day's |
| Gauge.TimeProgress | client/src/components/services/ServiceItemList.tsx:33-39 | time progress is NaN exactly for an unparsable date, otherwise in [0, 100] |
| Gauge.TimeProgressShape | client/src/components/services/ServiceItemList.tsx:33-39 | time progress is 0 up to the service day, 100 once a whole interval of days has passed, the elapsed share in between |
| Gauge.DueDay | client/src/components/services/ServiceItemList.tsx:72-76 | a due date exists exactly when the last date parses |
| Gauge.DueDayUnits | client/src/components/services/ServiceItemList.tsx:74-76 | a due date n years on equals one 12n months on, and n days on is the service day plus n |
| ServiceItemList.CalculateProgress | client/src/components/services/ServiceItemList.tsx:26-63 | a finite progress lies in [0, 100] |
| ServiceItemList.ProgressNaNOnlyFromBadDate | client/src/components/services/ServiceItemList.tsx:26-63 | progress is NaN exactly when the item reads a date that does not parse; a missing or `NONE` type gives 0 |
| ServiceItemList.KmItemProgress | client/src/components/services/ServiceItemList.tsx:28-31 | a km item with `lastKm` set (0 included) is at 0 at the last service, 100 from one interval on, the travelled share between, and never falls as km rise |
| ServiceItemList.TimeItemProgress | client/src/components/services/ServiceItemList.tsx:32-40 | a day/month/year item is at elapsed days over value, 30·value or 365·value days, clamped to [0, 100] |
| ServiceItemList.WhicheverFirstProgress | client/src/components/services/ServiceItemList.tsx:41-61 | a whichever-first item is at the larger of its km and time parts, a missing part counts 0, and neither gives 0 |
| ServiceItemList.GetDueInfo | client/src/components/services/ServiceItemList.tsx:65-100 | 'Tidak ada interval' exactly for a missing or `NONE` type; a throw exactly when the date is read and is not a date; a DAY/MONTH/YEAR item with a date and an interval is due one interval after its date; a target names one or two parts |
| ServiceItemList.DueInfoTargets | client/src/components/services/ServiceItemList.tsx:67-69 | km and whichever-first items are both due at `lastKm + intervalValue`, named first (also client/src/components/services/ServiceItemList.tsx:82-85) |
| ServiceItemList.WhicheverFirstDueInfo | client/src/components/services/ServiceItemList.tsx:79-98 | neither part gives '-', both give the km then the date joined by 'atau', and the call throws exactly for an unparsable date |
| ServiceItemList.GetIntervalLabel | client/src/components/services/ServiceItemList.tsx:102-130 | the label is 'Tanpa interval' exactly for a missing or `NONE` type; a KM item reads 'Setiap <value or 0> km', a DAY/MONTH/YEAR item 'Setiap <value> hari/bulan/tahun' with the raw value, and a 'whichever first' type without an item 'Mana duluan' |
| ServiceItemList.WhicheverFirstLabel | client/src/components/services/ServiceItemList.tsx:104-121 | neither sub-interval gives 'Mana duluan'; both give the km part then the time part |
| ServiceItemList.StatusOf | client/src/components/services/ServiceItemList.tsx:180-187 | destructive iff progress ≥ 100, warning iff 70 ≤ progress < 100, success otherwise |
| ServiceItemList.BadgesMatchStatus | client/src/components/services/ServiceItemList.tsx:196-197 | the 'Terlambat' and 'Segera' badges show exactly for the destructive and warning statuses, never both |
| DashboardPage.CalculateProgress | client/src/components/dashboard/DashboardPage.tsx:14-30 | a finite progress lies in [0, 100], and NaN comes exactly from a day, month or year item with a truthy interval and a present but unparsable date |
| DashboardPage.DueSoonIn | client/src/components/dashboard/DashboardPage.tsx:71-77 | each due-soon entry of a vehicle carries its own item's progress, which lies in [70, 100) |
| DashboardPage.DueSoonOf | client/src/components/dashboard/DashboardPage.tsx:70-79 | every collected due-soon entry's progress lies in [70, 100) and is its item's progress |
| DashboardPage.ScoreVehicle | client/src/components/dashboard/DashboardPage.tsx:71-78 | the inner loop for one vehicle appends to the two lists exactly that vehicle's overdue items and its due-soon items with their progress, in item order |
| DashboardPage.Bucket | client/src/components/dashboard/DashboardPage.tsx:67-81 | the loops fill the overdue list and the due-soon list item by item, and the due-soon list is then sorted by descending progress |
| DashboardPage.OverdueMembership | client/src/components/dashboard/DashboardPage.tsx:70-74 | an item of a vehicle is listed overdue exactly when it is one of that vehicle's items and its progress is ≥ 100 |
| DashboardPage.OverdueInMembership | client/src/components/dashboard/DashboardPage.tsx:71-74 | within one vehicle, an item is listed overdue exactly when it is that vehicle's and its progress is ≥ 100 |
| DashboardPage.DueSoonMembership | client/src/components/dashboard/DashboardPage.tsx:70-77 | an item of a vehicle is listed due soon exactly when it is one of that vehicle's items and 70 ≤ progress < 100 |
| DashboardPage.DueSoonInMembership | client/src/components/dashboard/DashboardPage.tsx:71-77 | within one vehicle, an item is listed due soon exactly when it is that vehicle's and 70 ≤ progress < 100 |
| DashboardPage.BucketsDisjoint | client/src/components/dashboard/DashboardPage.tsx:73-77 | no item is both overdue and due soon |
| DashboardPage.AttentionCount | client/src/components/dashboard/DashboardPage.tsx:142 | the attention figure counts the items with progress ≥ 70 and never exceeds the item count |
| DashboardPage.BucketsCountIn | client/src/components/dashboard/DashboardPage.tsx:71-77 | one vehicle adds as many entries as it has items at ≥ 70, at most one per item |
| DashboardPage.MoreProgressIsStrictWeakOrder | client/src/components/dashboard/DashboardPage.tsx:81 | the comparator `b.progress - a.progress` is a strict weak order on the due-soon entries |
| DashboardPage.DueSoonSorted | client/src/components/dashboard/DashboardPage.tsx:81 | the sorted list is a permutation of the collected entries in non-increasing progress, equal progress keeping loop order |
| DashboardPage.ShownAreMostUrgent | client/src/components/dashboard/DashboardPage.tsx:198 | the three due-soon entries shown have progress at least that of every entry not shown |
| DashboardPage.AttentionCaptionCases | client/src/components/dashboard/DashboardPage.tsx:143-150 | the caption is 'semua aman' exactly when both counts are 0, and otherwise starts with the overdue count when there is one |
| DashboardPage.Recent | client/src/components/dashboard/DashboardPage.tsx:84 | the recent history is the first min(5, n) entries, in order |
| DashboardPage.TotalSpentMatchesHistory | client/src/components/dashboard/DashboardPage.tsx:83 | the dashboard's total (null costs as 0) equals the sum of the history page's month totals |
| DashboardPage.LinkId | client/src/components/dashboard/DashboardPage.tsx:188 | a vehicle link uses its short id when present, otherwise its numeric id, which reads back as the id |
| EngineCompare.DashboardAgreesWithLegacy | client/src/components/dashboard/DashboardPage.tsx:14-30 | the dashboard and the legacy list compute the same progress for every row (also client/src/components/ServiceList.tsx:114-137) |
| EngineCompare.AllAgree | client/src/components/services/ServiceItemList.tsx:26-63 | all three copies agree on every row that is not whichever-first and has no `lastKm` of 0 (also client/src/components/dashboard/DashboardPage.tsx:14-30, client/src/components/ServiceList.tsx:114-137) |
| EngineCompare.ZeroLastKmDiffers | client/src/components/services/ServiceItemList.tsx:28 | a km item serviced at 0 km stays at 0 on the dashboard and the legacy list, while the item list measures from 0 and reaches 100 after one interval (also client/src/components/dashboard/DashboardPage.tsx:16, client/src/components/ServiceList.tsx:117) |
| EngineCompare.WhicheverFirstDiffers | client/src/components/services/ServiceItemList.tsx:41-61 | a whichever-first row is at 0 on the dashboard and the legacy list, and at the larger of its parts on the item list (also client/src/components/dashboard/DashboardPage.tsx:29, client/src/components/ServiceList.tsx:136) |
| EngineCompare.ColourScales | client/src/components/services/ServiceItemList.tsx:180-187 | the 70/100 and 50/80 scales agree below 50, in [70, 80) and from 100, and disagree in [50, 70), [80, 100) and on NaN (also client/src/components/ServiceList.tsx:229) |
| ServiceList.FromRow | client/src/components/ServiceList.tsx:60-68 | the list's item is the shared row conversion with the two time-interval fields dropped |
| ServiceList.CalculateProgress | client/src/components/ServiceList.tsx:114-137 | a finite progress lies in [0, 100], and NaN comes exactly from a day, month or year item with a truthy interval and a present but unparsable date |
| ServiceList.ColourOf | client/src/components/ServiceList.tsx:229 | success iff progress < 50, warning iff 50 ≤ progress < 80, error iff progress ≥ 80 or NaN |
| ServiceList.GetDueInfo | client/src/components/ServiceList.tsx:139-159 | 'No interval set' exactly for a missing or `NONE` type, a km item is due at `lastKm + intervalValue`, and the text throws exactly for an unparsable date |
| ServiceList.LastInfoCases | client/src/components/ServiceList.tsx:161-173 | 'No service recorded' exactly when there is no date and `lastKm` is falsy; otherwise the date comes before the km |
| ServiceList.LastInfoThrows | client/src/components/ServiceList.tsx:164-165 | an unparsable date makes the text throw |
| ServiceList.KmAlertCases | client/src/components/ServiceList.tsx:81-88 | with remaining = `lastKm + interval − currentKm`: 1..500 gives a 'remaining' entry, ≤ 0 'OVERDUE', more than 500 nothing |
| ServiceList.TimeAlertCases | client/src/components/ServiceList.tsx:90-105 | the floored days left are the due day minus today (one less once today has begun): 1..7 gives a 'remaining' entry, ≤ 0 'OVERDUE', more than 7 nothing |
| ServiceList.OverdueTheDayBefore | client/src/components/ServiceList.tsx:98-103 | the flooring reports an item 'OVERDUE' throughout the day before its due day, after its first instant |
| ServiceList.TimeAlertBadDate | client/src/components/ServiceList.tsx:98-104 | an unparsable date gives no alert entry |
| ServiceList.AtMostOneEntry | client/src/components/ServiceList.tsx:81-105 | an item adds at most one entry, and only through the km or the time branch |
| ServiceList.AlertTextsCount | client/src/components/ServiceList.tsx:80-106 | the alert has at most one entry per item, and some entry exactly when some item adds one |
| ServiceList.ServiceListState.constructor | client/src/components/ServiceList.tsx:40-43 | the list starts empty with the alert hidden and its message empty |
| ServiceList.ServiceListState.SetItems | client/src/components/ServiceList.tsx:60-69 | the items become the rows' conversions, in order, and the alert is untouched |
| ServiceList.ServiceListState.CheckForDueServices | client/src/components/ServiceList.tsx:77-112 | the alert opens with 'Service due soon: ' and the entries joined by ', ' exactly when there is an entry; otherwise nothing changes |
| ServiceList.ServiceListState.CloseAlert | client/src/components/ServiceList.tsx:218 | closing hides the alert and changes nothing else |
| ServiceList.PushEntries | client/src/components/ServiceList.tsx:80-106 | one pass of the loop appends exactly that item's entry texts |
| TaxReminder.MakeDate | client/src/components/vehicles/VehicleDetailPage.tsx:35 | `new Date(year, month, 1)` keeps a year outside 0..99 and a month 0..11 as given, and always lands on the month index `month mod 12` |
| TaxReminder.MonthsUntil | client/src/components/vehicles/VehicleDetailPage.tsx:27-29 | the month difference is 0 exactly for the same month and non-negative exactly when the target is not before now |
| TaxReminder.MonthsUntilShift | client/src/components/vehicles/VehicleDetailPage.tsx:27-29 | the month difference and moving by k months are inverse to each other |
| TaxReminder.AnnualWindow | client/src/components/vehicles/VehicleDetailPage.tsx:31-36 | the next annual tax month is in the registration month, 0..11 months away (exactly `(bulanPajak − 1 − month) mod 12`), and in this year exactly when that month has not yet passed |
| TaxReminder.CatchUp | client/src/components/vehicles/VehicleDetailPage.tsx:43-45 | a past year is moved forward by whole five-year steps into the five years starting now |
| TaxReminder.FiveYearWindow | client/src/components/vehicles/VehicleDetailPage.tsx:38-52 | the next five-yearly month is in the registration month, a multiple of five years after the vehicle year, 0..59 months away, and no earlier such month is still ahead |
| TaxReminder.FutureVehicleYear | client/src/components/vehicles/VehicleDetailPage.tsx:41-51 | a vehicle year after the current one is used as it is |
| TaxReminder.FormatMonthsLeftTemplate | client/src/components/vehicles/VehicleDetailPage.tsx:54-58 | any non-zero count reads `<n> bulan lagi`, the '1' case included, and is longer than 'bulan ini' |
| TaxReminder.FormatMonthsLeftInjective | client/src/components/vehicles/VehicleDetailPage.tsx:54-58 | different month counts give different texts |
| TaxReminder.ReminderVariant | client/src/components/vehicles/VehicleDetailPage.tsx:60-64 | destructive iff at most one month is left, warning iff more than one and at most the threshold, success otherwise |
| TaxReminder.ReminderVariantMonotone | client/src/components/vehicles/VehicleDetailPage.tsx:60-64 | fewer months left or a higher threshold never makes the badge less urgent |
| TaxReminder.AnnualReminder | client/src/components/vehicles/VehicleDetailPage.tsx:129-130 | the annual badge is shown exactly when `bulanPajak` is set and non-zero |
| TaxReminder.FiveYearReminder | client/src/components/vehicles/VehicleDetailPage.tsx:132-135 | the five-yearly badge is shown exactly when both `bulanPajak` and `tahun` are set and non-zero |
| TaxReminder.ReminderColours | client/src/components/vehicles/VehicleDetailPage.tsx:164-171 | the annual badge (threshold 6) is green 7..11 months ahead and amber 2..6; the five-yearly one (threshold 12) is green from 13 up to 59 months ahead |
| Types.ParseIntervalType | client/src/types/index.ts:32 | a string read as an interval type is that type's own name |
| Types.IntervalTypeNames | client/src/types/index.ts:32 | there are exactly the six interval types, and each name reads back as its type |
| Types.ToVehicle | client/src/types/index.ts:171-183 | a missing odometer becomes 0 and the two paid-until dates are carried over |
| Types.ToVehicleRoundTrip | client/src/types/index.ts:171-183 | converting a vehicle's row gives the vehicle back, and two rows convert alike exactly when they differ only in owner or in a missing versus zero odometer |
| Types.ServiceItemRoundTrip | client/src/types/index.ts:186-198 | the item conversion is a bijection between rows and items |
| Types.ToServiceHistory | client/src/types/index.ts:200-211 | the conversion succeeds exactly when the id list is a JSON array of integers, and then carries those ids |
| Types.ServiceHistoryRoundTrip | client/src/types/index.ts:200-211 | an entry stored with its ids written as JSON reads back unchanged |
| Types.ToServiceHistoryKeepsRow | client/src/types/index.ts:200-211 | every row whose id list is a JSON array of integers converts, and converts back to the same row up to the id text |
| Types.TaxPaymentRoundTrip | client/src/types/index.ts:213-224 | the tax payment conversion is a bijection between rows and payments |
| Validation.IndexOf | src/lib/validation.ts:2 | the position found is the first occurrence of the character, or the length when it does not occur |
| Validation.EmailIsRegex | src/lib/validation.ts:1-4 | the structural reading of the address (non-empty local part, one '@', a dot with text on both sides in the domain, no whitespace) accepts exactly what the anchored regular expression matches |
| Validation.RegexShape | src/lib/validation.ts:2 | any string matching the expression at its '@' and a later '.' is a valid address |
| Validation.ValidEmailOneAt | src/lib/validation.ts:2 | a valid address has exactly one '@' and no whitespace |
| Validation.EmailRejects | src/lib/validation.ts:2 | a whitespace character or a second '@' anywhere makes the address invalid |
| Validation.HasLetter | src/lib/validation.ts:11 | true exactly when some character is an ASCII letter |
| Validation.HasDigit | src/lib/validation.ts:12 | true exactly when some character is a decimal digit |
| Validation.PasswordPolicy | src/lib/validation.ts:6-14 | a password is valid exactly when it has at least eight characters, a letter and a digit; adding characters around a valid password keeps it valid |
| Validation.OdometerRange | src/lib/validation.ts:16-18 | an integer reading is valid exactly when 0 ≤ km < 2000000; a fraction and NaN are never valid |
| ErrorResponses.HandleError | src/lib/errors.ts:3-7 | whatever the error, the answer is 500 with the fixed text 'Internal Server Error' |
| ErrorResponses.HandleValidationError | src/lib/errors.ts:9-11 | the answer is 400 carrying the given message |
| ErrorResponses.HandleUnauthorized | src/lib/errors.ts:13-15 | the answer is 401 with the given message, or 'Unauthorized' when none is given |
| ErrorResponses.HandleNotFound | src/lib/errors.ts:17-19 | the answer is 404 with the given message, or 'Not Found' when none is given |
| ErrorResponses.StatusIdentifiesKind | src/lib/errors.ts:3-19 | each helper's status identifies which helper answered, and two internal errors give identical answers, so nothing of the error leaks |
| Hooks.DateMs | client/src/hooks/useServiceHistory.ts:51 | `new Date(s).getTime()` is a number exactly when the date string parses |
| Hooks.EntryOrderIsStrictWeak | client/src/hooks/useServiceHistory.ts:51 | over entries whose dates parse, the comparator `b − a` on service dates is a strict weak order |
| Hooks.PaymentOrderIsStrictWeak | client/src/hooks/useTaxPayments.ts:48 | over payments whose dates parse, the comparator `b − a` on paid dates is a strict weak order |
| Hooks.AllRows | client/src/hooks/useServiceHistory.ts:50 | `flatMap` puts each response's rows in response order, a missing list adding nothing |
| Hooks.ConvertHistoryRows | client/src/hooks/useServiceHistory.ts:17 | the `map(toServiceHistory)` succeeds exactly when every row converts, and then converts row i into entry i |
| Hooks.VehicleHistory.constructor | client/src/hooks/useServiceHistory.ts:7-8 | the hook starts with an empty history and not loading |
| Hooks.VehicleHistory.FetchHistory | client/src/hooks/useServiceHistory.ts:10-23 | without a truthy vehicle id nothing changes; otherwise the converted rows replace the list, a failed request or a throwing row leaves it, and loading ends false |
| Hooks.AllHistory.constructor | client/src/hooks/useServiceHistory.ts:38-39 | the hook starts with an empty history and not loading |
| Hooks.AllHistory.FetchAll | client/src/hooks/useServiceHistory.ts:41-58 | for a non-empty id list the merged, converted entries are sorted in place by the stable sort and become the list; a failure leaves it; an empty id list changes nothing |
| Hooks.MergedHistoryOrder | client/src/hooks/useServiceHistory.ts:50-52 | the merged history holds every fetched entry once, newest service date first, same-day entries in arrival order |
| Hooks.HistorySorted | client/src/hooks/useServiceHistory.ts:51 | sorting entries with parsable dates gives a permutation in non-increasing date order that keeps equal dates in order |
| Hooks.ConvertPayments | client/src/hooks/useTaxPayments.ts:17 | row i becomes payment i and nothing else |
| Hooks.VehicleTaxPayments.constructor | client/src/hooks/useTaxPayments.ts:7-8 | the hook starts with no payments and not loading |
| Hooks.VehicleTaxPayments.FetchTaxPayments | client/src/hooks/useTaxPayments.ts:10-23 | without a truthy vehicle id nothing changes; otherwise the converted rows replace the list, a failed request leaves it, and loading ends false |
| Hooks.AllTaxPayments.constructor | client/src/hooks/useTaxPayments.ts:38-39 | the hook starts with no payments and not loading |
| Hooks.AllTaxPayments.FetchAll | client/src/hooks/useTaxPayments.ts:41-55 | for a non-empty id list all of the user's payments are fetched once, converted and sorted in place latest first (the ids filter nothing); an empty id list changes nothing |
| Hooks.PaymentsOrder | client/src/hooks/useTaxPayments.ts:47-49 | the sorted payments are a permutation of the fetched rows' payments, latest paid date first, same-day payments in server order |
| HistoryPage.TotalSpentAppend | client/src/components/history/HistoryPage.tsx:29 | the total spent (a null cost counting 0) of two lists together is the sum of their totals |
| HistoryPage.KeyFieldsOfMonthKey | client/src/components/history/HistoryPage.tsx:21-22 | the month heading reads back the year and month the key was made from, and the key of an invalid date reads back as two NaNs |
| HistoryPage.KeyFieldsOfKeyOf | client/src/components/history/HistoryPage.tsx:72 | splitting a key `YYYY-MM` at '-' and parsing both halves gives its year and month |
| HistoryPage.LexLessIrreflexive | client/src/components/history/HistoryPage.tsx:26 | the string order of the key sort is irreflexive |
| HistoryPage.LexLessTransitive | client/src/components/history/HistoryPage.tsx:26 | the string order of the key sort is transitive |
| HistoryPage.LexLessTotal | client/src/components/history/HistoryPage.tsx:26 | any two keys are equal or ordered one way or the other |
| HistoryPage.LexLessOfDigits | client/src/components/history/HistoryPage.tsx:26 | on digit strings of equal length the string order is the order of their numeric values |
| HistoryPage.KeyOrderIsDateOrder | client/src/components/history/HistoryPage.tsx:22-26 | for four-digit years one key sorts before another exactly when its month is earlier, so the descending key sort puts the newest month first |
| HistoryPage.FourDigitYear | client/src/components/history/HistoryPage.tsx:22 | a year from 1000 to 9999 is written as four decimal digits whose value is the year |
| HistoryPage.LexLessAfterSamePrefix | client/src/components/history/HistoryPage.tsx:26 | after prefixes of equal length the order is decided by the prefixes, then by the rest |
| HistoryPage.KeyOrderProperties | client/src/components/history/HistoryPage.tsx:20-25 | the keys are created without repetition, and every entry's month has a key |
| HistoryPage.InMonthNonEmpty | client/src/components/history/HistoryPage.tsx:23-24 | a month's list is non-empty exactly when the month has a key |
| HistoryPage.GroupStep | client/src/components/history/HistoryPage.tsx:21-24 | one step of the `forEach` adds the entry's key if it is new and pushes the entry onto that month's list only |
| HistoryPage.InMonthIsSubsequence | client/src/components/history/HistoryPage.tsx:23-24 | a month's list holds only entries of the history with that key, each no more often than there |
| HistoryPage.CollectGroups | client/src/components/history/HistoryPage.tsx:20-25 | the forEach fills the grouping object so that its keys are exactly the months present, in first-appearance order, and each key holds exactly that month's entries in history order |
| HistoryPage.GroupByMonth | client/src/components/history/HistoryPage.tsx:18-27 | the collected groups followed by the in-place sort of their entries give the specified grouping: newest month first, each with its entries |
| HistoryPage.GroupsFromMap | client/src/components/history/HistoryPage.tsx:26 | `Object.entries` of the filled map, in key-creation order, gives each key with its month's entries |
| HistoryPage.GroupsInOrderKeys | client/src/components/history/HistoryPage.tsx:26 | there is one group per key, in key order, each with its month's entries |
| HistoryPage.KeyAfterIsStrictWeakOrder | client/src/components/history/HistoryPage.tsx:26 | the comparator `b.localeCompare(a)` (modelled as code-unit order) is a strict weak order on the groups |
| HistoryPage.SortKeepsDistinctKeys | client/src/components/history/HistoryPage.tsx:26 | sorting the groups keeps their keys distinct |
| HistoryPage.UnsortedGroups | client/src/components/history/HistoryPage.tsx:20-26 | before sorting, there is one group per distinct key, holding that month's entries in list order, and the sorted groups are a permutation of them |
| HistoryPage.GroupedDescending | client/src/components/history/HistoryPage.tsx:26 | the month keys strictly descend: newest month first, no month twice |
| HistoryPage.GroupedEntries | client/src/components/history/HistoryPage.tsx:20-26 | every group holds exactly its month's entries, in list order, and none is empty |
| HistoryPage.GroupedCovers | client/src/components/history/HistoryPage.tsx:20-26 | every entry's month has a group |
| HistoryPage.MonthTotalsAddUp | client/src/components/history/HistoryPage.tsx:77 | the month totals add up to the total spent |
| HistoryPage.MonthTotalsInOrder | client/src/components/history/HistoryPage.tsx:77 | before sorting, the month totals add up to the total spent |
| HistoryPage.SumOverKeysStep | client/src/components/history/HistoryPage.tsx:23-24 | over distinct keys, adding one entry raises the sum of the month totals by its cost when its month is among the keys, and by nothing otherwise |
| HistoryPage.SumOfMonthTotalsPermutation | client/src/components/history/HistoryPage.tsx:26 | reordering the groups does not change the sum of their totals |
| StableSort.Sort | client/src/hooks/useServiceHistory.ts:51 | `all.sort(cmp)` rearranges the array in place into the stable sort of its old contents |
| StableSort.InsertAt | client/src/hooks/useServiceHistory.ts:51 | one pass moves the next element into its place among the sorted prefix and leaves the rest of the array as it was |
| StableSort.SortIsPermutation | client/src/hooks/useServiceHistory.ts:51 | sorting keeps exactly the same elements, each as often |
| StableSort.SortIsSorted | client/src/hooks/useServiceHistory.ts:51 | with a consistent comparator, no element of the result must come before an earlier one |
| StableSort.SortIsStable | client/src/hooks/useServiceHistory.ts:51 | with a consistent comparator, elements that compare equal keep their relative order |
| JsonIds.SkipSpace | client/src/types/index.ts:206 | skipping JSON white space leaves a suffix of the text that starts with no white space |
| JsonIds.ParseNumber | client/src/types/index.ts:206 | a number that is read consumes at least one character |
| JsonIds.ParseElements | client/src/types/index.ts:206 | a successfully read element list is non-empty and consumes text |
| JsonIds.ParseNumberOfIntToString | client/src/types/index.ts:206 | an integer written in decimal and followed by a non-digit reads back as itself, leaving the rest |
| JsonIds.ParseJoinIds | client/src/types/index.ts:206 | a non-empty comma-separated id list closed by ']' reads back as those ids, leaving what follows |
| JsonIds.DecodeEncodeIds | client/src/types/index.ts:206 | any id list written as a JSON array, the empty one included, is read back by `JSON.parse` as the same list |
| JsText.TrimStart | client/src/components/vehicles/VehicleDetailPage.tsx:112 | `parseInt` skips leading white space: the rest is a suffix starting with no white space |
| JsText.DigitPrefix | src/auth.ts:40 | the digits `parseInt` reads are the longest prefix of digits of the radix |
| JsText.ParseUnsigned | src/auth.ts:40 | an unsigned digit run reads as a non-negative number |
| JsText.NatToString | client/src/components/vehicles/VehicleDetailPage.tsx:57 | a number is written as a non-empty run of decimal digits |
| JsText.DigitsValueOfNatToString | client/src/components/vehicles/VehicleDetailPage.tsx:57 | the digits written for n have the value n |
| JsText.ParseIntOfIntToString | client/src/components/vehicles/VehicleDetailPage.tsx:112 | `parseInt` reads back any integer `toString` writes, negative ones included |
| JsText.ParseNegativeStart | client/src/components/vehicles/VehicleDetailPage.tsx:112 | after a leading '-' `parseInt` reads the unsigned digits that follow and negates them |
| JsText.ToUpper | client/src/components/layout/Header.tsx:25 | upper-casing keeps the length and maps each character on its own |
| JsText.Split | client/src/components/layout/Header.tsx:25 | splitting gives at least one part and no part contains the separator |
| JsText.JoinSplit | client/src/components/layout/Header.tsx:25 | joining the parts of a split with the separator gives the string back |
| JsText.SplitJoin | src/auth.ts:35 | splitting a join of separator-free parts gives the parts back |
| FormFields.OrNull | client/src/components/history/AddHistoryForm.tsx:60 | an empty text is sent as null and any other text as itself |
| FormFields.IntOrNull | client/src/components/history/AddHistoryForm.tsx:59 | `s ? parseInt(s) : null` is null for the empty text and `parseInt` of it otherwise |
| FormFields.IntOrZero | client/src/components/vehicles/VehicleForm.tsx:46 | `s ? parseInt(s) : 0` is 0 for the empty text and `parseInt` of it otherwise |
| FormFields.NonZeroIntOrNull | client/src/components/services/ServiceItemForm.tsx:51 | with the falsy fallback to null, a number is sent only when it is non-zero, and null when the text reads as 0 or as NaN |
| FormFields.NumberTextRoundTrip | client/src/components/services/ServiceItemForm.tsx:35-36 | a number shown as its decimal text (a missing one as '') reads back as itself through each of the three parsings, except that 0 comes back null under the falsy fallback |
| FormFields.TextRoundTrip | client/src/components/services/ServiceItemForm.tsx:37 | a text shown with '' for null comes back as itself, except that '' comes back null |
| FormFields.Without | client/src/components/history/AddHistoryForm.tsx:36 | `filter(i => i !== id)` removes every copy of the id and keeps every other id |
| FormFields.ToggleFlips | client/src/components/history/AddHistoryForm.tsx:34-38 | the toggle flips exactly the clicked id's membership, appends a new id at the end, is undone by a second click on a new id, and keeps the list free of duplicates |
| FormFields.WithoutAbsent | client/src/components/history/AddHistoryForm.tsx:36 | removing an id that is not there changes nothing |
| FormFields.WithoutLast | client/src/components/history/AddHistoryForm.tsx:36 | removing an id just appended gives the earlier list back |
| FormFields.WithoutKeepsDistinct | client/src/components/history/AddHistoryForm.tsx:36 | removing an id keeps a duplicate-free list duplicate-free |
| FormFields.VehiclePayloadOf | client/src/components/vehicles/VehicleForm.tsx:34-47 | nothing is sent exactly when the name is empty |
| FormFields.BulanPajakChoices | client/src/components/vehicles/VehicleForm.tsx:128-130 | there are twelve tax-month choices |
| FormFields.BulanPajakChoicesAreMonths | client/src/components/vehicles/VehicleForm.tsx:123-130 | whichever month is chosen, the payload carries its number 1..12 |
| HistoryForms.GateOrder | client/src/components/history/AddHistoryForm.tsx:42-49 | the selection is checked first; with a selection a reading typed as a whole number passes exactly when it is positive, and an empty reading never passes |
| HistoryForms.GateAgainstServer | client/src/components/history/AddHistoryForm.tsx:46 | the form refuses a reading of 0 that the server's odometer check accepts, and lets through a reading that is not a number |
| HistoryForms.PayloadShape | client/src/components/history/AddHistoryForm.tsx:54-61 | what passes the gate is sent with at least one item and a positive or null odometer; an empty cost is null, a typed cost itself, and notes are null exactly when empty |
| HistoryForms.AddHistoryForm.constructor | client/src/components/history/AddHistoryForm.tsx:26-32 | the form starts on today with the vehicle's odometer, no selection and empty inputs |
| HistoryForms.AddHistoryForm.HandleToggle | client/src/components/history/AddHistoryForm.tsx:34-38 | the selection becomes the toggled list, flipping only the clicked id, and the other inputs stay |
| HistoryForms.AddHistoryForm.ResetForm | client/src/components/history/AddHistoryForm.tsx:72-79 | the inputs return to today, the vehicle's odometer, no selection and empty texts, and the error clears |
| HistoryForms.AddHistoryForm.HandleSubmit | client/src/components/history/AddHistoryForm.tsx:40-70 | a refused gate sets its message and sends nothing; otherwise the payload of the inputs is sent, a save resets the form and a throw keeps the inputs and shows its message or 'Gagal menyimpan' |
| HistoryForms.TambahServis.constructor | client/src/components/TambahServis.tsx:31-38 | the form starts on today with the vehicle's odometer, no selection, no items and empty inputs |
| HistoryForms.TambahServis.Open | client/src/components/TambahServis.tsx:40-63 | opening resets the odometer and loads the items (no `results` field giving none), or keeps them and sets the matching error for a non-OK answer or a throw |
| HistoryForms.TambahServis.HandleServiceToggle | client/src/components/TambahServis.tsx:65-69 | the selection becomes the toggled list, flipping only the clicked id, and the other inputs stay |
| HistoryForms.TambahServis.ResetForm | client/src/components/TambahServis.tsx:117-124 | the inputs return to today, the vehicle's odometer, no selection and empty texts, and the error clears |
| HistoryForms.TambahServis.HandleSubmit | client/src/components/TambahServis.tsx:71-115 | the same gate and payload with English messages; an OK answer resets the form, a non-OK one shows the server's `error` or a fixed text, a throw its own text, keeping the inputs |
| ItemForms.PayloadOfTyped | client/src/components/services/ServiceItemForm.tsx:48-54 | a typed interval k is sent as k, except null for type 'NONE' and null for 0 under the falsy fallback; a typed odometer is sent as itself and the date is null exactly when empty |
| ItemForms.PayloadOfEmpty | client/src/components/AddServiceForm.tsx:41-48 | submitting the empty form sends null for the interval, the odometer and the date |
| ItemForms.LoadSubmitRoundTrip | client/src/components/EditServiceForm.tsx:43-64 | loading an item with a set, non-'NONE' type and a non-empty date and saving it unchanged sends back what was loaded (an interval of 0 coming back null in ServiceItemForm) |
| ItemForms.LoadSubmitChanges | client/src/components/EditServiceForm.tsx:46-49 | an item without a type is saved as 'KM', a 'NONE' item loses its interval, and an empty date is saved as null |
| ItemForms.ServiceItemForm.constructor | client/src/components/services/ServiceItemForm.tsx:31-40 | the form shows the item's fields when editing and the empty form when adding, not loading |
| ItemForms.ServiceItemForm.HandleSubmit | client/src/components/services/ServiceItemForm.tsx:42-67 | nothing is sent without a name; otherwise the payload with the falsy interval fallback is sent, and only a successful add empties the form |
| ItemForms.AddServiceForm.constructor | client/src/components/AddServiceForm.tsx:28-33 | the form starts empty with type 'KM', so Save is disabled and the interval input shown |
| ItemForms.AddServiceForm.HandleSubmit | client/src/components/AddServiceForm.tsx:35-70 | the vehicle id and the payload with plain `parseInt` are sent, and only an OK response empties the form |
| ItemForms.EditServiceForm.constructor | client/src/components/EditServiceForm.tsx:37-41 | the form starts empty with type 'KM' |
| ItemForms.EditServiceForm.Load | client/src/components/EditServiceForm.tsx:43-51 | the five fields are loaded from the item, a missing type showing as 'KM' and missing numbers and date as '' |
| ItemForms.EditServiceForm.HandleSubmit | client/src/components/EditServiceForm.tsx:53-76 | the payload is sent to the item's own id, and the dialog closes exactly on an OK response |
| ItemForms.EditUnchanged | client/src/components/EditServiceForm.tsx:43-64 | opening an item and saving it unchanged through the form's own steps sends its own values back |
| VehicleForms.EditVehicleRoundTrip | client/src/components/vehicles/VehicleForm.tsx:24-47 | editing a vehicle and saving it unchanged sends back its own fields, odometer 0 included, except that an empty type or plate goes out as null |
| VehicleForms.OnlyNameDefaults | client/src/components/vehicles/VehicleForm.tsx:40-47 | a form with only a name sends null for everything optional and 0 km |
| VehicleForms.VehicleForm.constructor | client/src/components/vehicles/VehicleForm.tsx:24-32 | the form shows the vehicle's fields when editing and empty fields when adding, not loading |
| VehicleForms.VehicleForm.ResetForm | client/src/components/vehicles/VehicleForm.tsx:56-63 | all six inputs are emptied |
| VehicleForms.VehicleForm.HandleSubmit | client/src/components/vehicles/VehicleForm.tsx:34-54 | the vehicle payload is sent unless the name is empty, and only a successful add empties the inputs |
| VehicleForms.Transform | client/src/components/VehicleSelector.tsx:57-75 | row i of `results` becomes picker vehicle i, and no `results` field gives an empty list |
| VehicleForms.TransformInjective | client/src/components/VehicleSelector.tsx:57-75 | the row conversion loses nothing: two lists convert alike exactly when they are equal |
| VehicleForms.Find | client/src/components/VehicleSelector.tsx:79 | `find` gives the first vehicle with the id, and nothing exactly when no vehicle has it |
| VehicleForms.ChooseSelects | client/src/components/VehicleSelector.tsx:89-100 | choosing a listed vehicle selects it with its own odometer (0 for none); choosing an unlisted one keeps the old odometer; -1 changes nothing |
| VehicleForms.DeleteFallback | client/src/components/VehicleSelector.tsx:145-154 | deleting the selected vehicle selects the first remaining one with its odometer, or nothing and 0 km; deleting another leaves the selection alone |
| VehicleForms.RefreshConsistent | client/src/components/VehicleSelector.tsx:78-83 | refreshing the list gives a truthy selection its listed vehicle's odometer |
| VehicleForms.AddKeepsOldKm | client/src/components/VehicleSelector.tsx:194-197 | after an add the new vehicle is selected while the odometer is still the previously selected vehicle's |
| VehicleForms.KmUpdateGuard | client/src/components/VehicleSelector.tsx:208-216 | an update is sent exactly with a non-zero selection and some input, and a typed number is sent as itself |
| VehicleForms.VehicleSelector.constructor | client/src/components/VehicleSelector.tsx:36-47 | the picker starts with no vehicles, closed dialogs, empty inputs and the store's selection |
| VehicleForms.VehicleSelector.FetchVehicles | client/src/components/VehicleSelector.tsx:53-87 | the list becomes the converted rows and the store is refreshed from it; nothing else changes |
| VehicleForms.VehicleSelector.HandleVehicleChange | client/src/components/VehicleSelector.tsx:89-100 | the store follows the choice; -1 opens the add dialog instead |
| VehicleForms.VehicleSelector.HandleDeleteVehicle | client/src/components/VehicleSelector.tsx:102-105 | the vehicle is marked for deletion and nothing else changes |
| VehicleForms.VehicleSelector.ConfirmDeleteVehicle | client/src/components/VehicleSelector.tsx:107-159 | without a marked vehicle or on a failed DELETE nothing changes; otherwise the mark clears, the list is fetched again and the selection falls back if it was deleted |
| VehicleForms.VehicleSelector.HandleAddVehicle | client/src/components/VehicleSelector.tsx:161-206 | nothing is sent without a name; a success closes and empties the dialog, refetches and selects the new id; a refusal or a throw raises the matching alert and changes nothing |
| VehicleForms.VehicleSelector.HandleUpdateKm | client/src/components/VehicleSelector.tsx:208-228 | the reading is sent only with a selection and input; an OK response closes the dialog, empties the input and refreshes the list |
| PasswordChange.GateOrder | client/src/components/profile/ProfilePage.tsx:52-59 | a request is made exactly when the entries agree and have at least six characters; a mismatch is reported first |
| PasswordChange.GateWeakerThanPolicy | client/src/components/profile/ProfilePage.tsx:56 | whatever the server's password policy accepts passes the page's check, but 'abcdef' passes it and is not a valid password |
| PasswordChange.ProfilePage.constructor | client/src/components/profile/ProfilePage.tsx:16-20 | the three password fields start empty and no change is running |
| PasswordChange.ProfilePage.HandleChangePassword | client/src/components/profile/ProfilePage.tsx:48-85 | a refused check shows its message and sends nothing; otherwise the old and new passwords are sent, a success clears the three fields, and a failure shows the server's message (or a fixed one) and keeps them |
| HeaderInitials.FirstCharsOfSplit | client/src/components/layout/Header.tsx:25 | splitting at spaces and taking each word's first character gives exactly the characters that start a word, in order |
| HeaderInitials.WordStartsNonEmpty | client/src/components/layout/Header.tsx:25 | a name with a non-space character has a word start |
| HeaderInitials.WordStartsOfSpaces | client/src/components/layout/Header.tsx:25 | a name of spaces only has no word start |
| HeaderInitials.InitialsSpec | client/src/components/layout/Header.tsx:24-26 | with a name, at most two upper-cased word initials, none exactly when it is all spaces; otherwise the upper-cased first character of the email, or 'U' |
| RemoveBg.Strip | scripts/remove_bg.py:30 | `str.strip` leaves text that neither starts nor ends with white space |
| RemoveBg.ParseRgb | scripts/remove_bg.py:24-37 | a parsed colour has exactly three parts and every channel in 0..255, and the form error is raised exactly when the text does not have three comma-separated parts |
| RemoveBg.ParseRgbOfParts | scripts/remove_bg.py:25-37 | the checks run in order: the part count first, then every part must be an integer, then every channel must be in range |
| RemoveBg.ParseRgbFormErrors | scripts/remove_bg.py:26-27 | one part or four parts give 'RGB must be in form r,g,b' |
| RemoveBg.ParseRgbIntegerError | scripts/remove_bg.py:29-32 | three parts of which one is not an integer give 'RGB values must be integers' |
| RemoveBg.ParseRgbOfFormat | scripts/remove_bg.py:24-37 | any colour written as `r,g,b` (white space around the numbers allowed) parses back as itself when its channels are in 0..255 and gives the range error otherwise |
| RemoveBg.ChannelParses | scripts/remove_bg.py:30 | a number written with white space around it has no comma and strips and parses back as itself |
| RemoveBg.PyIntOfIntToString | scripts/remove_bg.py:30 | Python's `int` reads back any integer's decimal text |
| RemoveBg.PyIntOfDigits | scripts/remove_bg.py:30 | Python's `int` reads a digit run, with or without a leading '-', as its value |
| RemoveBg.StripPadded | scripts/remove_bg.py:30 | stripping white space from both sides gives back text that has none at its ends |
| RemoveBg.ColorDistanceMetric | scripts/remove_bg.py:40-44 | the squared distance is non-negative, symmetric and zero exactly for equal colours |
| RemoveBg.Mean4 | scripts/remove_bg.py:54-56 | the floor of the mean of four values lies between their minimum and maximum |
| RemoveBg.SampleCorners | scripts/remove_bg.py:47-57 | each sampled channel lies between the smallest and the largest of the four corner pixels' values |
| RemoveBg.SampleUniformCorners | scripts/remove_bg.py:47-57 | four corners of one colour sample as that colour |
| RemoveBg.EdgePositions | scripts/remove_bg.py:60-66 | the border is listed with 2w + 2h positions, corners and single rows or columns repeated |
| RemoveBg.EdgePositionsExact | scripts/remove_bg.py:60-66 | a position is listed exactly when it is inside the image and on its border |
| RemoveBg.Grid | scripts/remove_bg.py:72-74 | the snapshot of the pixel array has its dimensions and its pixels |
| RemoveBg.ChainReachable | scripts/remove_bg.py:89-107 | every pixel enqueued, through its chain of enqueuing neighbours back to the border, is reachable from the border through close pixels |
| RemoveBg.PathInside | scripts/remove_bg.py:95-107 | a queue that holds every close border pixel and every close neighbour of its members holds the end of every path of close pixels from the border |
| RemoveBg.SearchComplete | scripts/remove_bg.py:86-107 | at the end the enqueued pixels are exactly those reachable from the border through pixels within the tolerance |
| RemoveBg.UnseenAtStart | scripts/remove_bg.py:86 | before the search every one of the w·h pixels is unvisited |
| RemoveBg.Offer | scripts/remove_bg.py:91-93 | an unvisited pixel close to the background is marked and appended to the queue; any other is left alone, and the search invariant holds |
| RemoveBg.SeedEdges | scripts/remove_bg.py:89-93 | after the first loop every close border pixel is marked and enqueued, and the queue is the visit order |
| RemoveBg.Expand | scripts/remove_bg.py:100-107 | after a pixel's four neighbours are offered, every close neighbour inside the image is enqueued and the queue only grew at the back |
| RemoveBg.ClosedStep | scripts/remove_bg.py:95-107 | once a pixel's close neighbours are enqueued, the processed prefix of the queue stays closed as the queue grows |
| RemoveBg.ClearNext | scripts/remove_bg.py:98 | the pixel taken from the queue becomes transparent with its colour kept, and every other pixel stays |
| RemoveBg.Flood | scripts/remove_bg.py:95-107 | when the queue empties, every enqueued pixel is transparent, the enqueued set is closed under close neighbours, and at most w·h pixels were enqueued |
| RemoveBg.RemoveBackground | scripts/remove_bg.py:69-107 | an empty image is refused unchanged; otherwise exactly the pixels reachable from the border through pixels within the tolerance of the given or sampled background become transparent, colours kept, every other pixel unchanged, in at most w·h steps |

## Left out

- Network, storage and rendering are not modelled:
  - fetch calls, D1 queries, cookies and `authMiddleware`;
  - zustand stores, toasts and dialogs, and React effects and rendering.

  Each response is a parameter of the method that handles it, and toasts and alerts are returned values. `src/index.ts`, with its routes and SQL, is not part of this model.
- Crypto is not modelled. PBKDF2 and the UTF-8 encoding of the password are a function parameter. `crypto.getRandomValues` bytes are parameters.
- JavaScript `Date` is not modelled in full:
  - Parsing is strict `YYYY-MM-DD` with the local time zone taken as UTC; the lenient formats engines accept are not modelled.
  - `toLocaleDateString`, `toLocaleString` and `toFixed` display formatting is not modelled.
  - The numbers and dates behind that formatting are modelled.
- Floating point is not modelled. Progress ratios are mathematical reals, and `NaN` is a separate constructor.
- String length counts characters, not UTF-16 code units.
- `toUpperCase` is modelled for ASCII letters only. `localeCompare` is code-unit order.
- Python's `int()` is modelled for ASCII decimal digits with single underscores between them. The other Unicode digits it accepts are not.
- The two date sorts require every date to parse:
  - `Hooks.AllHistory.FetchAll` sorts `serviceDate`; `Hooks.AllTaxPayments.FetchAll` sorts `paidDate`.
  - The order `sort` gives with `NaN` comparisons depends on the engine.
- `Types.ToServiceHistory` / `JsonIds.DecodeIds`: `JSON.parse` of the id list is modelled for arrays of JSON integers only. Other valid JSON is treated as a syntax error, though `JSON.parse` accepts it: fractions and exponents (`[1.0]`, `[1e2]`), non-arrays (`null`, `5`), strings (`["1"]`) and nested arrays (`[[1]]`). The forms only ever write integer arrays.
- `Types` carries `intervalType` as one of the six `IntervalType` values (or `null`). A stored string outside the six is not modelled.
- `ServiceList.FromRow` drops the two time-interval fields of a row, as the older list's item shape has none. The item forms' payloads never carry them, as in the source.
- The hooks model a failed request, which they catch and log, as `None`.
- `Hooks.AllTaxPayments.FetchAll` returns every payment of the account; the vehicle ids only decide whether to fetch.
- `VehicleForms.VehicleSelector.FetchVehicles`: a throwing request is not modelled. The list is always replaced by the response's `results` (none gives an empty list).
- The profile update (`handleUpdateProfile`, client/src/components/profile/ProfilePage.tsx:22-46) is not modelled: a PUT and a toast with no logic of their own.
- The `remove_bg.py` I/O is not modelled:
  - opening the file and converting it to RGBA;
  - saving the PNG and creating the output directory;
  - the argparse CLI and its 0..255 tolerance check in `main`.

  `RemoveBg.RemoveBackground` works on a pixel array already in memory, with any tolerance.
- Logging is not modelled: `handleError`'s `console.error`, the hooks' `console.error`, and `authMiddleware`.
- Not modelled because the shown code has no logic for them:
  - the atomic service-recording operation on the server;
  - the tax paid-until rollover.
