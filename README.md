# Booking system slot engine, in Dafny

This project models the core of a booking API. Providers publish weekly
**availability windows** for their **services**. A client asks for the
**slots** of a service on a date and books one by its **slot id**. The
result is an **appointment**, BOOKED or CANCELLED.

The model covers these parts of the source:

- **The slot engine** (`generateSlots`, `validateSlotAvailability`). It walks
  each window of the date's weekday in steps of the service duration. It keeps
  the candidates that no appointment overlaps under the source's string
  comparison. It re-checks a single start/end pair against the first window of
  the weekday.
- **The time helpers**: the `HH:MM` and `YYYY-MM-DD` shape checks, the 00/30
  minute rule, and `addMinutes`, which wraps past midnight.
- **The weekday of a date**, as `new Date(date).getDay()` computes it for a
  date-only string.
- **The service handlers** `setAvailability`, `getSlots` and `getServices`.
  The availability table is a class whose `SetAvailability` method appends
  rows. Its invariant is that no two windows of a service clash on the same
  day.
- **The appointment handlers** `bookAppointment` and `getMyAppointments`. The
  appointment table is a class whose `BookAppointment` method runs the guards
  in the source's order and appends one BOOKED row. Its invariant is that no
  two BOOKED rows share a service, date and start.
- **Both validator files**, and the web helper `formatEnumLabel`.

Times are strings, as in the source. JavaScript's `<` on strings is
`Strings.StrLess`. The model proves that on valid `HH:MM` times it is the
order of minutes since midnight. Integers are unbounded, and no operation in
the core relies on a fixed width.

The controllers in the model use the source's definitions as written. The
corrected definitions for the three findings below are stated beside them,
each with its intended property proved.

Two places where the source does not agree with itself are modelled as
written, with the disagreement shown:

- `generateSlots` offers slots from every window of the weekday
  (apps/api/src/utils/slots.ts:27-29). `validateSlotAvailability`
  re-checks a booking against the first window of the weekday only
  (apps/api/src/utils/slots.ts:72). This is finding 1.
- The window time schema's own message says the minutes are 00 or 30
  (apps/api/src/types/validators.ts:41-42), but its pattern admits 10 and
  20 as well. This is finding 3.

Modules, one per file:

- `Wrappers`, `Strings`, `Time`, `Calendar`, `Slots`;
- `Records`, `Validators`, `LegacyValidators`;
- `ServiceController`, `AppointmentController`, `Format`;
- `Findings` and `MinuteFinding`.

## Model

| member | source | states |
|---|---|---|
| Time.ToMinutes | apps/api/src/utils/slots.ts:30-34 | the minute of the day `hour * 60 + minute` of a valid time is below 24 * 60 |
| Time.ValidTimeFields | src/utils/time.ts:1-4 | the time pattern accepts exactly two-digit hours below 24 and two-digit minutes below 60 |
| Time.FormatTimeValid | apps/api/src/utils/slots.ts:38-40 | the zero-padded rendering of a minute of the day is a valid time that reads back as that minute |
| Time.FormatToMinutes | apps/api/src/utils/slots.ts:38 | every valid time is the rendering of its own minute of the day (round trip) |
| Time.ToMinutesInjective | apps/api/src/utils/slots.ts:30-34 | two valid times with the same minute of the day are the same string |
| Time.StrLessIsTimeOrder | apps/api/src/utils/slots.ts:43 | on valid times, the string `<` of the source holds exactly when the first is earlier in minutes |
| Time.AddMinutesWraps | src/utils/time.ts:14-20 | `addMinutes` gives a valid time whose minute of the day is the sum modulo 24 hours |
| Time.AddMinutesIsFormat | src/utils/time.ts:14-20 | `addMinutes` is the rendering of the wrapped sum |
| Time.AddMinutesZero | src/utils/time.ts:14-20 | adding zero minutes returns the same time |
| Time.AddMinutesCompose | src/utils/time.ts:14-20 | adding a and then b minutes equals adding a + b |
| Time.NoWrap | src/utils/time.ts:14-20 | short of midnight, `addMinutes` is plain addition of minutes |
| Time.SlotMinuteParts | src/utils/time.ts:8-12 | `isValidSlotMinute` implies `isValidTime` and holds exactly for minute parts "00" and "30" |
| Strings.StrLessTrans | apps/api/src/utils/slots.ts:43 | the string order is transitive |
| Strings.StrLessTotal | apps/api/src/utils/slots.ts:43 | two strings are equal or one is below the other |
| Strings.StrLessAsymmetric | apps/api/src/utils/slots.ts:43 | the string order is asymmetric |
| Strings.StrLessIrreflexive | apps/api/src/utils/slots.ts:43 | no string is below itself |
| Strings.Split | apps/api/src/controllers/appointmentController.ts:24 | `split` gives at least one piece, and no piece holds the separator |
| Strings.JoinSplit | apps/web/src/lib/format.ts:5-7 | joining the pieces of a split with the same separator gives the string back |
| Strings.SplitNoSep | apps/api/src/controllers/appointmentController.ts:24 | a string without the separator splits into itself alone |
| Strings.SplitAtSep | apps/api/src/controllers/appointmentController.ts:24 | a piece free of the separator, then the separator, splits off as the first piece |
| Calendar.DayOfWeek | apps/api/src/utils/slots.ts:24-25 | the weekday is 0..6 and exists only for a shape-valid date |
| Calendar.DayOfWeekNext | apps/api/src/utils/slots.ts:24-25 | the next calendar date, within a month, across a month's end or across a year's end, falls one weekday later, modulo 7; with the epoch anchor this fixes every weekday |
| Calendar.DayNumberNext | apps/api/src/utils/slots.ts:24-25 | the next calendar date's day count is one more |
| Calendar.YearLength | apps/api/src/utils/slots.ts:24-25 | the day count steps 366 days over a leap year and 365 over any other |
| Calendar.UnixEpochWeekday | apps/api/src/utils/slots.ts:24-25 | 1970-01-01 is a Thursday (4) |
| Calendar.Y2KWeekday | apps/api/src/utils/slots.ts:24-25 | 2000-01-01 is a Saturday (6) |
| Calendar.MondayWeekday | apps/api/src/utils/slots.ts:24-25 | 2025-03-10 is a Monday (1) |
| Calendar.MonthThirteenHasNoWeekday | apps/api/src/utils/slots.ts:24-27 | a shape-valid date in month 13 has no weekday, so no window matches it |
| Slots.Relevant | apps/api/src/utils/slots.ts:27 | the filter keeps only windows of the weekday and keeps them well formed |
| Slots.RelevantMembers | apps/api/src/utils/slots.ts:27 | a window survives the filter exactly when it is in the list and on the weekday |
| Slots.CandidateFacts | apps/api/src/utils/slots.ts:38-40 | a candidate has valid times, starts at its minute, lasts the duration and is named `${id}_${date}_${start}` |
| Slots.GenerateSlots | apps/api/src/utils/slots.ts:17-59 | the loop over the windows of the weekday returns exactly the generated slots |
| Slots.PushWindowSlots | apps/api/src/utils/slots.ts:33-55 | the inner loop appends exactly the slots of one window to what was collected |
| Slots.WindowSlotsFilter | apps/api/src/utils/slots.ts:42-52 | the slots of a window are its appointment-free candidates, in order |
| Slots.WindowElements | apps/api/src/utils/slots.ts:37-54 | with no appointments, the k-th slot starts k durations after the window start and ends inside the window |
| Slots.WindowCount | apps/api/src/utils/slots.ts:37 | a window yields the largest number of whole durations that fit |
| Slots.WindowSlotsSound | apps/api/src/utils/slots.ts:33-55 | every slot of a window lies in it, lasts the duration, carries its slot id and overlaps no appointment |
| Slots.WindowSlotsOrdered | apps/api/src/utils/slots.ts:37-55 | each slot of a window ends no later than any later one starts |
| Slots.GeneratedIsUnbookedCandidates | apps/api/src/utils/slots.ts:27-55 | generating against appointments is generating without them and then dropping every slot an appointment overlaps |
| Slots.GeneratedAppend | apps/api/src/utils/slots.ts:27-29 | generation over a concatenation of windows is the concatenation of the generations |
| Slots.NoWindowOnDayNoSlots | apps/api/src/utils/slots.ts:24-29 | without a window on the weekday nothing is generated |
| Slots.GeneratedSlotsFit | apps/api/src/utils/slots.ts:17-59 | every generated slot has valid times and the right slot id, lasts the duration, lies in a window of the weekday and overlaps no appointment |
| Slots.GeneratedComplete | apps/api/src/utils/slots.ts:17-59 | every appointment-free candidate a whole number of durations into a window of the weekday that ends by its end is generated |
| Slots.GeneratedAvoidsAppointments | apps/api/src/utils/slots.ts:42-44 | with valid appointment times, no generated slot overlaps an appointment in minutes |
| Slots.FirstOnDay | apps/api/src/utils/slots.ts:72 | the index found is the first window of the weekday, or the length when there is none |
| Slots.FindOnDayFinds | apps/api/src/utils/slots.ts:72 | `find` is empty exactly when no window is on the weekday, and otherwise gives one of them |
| Slots.ValidateSlotAvailability | apps/api/src/utils/slots.ts:61-97 | without a window on the weekday the pair is refused |
| Slots.ValidateExactly | apps/api/src/utils/slots.ts:61-97 | the pair is accepted exactly when it lies, in minutes, in the first window of the weekday and overlaps no appointment |
| Slots.FirstWindowSlotsValidate | apps/api/src/utils/slots.ts:17-97 | a slot generated from the first window of the weekday passes the re-check |
| Slots.GeneratedEndIsAddMinutes | apps/api/src/utils/slots.ts:39-40 | a generated slot ends where `addMinutes` puts its start plus the duration |
| Records.ParseServiceType | apps/api/src/controllers/serviceController.ts:7 | a parsed type's name is the input string |
| Records.ParseServiceTypeExactly | apps/api/src/controllers/serviceController.ts:94 | a string parses exactly when it names a service type, and every name parses back to its type |
| Records.FindService | apps/api/src/controllers/appointmentController.ts:34-40 | the lookup fails exactly when no service has the id, and otherwise gives a stored service with that id |
| Records.WindowsOfSnoc | apps/api/src/controllers/serviceController.ts:73-78 | a new row adds its window to its own service only |
| Records.WindowsOfMembers | apps/api/src/controllers/serviceController.ts:51-54 | a service's windows are exactly the windows of its rows |
| Records.WindowsOfWellFormed | apps/api/src/controllers/serviceController.ts:51-54 | windows read from well-formed rows are well formed |
| Records.BookedForOverlap | apps/api/src/controllers/appointmentController.ts:65-80 | a range is booked against the query exactly when a BOOKED appointment of the same service and date overlaps it |
| Records.IsBookedAppend | apps/api/src/utils/slots.ts:92-94 | an overlap with a concatenation is an overlap with one of its parts |
| Validators.DurationValues | apps/api/src/types/validators.ts:22 | a duration is accepted exactly when it is 30, 60, 90 or 120 |
| Validators.UpdateServiceRule | apps/api/src/types/validators.ts:25-37 | an update without fields is refused; one with all fields is accepted exactly when the create rule accepts them; its duration is one of the four |
| Validators.AvailabilityTimeMinutes | apps/api/src/types/validators.ts:41-42 | the window pattern accepts exactly valid times with minute 00, 10, 20 or 30 |
| Validators.AvailabilityTimeAdmitsTen | apps/api/src/types/validators.ts:41-42 | `09:10` passes the window pattern and fails the booking minute rule |
| Validators.AvailabilityInputOrdered | apps/api/src/types/validators.ts:39-43 | an accepted window is well formed and starts strictly before it ends, in minutes |
| Validators.AvailabilityBatchRule | apps/api/src/types/validators.ts:45 | an empty batch is refused; a batch is accepted exactly when it is non-empty and each window is |
| Validators.DateQueryShapeOnly | apps/api/src/types/validators.ts:47-49 | the date query checks the shape only: `2025-13-45` passes, `2025-3-10` does not |
| LegacyValidators.CreateServiceAgrees | src/types/validators.ts:16-20 | the older create rule accepts the same bodies as the current one, with durations 30, 60, 90 or 120 |
| LegacyValidators.SetAvailabilityAgrees | src/types/validators.ts:22-26 | the older window rule is the current one: weekday 0..6, minutes 00/10/20/30, start before end in minutes |
| LegacyValidators.DateQueryAgrees | src/types/validators.ts:28-30 | the older date query is the current one and checks the shape only |
| Format.ToLowerCase | apps/web/src/lib/format.ts:4 | lower-casing keeps the length and maps each character |
| Format.CapitalizeAll | apps/web/src/lib/format.ts:6 | every part is capitalized, and the number of parts is kept |
| Format.SplitJoinIsLabel | apps/web/src/lib/format.ts:5-7 | splitting, capitalizing and joining is the left-to-right label |
| Format.FormatEnumLabelAt | apps/web/src/lib/format.ts:1-8 | for a non-empty value the label is as long as the input; each `_` becomes one space; a part's first character is upper-cased and the rest lower-cased; no `_` remains |
| Format.LabelMatches | apps/web/src/lib/format.ts:1-8 | any string with those characters is the label |
| Format.FormatEnumLabelEmpty | apps/web/src/lib/format.ts:2 | an absent or empty value gives `''` |
| Format.ServiceProviderLabel | apps/web/src/lib/format.ts:3-7 | `SERVICE_PROVIDER` reads `Service Provider` |
| ServiceController.ClashesSymmetric | apps/api/src/controllers/serviceController.ts:64-67 | the overlap test does not depend on which window is the new one |
| ServiceController.NoClashAcrossDaysOrTouching | apps/api/src/controllers/serviceController.ts:65-66 | windows on different days never clash, and touching windows do not clash |
| ServiceController.SetAvailabilityGuards | apps/api/src/controllers/serviceController.ts:43-78 | schema before lookup, 404 for any caller, 403 for any window; a stored row is the requested window of the requested, owned service |
| ServiceController.SetAvailabilityConflict | apps/api/src/controllers/serviceController.ts:64-78 | for a valid request by the owner: 409 exactly when a stored window of the service on that day overlaps it in minutes, otherwise the new row |
| ServiceController.OverlapIsConflict | apps/api/src/controllers/serviceController.ts:64-67 | a string clash with a stored window is an overlap in minutes |
| ServiceController.ConflictIsOverlap | apps/api/src/controllers/serviceController.ts:64-67 | an overlap in minutes with a stored window is a string clash |
| ServiceController.SetAvailabilityKeepsDisjoint | apps/api/src/controllers/serviceController.ts:64-78 | a successful add keeps every service's windows pairwise clash-free per day, and other services' windows unchanged |
| ServiceController.AvailabilityStore.RowsWellFormed | apps/api/src/types/validators.ts:39-43 | every stored window passed the schema, so its times are valid |
| ServiceController.AvailabilityStore.SetAvailability | apps/api/src/controllers/serviceController.ts:43-87 | answers as the outcome function; appends the one new row on success, changes nothing on error, keeps the invariant |
| ServiceController.AvailabilityStore.GetSlots | apps/api/src/controllers/serviceController.ts:117-168 | answers as the outcome function, calling the slot loop on the service's windows and its BOOKED appointments of the date |
| ServiceController.GetSlotsGuards | apps/api/src/controllers/serviceController.ts:122-140 | a malformed date before the lookup, a missing service before the clock; success means all three passed |
| ServiceController.GetSlotsOffers | apps/api/src/controllers/serviceController.ts:142-155 | every offered slot has valid times, the right id and the service's duration, lies in a stored window on the weekday and overlaps no BOOKED appointment of that service and date |
| ServiceController.GetSlotsIgnoresOthers | apps/api/src/controllers/serviceController.ts:142-148 | a cancelled appointment, or one of another service or date, changes nothing |
| ServiceController.ViewsOf | apps/api/src/controllers/serviceController.ts:103-111 | one view per service, in order, with its provider's name |
| ServiceController.ViewsOfMembers | apps/api/src/controllers/serviceController.ts:103-111 | the listed views are exactly the views of the services given |
| ServiceController.OfTypeMembers | apps/api/src/controllers/serviceController.ts:98-101 | the filter keeps exactly the services of the type, and all of them without a type |
| ServiceController.GetServicesRefuses | apps/api/src/controllers/serviceController.ts:91-96 | the answer fails exactly for a non-empty type outside the enumeration, and then with 400 "Invalid service type" |
| ServiceController.GetServicesAll | apps/api/src/controllers/serviceController.ts:98-101 | without a type, or with the empty one, every service is listed in order |
| ServiceController.GetServicesOfType | apps/api/src/controllers/serviceController.ts:94-101 | with an enumeration type, a view is listed exactly when it is the view of a service of that type |
| AppointmentController.DateTimeNoUnderscore | src/utils/time.ts:1-6 | valid dates and times contain no `_` |
| AppointmentController.SlotIdRoundTrip | apps/api/src/controllers/appointmentController.ts:24 | a slot id whose parts hold no `_` parses back into those parts, and anything after a third `_` is ignored |
| AppointmentController.SlotIdSplits | apps/api/src/controllers/appointmentController.ts:24 | such a slot id splits into exactly its three parts |
| AppointmentController.SlotIdTailSplits | apps/api/src/controllers/appointmentController.ts:24 | with a tail, the first three pieces are still the three parts |
| AppointmentController.RejectedBeforeLookup | apps/api/src/controllers/appointmentController.ts:24-32 | a malformed id, or a bad date, time or minute, gives 400 whatever the stores and the clock hold |
| AppointmentController.ProviderCannotBook | apps/api/src/controllers/appointmentController.ts:42-44 | the service's provider gets 403, whatever the availability, the appointments and the clock |
| AppointmentController.UnknownServiceNotFound | apps/api/src/controllers/appointmentController.ts:34-40 | a well-formed slot id naming no stored service gets 404 "Service not found", whatever the availability, the appointments and the clock |
| AppointmentController.BadDurationRefused | apps/api/src/controllers/appointmentController.ts:46-49 | a caller other than the provider, for a service whose duration is not 30, 60, 90 or 120, gets 400 "Invalid service duration", whatever the availability, the appointments and the clock |
| AppointmentController.PastRefused | apps/api/src/controllers/appointmentController.ts:52-58 | a date before today or a passed moment gets 400 "Cannot book past dates", whatever the availability and the appointments, so before the transaction |
| AppointmentController.BookingReachesReserve | apps/api/src/controllers/appointmentController.ts:46-64 | past the guards, the answer is that of the transaction, given the end `addMinutes` computes |
| AppointmentController.ReserveConflict | apps/api/src/controllers/appointmentController.ts:64-115 | the transaction fails only with 409; it fails exactly when the slot is outside the first window (in minutes), a BOOKED one of that service and date overlaps it, or one already holds its start |
| AppointmentController.BookingSucceeds | apps/api/src/controllers/appointmentController.ts:19-105 | a stored booking is BOOKED and the caller's, with the slot id verbatim and its three parts; the start is on 00/30 and the end is `addMinutes` by a 30/60/90/120 duration; the caller is not the provider and the time has not passed; the slot is in the first window and nothing BOOKED overlaps or holds it |
| AppointmentController.BookingKeepsUnique | apps/api/src/controllers/appointmentController.ts:88-98 | a successful booking keeps BOOKED (service, date, start) triples unique |
| AppointmentController.AppointmentStore.BookAppointment | apps/api/src/controllers/appointmentController.ts:19-118 | answers as the outcome function; appends the one BOOKED row on success, changes nothing on any failure, keeps the uniqueness invariant |
| AppointmentController.OfUser | apps/api/src/controllers/appointmentController.ts:124-125 | the query result holds exactly the appointments of the user |
| AppointmentController.OfUserCounts | apps/api/src/controllers/appointmentController.ts:124-125 | each of the user's appointments appears as often as it is stored, and no other appears |
| AppointmentController.InsertByDatePerm | apps/api/src/controllers/appointmentController.ts:134 | inserting adds exactly the one element |
| AppointmentController.InsertByDateSorted | apps/api/src/controllers/appointmentController.ts:134 | inserting into a date-sorted list keeps it sorted |
| AppointmentController.SortByDateSorted | apps/api/src/controllers/appointmentController.ts:134 | the sort is date-ascending and a permutation of its input |
| AppointmentController.ViewsOf | apps/api/src/controllers/appointmentController.ts:137-146 | one row per appointment, in order, with its service's name and type |
| AppointmentController.ViewsOfMembers | apps/api/src/controllers/appointmentController.ts:137-146 | the rows are exactly the views of the appointments given |
| AppointmentController.InsertByDateViews | apps/api/src/controllers/appointmentController.ts:134-146 | inserting an appointment adds exactly its view to the views |
| AppointmentController.SortByDateViews | apps/api/src/controllers/appointmentController.ts:134-146 | the views of the sorted appointments are a rearrangement of the views of the unsorted ones |
| AppointmentController.GetMyAppointmentsLists | apps/api/src/controllers/appointmentController.ts:120-146 | one row per appointment of the caller; dates ascend; every appointment of the caller appears and no other; each row appears as often as in the unsorted views |
| Findings.CorrectedAcceptsGenerated | apps/api/src/utils/slots.ts:61-97 | corrected check: every generated slot, from any window of the weekday, passes it, and ends where `addMinutes` puts it |
| Findings.CorrectedSound | apps/api/src/utils/slots.ts:61-97 | corrected check: an accepted start does not wrap past midnight, and overlaps no valid appointment in minutes |
| Findings.AsWrittenImpliesCorrected | apps/api/src/utils/slots.ts:61-97 | without a wrap, acceptance as written implies acceptance by the corrected check |
| Findings.CorrectedRefusesOverrun | apps/api/src/utils/slots.ts:88 | corrected check: a slot that runs past its window is refused |
| Findings.LaterWindowSlotRejected | apps/api/src/utils/slots.ts:72 | a slot from a later window of the weekday that does not fit in the first one is generated, refused as written and accepted by the corrected check |
| Findings.SecondWindowSlotRejected | apps/api/src/utils/slots.ts:69-90 | Monday windows 09:00-10:00 and 14:00-15:00 with 30 minutes: the 14:00 slot is generated, refused as written, accepted when corrected |
| Findings.WrappedSlotAccepted | apps/api/src/utils/slots.ts:83-96 | window 22:00-23:30 with 60 minutes: a 23:30 start gets end `00:30` and is accepted as written, even against an interval with the same start (the booking flow's uniqueness check catches that duplicate); the corrected check refuses it |
| Findings.OverlappingWrappedBookings | apps/api/src/utils/slots.ts:92-94 | a 23:00 start is accepted, then a 22:30 start is accepted against it, though the two overlap in minutes |
| Findings.WrappedFirstBooks | apps/api/src/controllers/appointmentController.ts:19-99 | the 23:00 booking of a 60-minute service with the window 22:00-23:30 is stored on an empty table with end `00:00` |
| Findings.WrappedSecondBooks | apps/api/src/controllers/appointmentController.ts:19-99 | the 22:30 booking is then stored beside the 23:00 one |
| Findings.OverlappingWrappedAppointments | apps/api/src/controllers/appointmentController.ts:19-99 | through the booking handler, both bookings are stored one after the other; their starts differ so the uniqueness rule holds, yet they overlap in minutes |
| MinuteFinding.TenPastSlotUnbookable | apps/api/src/types/validators.ts:41-42 | the window Monday 09:10-10:10 passes the schema; its 09:10 slot is generated; booking it gives 400 "Invalid slotId time or date" |
| MinuteFinding.TenPastSlotOffered | apps/api/src/utils/slots.ts:37-52 | the 09:10 slot of that window is generated on 2025-03-10 |
| MinuteFinding.TenPastSlotRefused | apps/api/src/controllers/appointmentController.ts:30-32 | a slot id with start 09:10 is refused with 400 |
| MinuteFinding.CorrectedTimeIsSlotMinute | apps/api/src/types/validators.ts:41-42 | the corrected pattern accepts exactly what `isValidSlotMinute` accepts, all of it admitted as written |
| MinuteFinding.HalfHourMinute | src/utils/time.ts:8-12 | a valid time is on the half hour in minutes exactly when its minute part is 00 or 30 |
| MinuteFinding.WindowSlotsOnGrid | apps/api/src/utils/slots.ts:37-55 | from a half-hour start, in steps of a multiple of 30, every slot starts on the half hour |
| MinuteFinding.GeneratedOnGrid | apps/api/src/utils/slots.ts:17-59 | corrected: with window starts on 00/30 and an accepted duration, every generated slot starts on 00 or 30 |
| MinuteFinding.CorrectedFirstWindowSlotBooks | apps/api/src/controllers/appointmentController.ts:19-99 | corrected: when every window start passes the corrected pattern, a slot generated from the first window of its weekday books for anyone but the provider, when not past and not held, with the slot's own times and id |

## Left out

- Persistence: Prisma queries, transactions and isolation. Concurrent
  bookings are also left out. The tables are sequences held by two classes,
  and each request runs alone.
- The uniqueness rule behind the P2002 answer: the storage schema is not
  part of this model. It is modelled as a check that no BOOKED row already
  holds the same service, date and start.
- The clock and the time zone. `new Date()`, `today.setHours(0, 0, 0, 0)` and
  `isPastDateTime` are facts given to the handlers through `Records.Clock`.
  The clock's answers are not tied to the calendar. For a date with the right
  shape that does not parse, such as `2025-13-45`, the source compares NaN. So
  both `new Date(date) < today` and `isPastDateTime` are false, and the handlers
  go on past the guard. The model's clock may answer "past" for such a date, and
  its 400 then stands for that case too.
- `Calendar.DayOfWeek` reads the date as UTC, without a time-zone
  shift.
- `Number` parsing of malformed times, and NaN. Times that reach the slot
  engine are required to be valid `HH:MM`, as the schemas ensure.
- Ordering by date: `GetMyAppointments` sorts by string order. The order of
  equal dates is store order, which the database does not promise.
- `findMany` without `orderBy` is taken to return rows in store order.
- `Slots.GenerateSlots`: its inner loop is the method
  `Slots.PushWindowSlots`.
- A stored duration of zero or less would loop forever, so the slot methods
  require positive durations.
- The request schema of `bookAppointment` only requires a string
  `slotId`. Its failure is not modelled.
- An array-valued route parameter or query, which the source reduces to its
  first element.
- The provider's name in `getServices` comes from a relation. Here it is a
  function of the provider id.
- Upper- and lower-casing in `formatEnumLabel` cover the ASCII letters
  only.
- Handlers outside the core: `createService`, the `register` and `login`
  schemas, authentication and the web UI.
- Handlers referenced by the routes but not shown: `updateService`,
  `getAvailability`, `replaceAvailability` and `cancelAppointment`. They are
  not part of this model.
- The provider controllers only query and map fields.
- The `ServiceType` enumeration comes from the database schema, which is
  not part of this model. Its six values are taken from the web UI's
  lists (apps/web/src/routes/provider.tsx:14-19,
  apps/web/src/routes/services.index.tsx:14-19). The "enumeration" in
  `Records.ParseServiceType`, `Records.ParseServiceTypeExactly` and
  `ServiceController.GetServicesRefuses` is that list.
- apps/api/src/utils/time.ts is not part of this model. The helpers of
  src/utils/time.ts stand in for it.
- The 500 answers for unexpected errors.

## Findings

| source | as written | input that shows it | evidently intended | confidence | as-written member | corrected member |
|---|---|---|---|---|---|---|
| apps/api/src/utils/slots.ts:72 | `validateSlotAvailability` compares the slot with the first window of the weekday only (`find`) | Monday windows 09:00-10:00 and 14:00-15:00, a 30-minute service, date 2025-03-10: the 14:00 slot `generateSlots` offers is refused, so it can never be booked | accept a slot that lies in any window of the weekday | high; not executed | Findings.SecondWindowSlotRejected | Findings.CorrectedAcceptsGenerated |
| apps/api/src/utils/slots.ts:83-96 | the end time from `addMinutes` wraps past midnight, and the bound and overlap tests then pass | window 22:00-23:30, 60 minutes, start 23:30: the end is `00:30` and the check accepts it; the booking handler stores a 23:00 booking and then a 22:30 one beside it, which the uniqueness rule on the start does not catch | refuse a slot whose end passes midnight or its window | high; not executed | Findings.WrappedSlotAccepted | Findings.CorrectedSound |
| apps/api/src/types/validators.ts:41-42 | the window time pattern `[0-3]0` admits minutes 10 and 20, though its message says 00 or 30 | window Monday 09:10-10:10, 30-minute service: the 09:10 slot is offered, and booking it gives 400 "Invalid slotId time or date" | the pattern `[03]0`, so every offered start is on 00 or 30 | high; not executed | MinuteFinding.TenPastSlotUnbookable | MinuteFinding.CorrectedFirstWindowSlotBooks |
