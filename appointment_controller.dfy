/** The appointment handlers of apps/api/src/controllers/appointmentController.ts:
    `bookAppointment` takes a slot id apart, runs its guards in a fixed
    order and stores one BOOKED appointment; `getMyAppointments` lists the
    caller's appointments by date with their service's name and type. */
module AppointmentController {
  import opened Wrappers
  import opened Strings
  import opened Time
  import opened Slots
  import opened Records
  import opened Validators
  import Calendar

  /** What `const [serviceId, date, startTime] = slotId.split('_')` binds. */
  datatype SlotKey = SlotKey(serviceId: string, date: string, startTime: string)

  /** Piece i of a split; a piece past the end is `undefined`, which the
      emptiness guard treats as it treats `''`. */
  function Piece(parts: seq<string>, i: nat): string {
    if i < |parts| then parts[i] else ""
  }

  function ParseSlotId(slotId: string): SlotKey {
    var parts := Split(slotId, '_');
    SlotKey(Piece(parts, 0), Piece(parts, 1), Piece(parts, 2))
  }

  predicate NoUnderscore(s: string) {
    forall i :: 0 <= i < |s| ==> s[i] != '_'
  }

  /** Valid dates and times hold no `_`. */
  lemma DateTimeNoUnderscore(date: string, time: string)
    requires IsValidDate(date) && IsValidTime(time)
    ensures NoUnderscore(date) && NoUnderscore(time)
  {
  }

  /** A slot id whose three parts hold no `_` parses back into those parts,
      and whatever follows a third `_` is ignored. */
  lemma SlotIdRoundTrip(serviceId: string, date: string, startTime: string, tail: string)
    requires NoUnderscore(serviceId) && NoUnderscore(date) && NoUnderscore(startTime)
    ensures ParseSlotId(SlotId(serviceId, date, startTime)) == SlotKey(serviceId, date, startTime)
    ensures ParseSlotId(SlotId(serviceId, date, startTime) + "_" + tail) == SlotKey(serviceId, date, startTime)
  {
    SlotIdSplits(serviceId, date, startTime);
    SlotIdTailSplits(serviceId, date, startTime, tail);
  }

  lemma SlotIdSplits(serviceId: string, date: string, startTime: string)
    requires NoUnderscore(serviceId) && NoUnderscore(date) && NoUnderscore(startTime)
    ensures Split(SlotId(serviceId, date, startTime), '_') == [serviceId, date, startTime]
  {
    var sep := '_';
    SplitNoSep(startTime, sep);
    SplitAtSep(date, startTime, sep);
    SplitAtSep(serviceId, date + [sep] + startTime, sep);
    assert SlotId(serviceId, date, startTime) == serviceId + [sep] + (date + [sep] + startTime);
  }

  lemma SlotIdTailSplits(serviceId: string, date: string, startTime: string, tail: string)
    requires NoUnderscore(serviceId) && NoUnderscore(date) && NoUnderscore(startTime)
    ensures var parts := Split(SlotId(serviceId, date, startTime) + "_" + tail, '_');
      |parts| >= 3 && parts[..3] == [serviceId, date, startTime]
  {
    var sep := '_';
    var rest := startTime + [sep] + tail;
    SplitAtSep(startTime, tail, sep);
    SplitAtSep(date, rest, sep);
    SplitAtSep(serviceId, date + [sep] + rest, sep);
    assert SlotId(serviceId, date, startTime) + "_" + tail == serviceId + [sep] + (date + [sep] + rest);
  }

  /** `!serviceId || !date || !startTime` */
  predicate MissingPiece(k: SlotKey) {
    k.serviceId == "" || k.date == "" || k.startTime == ""
  }

  /** `!isValidDate(date) || !isValidTime(startTime) || !isValidSlotMinute(startTime)` */
  predicate BadDateOrTime(k: SlotKey) {
    !IsValidDate(k.date) || !IsValidTime(k.startTime) || !IsValidSlotMinute(k.startTime)
  }

  /** `bookedDate < today || isPastDateTime(date, startTime)` */
  predicate InPast(clock: Clock, k: SlotKey) {
    clock.dateBeforeToday(k.date) || clock.instantPassed(k.date, k.startTime)
  }

  /** The service, date and start an appointment occupies. */
  function KeyOf(a: Appointment): SlotKey {
    SlotKey(a.serviceId, a.date, a.startTime)
  }

  /** A BOOKED appointment already holds the slot: the row the storage
      uniqueness rule on (serviceId, date, startTime) refuses to duplicate. */
  predicate TakenSlot(appts: seq<Appointment>, k: SlotKey) {
    exists i :: 0 <= i < |appts| && appts[i].status == Booked && KeyOf(appts[i]) == k
  }

  /** The conflict answer, shared by `SlotUnavailable` and `P2002`. */
  const SlotTaken := Error(409, "Slot already booked or not available")

  /** `bookAppointment` on a request with slot id `slotId` from user
      `userId`, against the stored services, availability rows and
      appointments: the first failing guard gives the error; otherwise the
      appointment to store. */
  function BookingOutcome(services: seq<Service>, rows: seq<AvailabilityRow>, appts: seq<Appointment>,
                          clock: Clock, userId: string, slotId: string): Result<Appointment, ApiError>
    requires forall row | row in rows :: WellFormed(row.window)
  {
    var k := ParseSlotId(slotId);
    if MissingPiece(k) then Failure(Error(400, "Invalid slotId format"))
    else if BadDateOrTime(k) then Failure(Error(400, "Invalid slotId time or date"))
    else match FindService(services, k.serviceId)
      case None => Failure(Error(404, "Service not found"))
      case Some(service) =>
        if service.providerId == userId then Failure(Error(403, "Service Provider cannot book their own service"))
        else if !DurationValid(service.durationMinutes) then Failure(Error(400, "Invalid service duration"))
        else
          var endTime := AddMinutes(k.startTime, service.durationMinutes);
          if InPast(clock, k) then Failure(Error(400, "Cannot book past dates"))
          else
            AddMinutesWraps(k.startTime, service.durationMinutes);
            Reserve(service, rows, appts, userId, slotId, k, endTime)
  }

  /** The transaction of `bookAppointment`: `validateSlotAvailability`
      against the service's windows and the BOOKED appointments of that
      service and date, then the insert, which the uniqueness rule refuses
      when the slot is already held. */
  function Reserve(service: Service, rows: seq<AvailabilityRow>, appts: seq<Appointment>,
                   userId: string, slotId: string, k: SlotKey, endTime: string): Result<Appointment, ApiError>
    requires forall row | row in rows :: WellFormed(row.window)
    requires IsValidTime(k.startTime) && IsValidTime(endTime)
  {
    WindowsOfWellFormed(rows, k.serviceId);
    if !ValidateSlotAvailability(ServiceRef(service.id, service.durationMinutes), k.date, k.startTime, endTime,
                                 WindowsOf(rows, k.serviceId), BookedFor(appts, k.serviceId, k.date))
    then Failure(SlotTaken)
    else if TakenSlot(appts, k) then Failure(SlotTaken)
    else Success(Appointment(userId, k.serviceId, k.date, k.startTime, endTime, slotId, Booked))
  }

  /** The slot lies, in minutes, inside the first window of the date's weekday. */
  predicate InFirstWindow(ws: seq<Availability>, date: string, startTime: string, endTime: string)
    requires AllWellFormed(ws) && IsValidTime(startTime) && IsValidTime(endTime)
  {
    exists i :: 0 <= i < |ws| && OnDay(ws[i], Calendar.DayOfWeek(date))
      && (forall j :: 0 <= j < i ==> !OnDay(ws[j], Calendar.DayOfWeek(date)))
      && ToMinutes(ws[i].startTime) <= ToMinutes(startTime)
      && ToMinutes(endTime) <= ToMinutes(ws[i].endTime)
  }

  /** A BOOKED appointment of the slot's service and date overlaps it under the string test. */
  predicate OverlapsBooked(appts: seq<Appointment>, k: SlotKey, endTime: string) {
    exists a :: a in appts && a.serviceId == k.serviceId && a.date == k.date && a.status == Booked
      && Overlaps(k.startTime, endTime, IntervalOf(a))
  }

  /** The transaction fails only with the one conflict answer, and fails
      exactly when the slot is outside the first window of the weekday, a
      BOOKED appointment of the same service and date overlaps it, or one
      already holds its start. */
  lemma ReserveConflict(service: Service, rows: seq<AvailabilityRow>, appts: seq<Appointment>,
                        userId: string, slotId: string, k: SlotKey, endTime: string)
    requires forall row | row in rows :: WellFormed(row.window)
    requires IsValidTime(k.startTime) && IsValidTime(endTime)
    ensures AllWellFormed(WindowsOf(rows, k.serviceId))
    ensures var r := Reserve(service, rows, appts, userId, slotId, k, endTime);
      && (r.Failure? ==> r.error == SlotTaken)
      && (r.Success? <==>
            InFirstWindow(WindowsOf(rows, k.serviceId), k.date, k.startTime, endTime)
            && !OverlapsBooked(appts, k, endTime) && !TakenSlot(appts, k))
  {
    WindowsOfWellFormed(rows, k.serviceId);
    ValidateExactly(ServiceRef(service.id, service.durationMinutes), k.date, k.startTime, endTime,
                    WindowsOf(rows, k.serviceId), BookedFor(appts, k.serviceId, k.date));
    BookedForOverlap(appts, k.serviceId, k.date, k.startTime, endTime);
  }

  /** A slot id that is malformed, or names an impossible date or time or
      a minute other than 00 and 30, is refused with 400 before any store
      is read: the answer is the same whatever the stores and the clock hold. */
  lemma RejectedBeforeLookup(services: seq<Service>, rows: seq<AvailabilityRow>, appts: seq<Appointment>, clock: Clock,
                             services': seq<Service>, rows': seq<AvailabilityRow>, appts': seq<Appointment>, clock': Clock,
                             userId: string, slotId: string)
    requires forall row | row in rows :: WellFormed(row.window)
    requires forall row | row in rows' :: WellFormed(row.window)
    requires MissingPiece(ParseSlotId(slotId)) || BadDateOrTime(ParseSlotId(slotId))
    ensures BookingOutcome(services, rows, appts, clock, userId, slotId)
         == BookingOutcome(services', rows', appts', clock', userId, slotId)
    ensures BookingOutcome(services, rows, appts, clock, userId, slotId).Failure?
    ensures StatusOf(BookingOutcome(services, rows, appts, clock, userId, slotId).error) == 400
  {
  }

  /** The provider of the named service is refused with 403, whatever the
      availability, the appointments and the clock say. */
  lemma ProviderCannotBook(services: seq<Service>, rows: seq<AvailabilityRow>, appts: seq<Appointment>, clock: Clock,
                           rows': seq<AvailabilityRow>, appts': seq<Appointment>, clock': Clock,
                           slotId: string, service: Service)
    requires forall row | row in rows :: WellFormed(row.window)
    requires forall row | row in rows' :: WellFormed(row.window)
    requires !MissingPiece(ParseSlotId(slotId)) && !BadDateOrTime(ParseSlotId(slotId))
    requires FindService(services, ParseSlotId(slotId).serviceId) == Some(service)
    ensures BookingOutcome(services, rows, appts, clock, service.providerId, slotId)
         == BookingOutcome(services, rows', appts', clock', service.providerId, slotId)
    ensures BookingOutcome(services, rows, appts, clock, service.providerId, slotId)
         == Failure(Error(403, "Service Provider cannot book their own service"))
  {
  }

  /** A well-formed slot id that names no stored service is refused with
      404, whatever the availability, the appointments and the clock say. */
  lemma UnknownServiceNotFound(services: seq<Service>, rows: seq<AvailabilityRow>, appts: seq<Appointment>, clock: Clock,
                               rows': seq<AvailabilityRow>, appts': seq<Appointment>, clock': Clock,
                               userId: string, slotId: string)
    requires forall row | row in rows :: WellFormed(row.window)
    requires forall row | row in rows' :: WellFormed(row.window)
    requires !MissingPiece(ParseSlotId(slotId)) && !BadDateOrTime(ParseSlotId(slotId))
    requires forall s | s in services :: s.id != ParseSlotId(slotId).serviceId
    ensures BookingOutcome(services, rows, appts, clock, userId, slotId)
         == BookingOutcome(services, rows', appts', clock', userId, slotId)
    ensures BookingOutcome(services, rows, appts, clock, userId, slotId) == Failure(Error(404, "Service not found"))
  {
  }

  /** A service whose stored duration is not 30, 60, 90 or 120 minutes is
      refused to anyone but its provider with 400, whatever the
      availability, the appointments and the clock say. */
  lemma BadDurationRefused(services: seq<Service>, rows: seq<AvailabilityRow>, appts: seq<Appointment>, clock: Clock,
                           rows': seq<AvailabilityRow>, appts': seq<Appointment>, clock': Clock,
                           userId: string, slotId: string, service: Service)
    requires forall row | row in rows :: WellFormed(row.window)
    requires forall row | row in rows' :: WellFormed(row.window)
    requires !MissingPiece(ParseSlotId(slotId)) && !BadDateOrTime(ParseSlotId(slotId))
    requires FindService(services, ParseSlotId(slotId).serviceId) == Some(service)
    requires service.providerId != userId && service.durationMinutes !in {30, 60, 90, 120}
    ensures BookingOutcome(services, rows, appts, clock, userId, slotId)
         == BookingOutcome(services, rows', appts', clock', userId, slotId)
    ensures BookingOutcome(services, rows, appts, clock, userId, slotId) == Failure(Error(400, "Invalid service duration"))
  {
    DurationValues(service.durationMinutes);
  }

  /** A slot whose date is before today, or whose moment has passed, is
      refused with 400 before the transaction reads the availability or the
      appointments: the answer is the same whatever they hold. */
  lemma PastRefused(services: seq<Service>, rows: seq<AvailabilityRow>, appts: seq<Appointment>, clock: Clock,
                    rows': seq<AvailabilityRow>, appts': seq<Appointment>,
                    userId: string, slotId: string, service: Service)
    requires forall row | row in rows :: WellFormed(row.window)
    requires forall row | row in rows' :: WellFormed(row.window)
    requires !MissingPiece(ParseSlotId(slotId)) && !BadDateOrTime(ParseSlotId(slotId))
    requires FindService(services, ParseSlotId(slotId).serviceId) == Some(service)
    requires service.providerId != userId && DurationValid(service.durationMinutes)
    requires clock.dateBeforeToday(ParseSlotId(slotId).date)
          || clock.instantPassed(ParseSlotId(slotId).date, ParseSlotId(slotId).startTime)
    ensures BookingOutcome(services, rows, appts, clock, userId, slotId)
         == BookingOutcome(services, rows', appts', clock, userId, slotId)
    ensures BookingOutcome(services, rows, appts, clock, userId, slotId) == Failure(Error(400, "Cannot book past dates"))
  {
  }

  /** A request that gets past the format, lookup, provider, duration and
      past-date guards ends in the transaction, with the end `addMinutes`
      gives. */
  lemma BookingReachesReserve(services: seq<Service>, rows: seq<AvailabilityRow>, appts: seq<Appointment>, clock: Clock,
                              userId: string, slotId: string, service: Service)
    requires forall row | row in rows :: WellFormed(row.window)
    requires !MissingPiece(ParseSlotId(slotId)) && !BadDateOrTime(ParseSlotId(slotId))
    requires FindService(services, ParseSlotId(slotId).serviceId) == Some(service)
    requires service.providerId != userId && DurationValid(service.durationMinutes)
    requires !InPast(clock, ParseSlotId(slotId))
    ensures IsValidTime(AddMinutes(ParseSlotId(slotId).startTime, service.durationMinutes))
    ensures BookingOutcome(services, rows, appts, clock, userId, slotId)
         == Reserve(service, rows, appts, userId, slotId, ParseSlotId(slotId),
                    AddMinutes(ParseSlotId(slotId).startTime, service.durationMinutes))
  {
    AddMinutesWraps(ParseSlotId(slotId).startTime, service.durationMinutes);
  }

  /** A stored booking came through every guard: it is BOOKED, belongs to
      the caller, keeps the slot id verbatim and the three parts it names,
      starts on 00 or 30 of a valid time, and ends where `addMinutes` puts
      the service's 30, 60, 90 or 120 minutes; the service exists and the
      caller is not its provider; the moment has not passed; the slot lies
      inside the first window of its weekday; and no BOOKED appointment of
      that service and date overlaps it or already holds its start. */
  lemma BookingSucceeds(services: seq<Service>, rows: seq<AvailabilityRow>, appts: seq<Appointment>, clock: Clock,
                        userId: string, slotId: string)
    requires forall row | row in rows :: WellFormed(row.window)
    requires BookingOutcome(services, rows, appts, clock, userId, slotId).Success?
    ensures var k := ParseSlotId(slotId);
      var a := BookingOutcome(services, rows, appts, clock, userId, slotId).value;
      && a.status == Booked && a.userId == userId && a.slotId == slotId && KeyOf(a) == k
      && IsValidDate(a.date) && IsValidSlotMinute(a.startTime)
      && FindService(services, a.serviceId).Some?
      && FindService(services, a.serviceId).value.providerId != userId
      && FindService(services, a.serviceId).value.durationMinutes in {30, 60, 90, 120}
      && a.endTime == AddMinutes(a.startTime, FindService(services, a.serviceId).value.durationMinutes)
      && !InPast(clock, k)
      && IsValidTime(a.endTime) && AllWellFormed(WindowsOf(rows, a.serviceId))
      && InFirstWindow(WindowsOf(rows, a.serviceId), a.date, a.startTime, a.endTime)
      && !OverlapsBooked(appts, k, a.endTime)
      && !TakenSlot(appts, k)
  {
    var k := ParseSlotId(slotId);
    var service := FindService(services, k.serviceId).value;
    DurationValues(service.durationMinutes);
    BookingReachesReserve(services, rows, appts, clock, userId, slotId, service);
    ReserveConflict(service, rows, appts, userId, slotId, k, AddMinutes(k.startTime, service.durationMinutes));
  }

  /** No two BOOKED appointments hold the same service, date and start. */
  predicate UniqueBooked(appts: seq<Appointment>) {
    forall i, j :: 0 <= i < j < |appts| && appts[i].status == Booked && appts[j].status == Booked ==>
      KeyOf(appts[i]) != KeyOf(appts[j])
  }

  /** A successful booking keeps BOOKED slots unique. */
  lemma BookingKeepsUnique(services: seq<Service>, rows: seq<AvailabilityRow>, appts: seq<Appointment>, clock: Clock,
                           userId: string, slotId: string)
    requires forall row | row in rows :: WellFormed(row.window)
    requires UniqueBooked(appts)
    requires BookingOutcome(services, rows, appts, clock, userId, slotId).Success?
    ensures UniqueBooked(appts + [BookingOutcome(services, rows, appts, clock, userId, slotId).value])
  {
    var a := BookingOutcome(services, rows, appts, clock, userId, slotId).value;
    var all := appts + [a];
    assert KeyOf(a) == ParseSlotId(slotId);
    forall i, j | 0 <= i < j < |all| && all[i].status == Booked && all[j].status == Booked
      ensures KeyOf(all[i]) != KeyOf(all[j])
    {
      if j == |appts| {
        assert all[i] == appts[i];
      } else {
        assert all[i] == appts[i] && all[j] == appts[j];
      }
    }
  }

  /** The appointment table, as `bookAppointment` changes it. */
  class AppointmentStore {
    var appointments: seq<Appointment>

    ghost predicate Valid()
      reads this
    {
      UniqueBooked(appointments)
    }

    constructor()
      ensures appointments == [] && Valid()
    {
      appointments := [];
    }

    /** `bookAppointment`: the guards in the source's order against the
        service list, the availability rows and this table; on success the
        one new BOOKED row is appended, on every failure nothing changes. */
    method BookAppointment(services: seq<Service>, rows: seq<AvailabilityRow>, clock: Clock,
                           userId: string, slotId: string) returns (r: Result<Appointment, ApiError>)
      requires Valid()
      requires forall row | row in rows :: WellFormed(row.window)
      modifies this
      ensures Valid()
      ensures r == BookingOutcome(services, rows, old(appointments), clock, userId, slotId)
      ensures appointments == if r.Success? then old(appointments) + [r.value] else old(appointments)
    {
      var parts := Split(slotId, '_');
      var serviceId := Piece(parts, 0);
      var date := Piece(parts, 1);
      var startTime := Piece(parts, 2);
      if serviceId == "" || date == "" || startTime == "" {
        return Failure(Error(400, "Invalid slotId format"));
      }
      if !IsValidDate(date) || !IsValidTime(startTime) || !IsValidSlotMinute(startTime) {
        return Failure(Error(400, "Invalid slotId time or date"));
      }
      var found := FindService(services, serviceId);
      if found.None? {
        return Failure(Error(404, "Service not found"));
      }
      var service := found.value;
      if service.providerId == userId {
        return Failure(Error(403, "Service Provider cannot book their own service"));
      }
      var durationMinutes := service.durationMinutes;
      if durationMinutes < 30 || durationMinutes > 120 || durationMinutes % 30 != 0 {
        return Failure(Error(400, "Invalid service duration"));
      }
      var endTime := AddMinutes(startTime, durationMinutes);
      if clock.dateBeforeToday(date) || clock.instantPassed(date, startTime) {
        return Failure(Error(400, "Cannot book past dates"));
      }
      var availabilities := WindowsOf(rows, serviceId);
      var booked := BookedFor(appointments, serviceId, date);
      WindowsOfWellFormed(rows, serviceId);
      AddMinutesWraps(startTime, durationMinutes);
      var isAvailable := ValidateSlotAvailability(ServiceRef(service.id, durationMinutes), date, startTime, endTime,
                                                  availabilities, booked);
      if !isAvailable {
        return Failure(SlotTaken);
      }
      if TakenSlot(appointments, SlotKey(serviceId, date, startTime)) {
        return Failure(SlotTaken);
      }
      var appointment := Appointment(userId, serviceId, date, startTime, endTime, slotId, Booked);
      r := Success(appointment);
      BookingKeepsUnique(services, rows, appointments, clock, userId, slotId);
      appointments := appointments + [appointment];
    }
  }

  /** One row of the `getMyAppointments` answer. */
  datatype AppointmentView = AppointmentView(serviceName: string, serviceType: ServiceType, date: string,
                                             startTime: string, endTime: string, status: AppointmentStatus)

  /** Every appointment's service exists (the appointment's foreign key). */
  predicate ServicesExist(services: seq<Service>, appts: seq<Appointment>) {
    forall a | a in appts :: FindService(services, a.serviceId).Some?
  }

  /** The answer row of one appointment, with its service's name and type. */
  function ViewOf(services: seq<Service>, a: Appointment): AppointmentView
    requires FindService(services, a.serviceId).Some?
  {
    var s := FindService(services, a.serviceId).value;
    AppointmentView(s.name, s.serviceType, a.date, a.startTime, a.endTime, a.status)
  }

  /** `findMany({ where: { userId } })`: the user's appointments, in store order. */
  function OfUser(appts: seq<Appointment>, userId: string): (r: seq<Appointment>)
    ensures forall a :: a in r <==> a in appts && a.userId == userId
  {
    if |appts| == 0 then []
    else
      assert appts == [appts[0]] + appts[1..];
      (if appts[0].userId == userId then [appts[0]] else []) + OfUser(appts[1..], userId)
  }

  /** The user's appointments of a non-empty store: the head if it is the
      user's, then the user's appointments of the rest. */
  lemma OfUserUnfold(appts: seq<Appointment>, userId: string)
    requires |appts| > 0
    ensures appts == [appts[0]] + appts[1..]
    ensures OfUser(appts, userId) == (if appts[0].userId == userId then [appts[0]] else []) + OfUser(appts[1..], userId)
  {
  }

  /** Keeping the head when it is the user's, and dropping it otherwise,
      carries the count of `a` over from the rest. */
  lemma CountStep(userId: string, a: Appointment, x: Appointment, rest: seq<Appointment>, all: seq<Appointment>,
                  restMine: seq<Appointment>, allMine: seq<Appointment>)
    requires all == [x] + rest
    requires allMine == (if x.userId == userId then [x] else []) + restMine
    requires multiset(restMine)[a] == if a.userId == userId then multiset(rest)[a] else 0
    ensures multiset(allMine)[a] == if a.userId == userId then multiset(all)[a] else 0
  {
    assert multiset(all) == multiset([x]) + multiset(rest);
  }

  /** The user's appointments are exactly the store's appointments of that
      user, each as often as it is stored. */
  lemma {:induction false} OfUserCounts(appts: seq<Appointment>, userId: string, a: Appointment)
    ensures multiset(OfUser(appts, userId))[a] == if a.userId == userId then multiset(appts)[a] else 0
  {
    if |appts| > 0 {
      OfUserCounts(appts[1..], userId, a);
      OfUserUnfold(appts, userId);
      CountStep(userId, a, appts[0], appts[1..], appts, OfUser(appts[1..], userId), OfUser(appts, userId));
    }
  }

  /** No appointment dated later comes before one dated earlier. */
  predicate SortedByDate(xs: seq<Appointment>) {
    forall i, j :: 0 <= i < j < |xs| ==> !StrLess(xs[j].date, xs[i].date)
  }

  /** A date not below y and y not below z: not below z. */
  lemma NotLessTrans(x: string, y: string, z: string)
    requires !StrLess(x, y) && !StrLess(y, z)
    ensures !StrLess(x, z)
  {
    if StrLess(x, z) {
      StrLessTotal(y, z);
      if StrLess(z, y) {
        StrLessTrans(x, z, y);
      }
    }
  }

  /** `a` placed before the first appointment not dated before it. */
  function InsertByDate(a: Appointment, xs: seq<Appointment>): seq<Appointment>
  {
    if |xs| == 0 || !StrLess(xs[0].date, a.date) then [a] + xs
    else [xs[0]] + InsertByDate(a, xs[1..])
  }

  /** `orderBy: { date: 'asc' }`, as an insertion sort that keeps equal
      dates in store order. */
  function SortByDate(xs: seq<Appointment>): seq<Appointment>
  {
    if |xs| == 0 then [] else InsertByDate(xs[0], SortByDate(xs[1..]))
  }

  /** Inserting adds exactly the one element. */
  lemma {:induction false} InsertByDatePerm(a: Appointment, xs: seq<Appointment>)
    ensures multiset(InsertByDate(a, xs)) == multiset(xs) + multiset{a}
    ensures forall x :: x in InsertByDate(a, xs) <==> x == a || x in xs
  {
    if |xs| > 0 && StrLess(xs[0].date, a.date) {
      InsertByDatePerm(a, xs[1..]);
      assert xs == [xs[0]] + xs[1..];
    }
  }

  lemma TailSorted(xs: seq<Appointment>)
    requires |xs| > 0 && SortedByDate(xs)
    ensures SortedByDate(xs[1..])
  {
    forall i, j | 0 <= i < j < |xs[1..]|
      ensures !StrLess(xs[1..][j].date, xs[1..][i].date)
    {
      assert xs[1..][i] == xs[i + 1] && xs[1..][j] == xs[j + 1];
    }
  }

  /** A head dated no later than anything of a sorted tail keeps the list sorted. */
  lemma ConsSorted(x: Appointment, ys: seq<Appointment>)
    requires SortedByDate(ys)
    requires forall y | y in ys :: !StrLess(y.date, x.date)
    ensures SortedByDate([x] + ys)
  {
    var r := [x] + ys;
    forall i, j | 0 <= i < j < |r|
      ensures !StrLess(r[j].date, r[i].date)
    {
      assert r[j] == ys[j - 1];
      if i > 0 {
        assert r[i] == ys[i - 1];
      }
    }
  }

  /** Everything of a sorted list is dated no earlier than its head. */
  lemma AfterHead(xs: seq<Appointment>, y: Appointment)
    requires |xs| > 0 && SortedByDate(xs) && y in xs
    ensures !StrLess(y.date, xs[0].date)
  {
    var m :| 0 <= m < |xs| && xs[m] == y;
    if m > 0 {
      assert !StrLess(xs[m].date, xs[0].date);
    } else {
      StrLessIrreflexive(y.date);
    }
  }

  /** Inserting into a date-sorted list keeps it sorted. */
  lemma {:induction false} InsertByDateSorted(a: Appointment, xs: seq<Appointment>)
    requires SortedByDate(xs)
    ensures SortedByDate(InsertByDate(a, xs))
  {
    if |xs| == 0 || !StrLess(xs[0].date, a.date) {
      forall y | y in xs
        ensures !StrLess(y.date, a.date)
      {
        AfterHead(xs, y);
        NotLessTrans(y.date, xs[0].date, a.date);
      }
      ConsSorted(a, xs);
    } else {
      var tail := InsertByDate(a, xs[1..]);
      TailSorted(xs);
      InsertByDateSorted(a, xs[1..]);
      InsertByDatePerm(a, xs[1..]);
      forall y | y in tail
        ensures !StrLess(y.date, xs[0].date)
      {
        if y == a {
          StrLessAsymmetric(xs[0].date, a.date);
        } else {
          assert y in xs;
          AfterHead(xs, y);
        }
      }
      ConsSorted(xs[0], tail);
    }
  }

  /** The date sort gives a date-sorted rearrangement of its input. */
  lemma {:induction false} SortByDateSorted(xs: seq<Appointment>)
    ensures SortedByDate(SortByDate(xs))
    ensures multiset(SortByDate(xs)) == multiset(xs)
  {
    if |xs| > 0 {
      SortByDateSorted(xs[1..]);
      InsertByDateSorted(xs[0], SortByDate(xs[1..]));
      InsertByDatePerm(xs[0], SortByDate(xs[1..]));
      assert xs == [xs[0]] + xs[1..];
    }
  }

  /** Rearrangements have the same length and the same elements. */
  lemma SameMembers(a: seq<Appointment>, b: seq<Appointment>)
    requires multiset(a) == multiset(b)
    ensures |a| == |b|
    ensures forall x :: x in a <==> x in b
  {
    assert |multiset(a)| == |multiset(b)|;
    forall x
      ensures x in a <==> x in b
    {
      assert x in a <==> x in multiset(a);
      assert x in b <==> x in multiset(b);
    }
  }

  function ViewsOf(services: seq<Service>, xs: seq<Appointment>): (r: seq<AppointmentView>)
    requires ServicesExist(services, xs)
    ensures |r| == |xs|
    ensures forall i :: 0 <= i < |xs| ==> r[i] == ViewOf(services, xs[i])
  {
    if |xs| == 0 then []
    else
      TailServicesExist(services, xs);
      var rest := ViewsOf(services, xs[1..]);
      ViewsConsIndex(services, xs, rest);
      [ViewOf(services, xs[0])] + rest
  }

  /** The services of a list's tail exist when the list's do. */
  lemma TailServicesExist(services: seq<Service>, xs: seq<Appointment>)
    requires |xs| > 0 && ServicesExist(services, xs)
    ensures ServicesExist(services, xs[1..])
  {
    assert forall a | a in xs[1..] :: a in xs;
  }

  /** The head's view in front of views of the tail are the views of the list, index by index. */
  lemma ViewsConsIndex(services: seq<Service>, xs: seq<Appointment>, rest: seq<AppointmentView>)
    requires |xs| > 0 && ServicesExist(services, xs)
    requires |rest| == |xs| - 1
    requires forall i :: 0 <= i < |rest| ==> rest[i] == ViewOf(services, xs[i + 1])
    ensures forall i :: 0 <= i < |xs| ==> ([ViewOf(services, xs[0])] + rest)[i] == ViewOf(services, xs[i])
  {
    var r := [ViewOf(services, xs[0])] + rest;
    forall i | 0 <= i < |xs|
      ensures r[i] == ViewOf(services, xs[i])
    {
      if i > 0 {
        assert r[i] == rest[i - 1];
      }
    }
  }

  /** The views of a list are the views of its members. */
  lemma ViewsOfMembers(services: seq<Service>, xs: seq<Appointment>)
    requires ServicesExist(services, xs)
    ensures forall a | a in xs :: ViewOf(services, a) in ViewsOf(services, xs)
    ensures forall v | v in ViewsOf(services, xs) :: exists a :: a in xs && v == ViewOf(services, a)
  {
    var r := ViewsOf(services, xs);
    forall a | a in xs
      ensures ViewOf(services, a) in r
    {
      var i :| 0 <= i < |xs| && xs[i] == a;
      assert r[i] == ViewOf(services, a);
    }
    forall v | v in r
      ensures exists a :: a in xs && v == ViewOf(services, a)
    {
      var i :| 0 <= i < |r| && r[i] == v;
      assert xs[i] in xs;
    }
  }

  /** The views of a list with a head are the head's view, then the rest's views. */
  lemma ConsViews(services: seq<Service>, r: seq<Appointment>)
    requires |r| > 0 && ServicesExist(services, r)
    ensures ServicesExist(services, r[1..])
    ensures ViewsOf(services, r) == [ViewOf(services, r[0])] + ViewsOf(services, r[1..])
  {
    assert forall y | y in r[1..] :: y in r;
  }

  /** Inserting past the head keeps the head in front. */
  lemma InsertLaterShape(a: Appointment, xs: seq<Appointment>)
    requires |xs| > 0 && StrLess(xs[0].date, a.date)
    ensures InsertByDate(a, xs) == [xs[0]] + InsertByDate(a, xs[1..])
  {
  }

  /** Putting the same view in front of two lists that differ by `v` in
      multiset keeps that difference. */
  lemma FrontStep(v0: AppointmentView, v: AppointmentView, ins: seq<AppointmentView>, insRest: seq<AppointmentView>,
                  vs: seq<AppointmentView>, rest: seq<AppointmentView>)
    requires ins == [v0] + insRest && vs == [v0] + rest
    requires multiset(insRest) == multiset(rest) + multiset{v}
    ensures multiset(ins) == multiset(vs) + multiset{v}
  {
  }

  /** Inserting before the head puts the appointment in front. */
  lemma InsertFirstShape(a: Appointment, xs: seq<Appointment>)
    requires |xs| == 0 || !StrLess(xs[0].date, a.date)
    ensures InsertByDate(a, xs) == [a] + xs
  {
  }

  /** An appointment put in front adds its view in front. */
  lemma InsertFirstViews(services: seq<Service>, a: Appointment, xs: seq<Appointment>, ins: seq<Appointment>)
    requires FindService(services, a.serviceId).Some? && ServicesExist(services, xs)
    requires ins == [a] + xs
    ensures ServicesExist(services, ins)
    ensures multiset(ViewsOf(services, ins)) == multiset(ViewsOf(services, xs)) + multiset{ViewOf(services, a)}
  {
    assert ins[1..] == xs;
  }

  /** Inserting past the head adds the view wherever the tail's insertion does. */
  lemma InsertLaterViews(services: seq<Service>, a: Appointment, xs: seq<Appointment>, ins: seq<Appointment>,
                         insRest: seq<Appointment>)
    requires FindService(services, a.serviceId).Some? && |xs| > 0 && ServicesExist(services, xs)
    requires ins == [xs[0]] + insRest
    requires ServicesExist(services, xs[1..]) && ServicesExist(services, insRest)
    requires multiset(ViewsOf(services, insRest)) == multiset(ViewsOf(services, xs[1..])) + multiset{ViewOf(services, a)}
    ensures ServicesExist(services, ins)
    ensures multiset(ViewsOf(services, ins)) == multiset(ViewsOf(services, xs)) + multiset{ViewOf(services, a)}
  {
    assert ServicesExist(services, ins) by {
      assert forall y | y in ins :: y == xs[0] || y in insRest;
    }
    ConsViews(services, ins);
    assert ins[1..] == insRest;
    ConsViews(services, xs);
    FrontStep(ViewOf(services, xs[0]), ViewOf(services, a), ViewsOf(services, ins), ViewsOf(services, insRest),
              ViewsOf(services, xs), ViewsOf(services, xs[1..]));
  }

  /** Inserting an appointment adds exactly its view to the views. */
  lemma {:induction false} InsertByDateViews(services: seq<Service>, a: Appointment, xs: seq<Appointment>)
    requires FindService(services, a.serviceId).Some? && ServicesExist(services, xs)
    ensures ServicesExist(services, InsertByDate(a, xs))
    ensures multiset(ViewsOf(services, InsertByDate(a, xs))) == multiset(ViewsOf(services, xs)) + multiset{ViewOf(services, a)}
  {
    if |xs| == 0 || !StrLess(xs[0].date, a.date) {
      InsertFirstShape(a, xs);
      InsertFirstViews(services, a, xs, InsertByDate(a, xs));
    } else {
      assert ServicesExist(services, xs[1..]) by {
        assert forall y | y in xs[1..] :: y in xs;
      }
      InsertByDateViews(services, a, xs[1..]);
      InsertLaterShape(a, xs);
      InsertLaterViews(services, a, xs, InsertByDate(a, xs), InsertByDate(a, xs[1..]));
    }
  }

  /** Sorting a non-empty list inserts its head into the sorted rest. */
  lemma SortUnfold(xs: seq<Appointment>)
    requires |xs| > 0
    ensures SortByDate(xs) == InsertByDate(xs[0], SortByDate(xs[1..]))
  {
  }

  /** A list that has `v` added to a rearrangement of `rest` is a
      rearrangement of `[v] + rest`. */
  lemma FrontCount(v: AppointmentView, sorted: seq<AppointmentView>, sortedRest: seq<AppointmentView>,
                   vs: seq<AppointmentView>, rest: seq<AppointmentView>)
    requires multiset(sorted) == multiset(sortedRest) + multiset{v}
    requires multiset(sortedRest) == multiset(rest) && vs == [v] + rest
    ensures multiset(sorted) == multiset(vs)
  {
  }

  /** The views of the date sort are a rearrangement of the views of its input. */
  lemma {:induction false} SortByDateViews(services: seq<Service>, xs: seq<Appointment>)
    requires ServicesExist(services, xs)
    ensures ServicesExist(services, SortByDate(xs))
    ensures multiset(ViewsOf(services, SortByDate(xs))) == multiset(ViewsOf(services, xs))
  {
    if |xs| > 0 {
      ConsViews(services, xs);
      SortByDateViews(services, xs[1..]);
      InsertByDateViews(services, xs[0], SortByDate(xs[1..]));
      SortUnfold(xs);
      FrontCount(ViewOf(services, xs[0]), ViewsOf(services, SortByDate(xs)), ViewsOf(services, SortByDate(xs[1..])),
                 ViewsOf(services, xs), ViewsOf(services, xs[1..]));
    }
  }

  /** `getMyAppointments`: the caller's appointments by ascending date, each
      with its service's name and type. */
  function GetMyAppointments(services: seq<Service>, appts: seq<Appointment>, userId: string): seq<AppointmentView>
    requires ServicesExist(services, OfUser(appts, userId))
  {
    var mine := OfUser(appts, userId);
    SortByDateSorted(mine);
    SameMembers(SortByDate(mine), mine);
    ViewsOf(services, SortByDate(mine))
  }

  /** The answer has one row per appointment of the caller and no other,
      its dates ascend, every appointment of the caller appears, and each
      row appears as often as in the unsorted views. */
  lemma GetMyAppointmentsLists(services: seq<Service>, appts: seq<Appointment>, userId: string)
    requires ServicesExist(services, OfUser(appts, userId))
    ensures var r := GetMyAppointments(services, appts, userId);
      && |r| == |OfUser(appts, userId)|
      && (forall i, j :: 0 <= i < j < |r| ==> !StrLess(r[j].date, r[i].date))
      && (forall a | a in appts && a.userId == userId :: ViewOf(services, a) in r)
      && (forall v | v in r :: exists a :: a in appts && a.userId == userId && v == ViewOf(services, a))
      && multiset(r) == multiset(ViewsOf(services, OfUser(appts, userId)))
  {
    var mine := OfUser(appts, userId);
    var sorted := SortByDate(mine);
    SortByDateSorted(mine);
    SameMembers(sorted, mine);
    var r := ViewsOf(services, sorted);
    assert r == GetMyAppointments(services, appts, userId);
    ViewsOfMembers(services, sorted);
    SortByDateViews(services, mine);
    forall i, j | 0 <= i < j < |r|
      ensures !StrLess(r[j].date, r[i].date)
    {
      assert r[i].date == sorted[i].date && r[j].date == sorted[j].date;
    }
  }
}
