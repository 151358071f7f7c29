/** The service handlers of apps/api/src/controllers/serviceController.ts:
    `setAvailability` checks a request and then appends a window to the
    availability store, `getSlots` runs its guards and then the slot
    engine, and `getServices` filters the services and projects them. */
module ServiceController {
  import opened Wrappers
  import opened Strings
  import opened Time
  import opened Slots
  import opened Records
  import opened Validators
  import Calendar

  /** The test inside `service.availabilities.some(...)`: the stored window
      is on the new window's day, and `new.start < avail.end && new.end >
      avail.start` holds on the strings. */
  predicate Clashes(w: Availability, avail: Availability) {
    avail.dayOfWeek == w.dayOfWeek && StrLess(w.startTime, avail.endTime) && StrLess(avail.startTime, w.endTime)
  }

  /** `service.availabilities.some(...)` */
  predicate HasOverlap(existing: seq<Availability>, w: Availability) {
    exists i :: 0 <= i < |existing| && Clashes(w, existing[i])
  }

  /** The clash test does not depend on which of the two windows is the new one. */
  lemma ClashesSymmetric(a: Availability, b: Availability)
    ensures Clashes(a, b) <==> Clashes(b, a)
  {
  }

  /** Windows on different days never clash, and a window that starts where
      a stored one ends, or ends where it starts, does not clash with it. */
  lemma NoClashAcrossDaysOrTouching(w: Availability, avail: Availability)
    requires WellFormed(w) && WellFormed(avail)
    ensures w.dayOfWeek != avail.dayOfWeek ==> !Clashes(w, avail)
    ensures w.startTime == avail.endTime ==> !Clashes(w, avail)
    ensures w.endTime == avail.startTime ==> !Clashes(w, avail)
  {
    StrLessIrreflexive(w.startTime);
    StrLessIrreflexive(w.endTime);
  }

  /** What `setAvailability` answers to a request: an error, or the row it stores. */
  function AvailabilityOutcome(services: seq<Service>, rows: seq<AvailabilityRow>, serviceId: string,
                               input: AvailabilityInput, providerId: string): Result<AvailabilityRow, ApiError>
  {
    if !AvailabilityInputValid(input) then Failure(ValidationError)
    else match FindService(services, serviceId)
      case None => Failure(Error(404, "Service not found"))
      case Some(service) =>
        if service.providerId != providerId then Failure(Error(403, "Service does not belong to provider"))
        else if HasOverlap(WindowsOf(rows, serviceId), WindowOf(input)) then Failure(Error(409, "Overlapping availability"))
        else Success(AvailabilityRow(serviceId, WindowOf(input)))
  }

  /** The guards of `setAvailability` in their order: the schema first, then
      a missing service (whoever the caller is), then ownership (whatever
      the window), and a stored row is always the requested window of the
      requested service. */
  lemma SetAvailabilityGuards(services: seq<Service>, rows: seq<AvailabilityRow>, serviceId: string,
                              input: AvailabilityInput, providerId: string)
    ensures !AvailabilityInputValid(input) ==>
      AvailabilityOutcome(services, rows, serviceId, input, providerId) == Failure(ValidationError)
    ensures AvailabilityInputValid(input) && (forall s | s in services :: s.id != serviceId) ==>
      AvailabilityOutcome(services, rows, serviceId, input, providerId) == Failure(Error(404, "Service not found"))
    ensures (AvailabilityInputValid(input) && FindService(services, serviceId).Some?
             && FindService(services, serviceId).value.providerId != providerId) ==>
      AvailabilityOutcome(services, rows, serviceId, input, providerId) == Failure(Error(403, "Service does not belong to provider"))
    ensures AvailabilityOutcome(services, rows, serviceId, input, providerId).Success? ==>
      && AvailabilityInputValid(input)
      && (exists s :: s in services && s.id == serviceId && s.providerId == providerId)
      && AvailabilityOutcome(services, rows, serviceId, input, providerId).value
         == AvailabilityRow(serviceId, Availability(input.dayOfWeek, input.startTime, input.endTime))
  {
  }

  /** A stored window of the service that overlaps the requested one, on
      the same day and in minutes. */
  predicate ConflictInMinutes(rows: seq<AvailabilityRow>, serviceId: string, input: AvailabilityInput)
    requires IsValidTime(input.startTime) && IsValidTime(input.endTime)
  {
    exists row | row in rows ::
      && row.serviceId == serviceId && row.window.dayOfWeek == input.dayOfWeek && WellFormed(row.window)
      && ToMinutes(input.startTime) < ToMinutes(row.window.endTime)
      && ToMinutes(row.window.startTime) < ToMinutes(input.endTime)
  }

  /** For a valid request by the owner, `setAvailability` answers 409
      exactly when a stored window of the service on the same day overlaps
      the new one in minutes, and otherwise stores the new window. */
  lemma SetAvailabilityConflict(services: seq<Service>, rows: seq<AvailabilityRow>, serviceId: string,
                                input: AvailabilityInput, providerId: string, service: Service)
    requires forall row | row in rows :: WellFormed(row.window)
    requires AvailabilityInputValid(input)
    requires FindService(services, serviceId) == Some(service) && service.providerId == providerId
    ensures IsValidTime(input.startTime) && IsValidTime(input.endTime)
    ensures AvailabilityOutcome(services, rows, serviceId, input, providerId)
      == if ConflictInMinutes(rows, serviceId, input) then Failure(Error(409, "Overlapping availability"))
         else Success(AvailabilityRow(serviceId, WindowOf(input)))
  {
    AvailabilityInputOrdered(input);
    if HasOverlap(WindowsOf(rows, serviceId), WindowOf(input)) {
      OverlapIsConflict(rows, serviceId, input);
    }
    if ConflictInMinutes(rows, serviceId, input) {
      ConflictIsOverlap(rows, serviceId, input);
    }
  }

  /** A string clash with a stored window of the service is a clash in minutes. */
  lemma OverlapIsConflict(rows: seq<AvailabilityRow>, serviceId: string, input: AvailabilityInput)
    requires forall row | row in rows :: WellFormed(row.window)
    requires AvailabilityInputValid(input)
    requires HasOverlap(WindowsOf(rows, serviceId), WindowOf(input))
    ensures ConflictInMinutes(rows, serviceId, input)
  {
    var w := WindowOf(input);
    var ws := WindowsOf(rows, serviceId);
    var i :| 0 <= i < |ws| && Clashes(w, ws[i]);
    WindowsOfMembers(rows, serviceId, ws[i]);
    var row := AvailabilityRow(serviceId, ws[i]);
    StrLessIsTimeOrder(w.startTime, row.window.endTime);
    StrLessIsTimeOrder(row.window.startTime, w.endTime);
  }

  /** A clash in minutes with a stored window of the service is a string clash. */
  lemma ConflictIsOverlap(rows: seq<AvailabilityRow>, serviceId: string, input: AvailabilityInput)
    requires AvailabilityInputValid(input)
    requires ConflictInMinutes(rows, serviceId, input)
    ensures HasOverlap(WindowsOf(rows, serviceId), WindowOf(input))
  {
    var w := WindowOf(input);
    var ws := WindowsOf(rows, serviceId);
    var row :| row in rows && row.serviceId == serviceId && row.window.dayOfWeek == input.dayOfWeek && WellFormed(row.window)
      && ToMinutes(input.startTime) < ToMinutes(row.window.endTime)
      && ToMinutes(row.window.startTime) < ToMinutes(input.endTime);
    assert row == AvailabilityRow(serviceId, row.window);
    WindowsOfMembers(rows, serviceId, row.window);
    var i :| 0 <= i < |ws| && ws[i] == row.window;
    StrLessIsTimeOrder(w.startTime, row.window.endTime);
    StrLessIsTimeOrder(row.window.startTime, w.endTime);
    assert Clashes(w, ws[i]);
  }

  /** No two windows of the list on the same day clash. */
  predicate DayDisjoint(ws: seq<Availability>) {
    forall i, j :: 0 <= i < j < |ws| ==> !Clashes(ws[j], ws[i])
  }

  /** A successful `setAvailability` keeps the windows of every service
      pairwise free of clashes on each day: the windows of the requested
      service gain the new one, which clashes with none of them, and the
      windows of every other service are unchanged. */
  lemma SetAvailabilityKeepsDisjoint(services: seq<Service>, rows: seq<AvailabilityRow>, serviceId: string,
                                     input: AvailabilityInput, providerId: string, sid: string)
    requires DayDisjoint(WindowsOf(rows, sid))
    requires AvailabilityOutcome(services, rows, serviceId, input, providerId).Success?
    ensures sid != serviceId ==>
      WindowsOf(rows + [AvailabilityOutcome(services, rows, serviceId, input, providerId).value], sid) == WindowsOf(rows, sid)
    ensures DayDisjoint(WindowsOf(rows + [AvailabilityOutcome(services, rows, serviceId, input, providerId).value], sid))
  {
    var row := AvailabilityOutcome(services, rows, serviceId, input, providerId).value;
    var old_ := WindowsOf(rows, sid);
    WindowsOfSnoc(rows, row, sid);
    if sid == serviceId {
      var ws := old_ + [row.window];
      forall i, j | 0 <= i < j < |ws|
        ensures !Clashes(ws[j], ws[i])
      {
        if j < |old_| {
          assert ws[j] == old_[j] && ws[i] == old_[i];
        } else {
          assert ws[j] == row.window && ws[i] == old_[i];
        }
      }
    }
  }

  /** The availability store: the rows `prisma.availability.create` writes. */
  class AvailabilityStore {
    var rows: seq<AvailabilityRow>

    /** Every stored window passed the availability schema, and the windows
        of each service are pairwise free of clashes on each day. */
    ghost predicate Valid()
      reads this
    {
      && (forall row | row in rows :: AvailabilityInputValid(AvailabilityInput(row.window.dayOfWeek, row.window.startTime, row.window.endTime)))
      && (forall sid :: DayDisjoint(WindowsOf(rows, sid)))
    }

    constructor()
      ensures rows == [] && Valid()
    {
      rows := [];
    }

    /** Stored windows are well formed. */
    lemma RowsWellFormed()
      requires Valid()
      ensures forall row | row in rows :: WellFormed(row.window)
    {
      forall row | row in rows
        ensures WellFormed(row.window)
      {
        AvailabilityInputOrdered(AvailabilityInput(row.window.dayOfWeek, row.window.startTime, row.window.endTime));
      }
    }

    /** `setAvailability`: the schema, the lookup, ownership and the overlap
        test, then one row appended. On every error the store is unchanged. */
    method SetAvailability(services: seq<Service>, serviceId: string, input: AvailabilityInput, providerId: string)
      returns (r: Result<AvailabilityRow, ApiError>)
      requires Valid()
      modifies this
      ensures Valid()
      ensures r == AvailabilityOutcome(services, old(rows), serviceId, input, providerId)
      ensures rows == if r.Success? then old(rows) + [r.value] else old(rows)
    {
      if !AvailabilityInputValid(input) {
        return Failure(ValidationError);
      }
      var service := FindService(services, serviceId);
      if service.None? {
        return Failure(Error(404, "Service not found"));
      }
      if service.value.providerId != providerId {
        return Failure(Error(403, "Service does not belong to provider"));
      }
      var hasOverlap := HasOverlap(WindowsOf(rows, serviceId), WindowOf(input));
      if hasOverlap {
        return Failure(Error(409, "Overlapping availability"));
      }
      var row := AvailabilityRow(serviceId, WindowOf(input));
      forall sid
        ensures DayDisjoint(WindowsOf(rows + [row], sid))
      {
        SetAvailabilityKeepsDisjoint(services, rows, serviceId, input, providerId, sid);
      }
      rows := rows + [row];
      r := Success(row);
    }

    /** `getSlots`; a zero or negative stored duration would keep the slot
        loop from ending, hence the positive durations required. */
    method GetSlots(services: seq<Service>, appointments: seq<Appointment>, clock: Clock, serviceId: string, date: string)
      returns (r: Result<seq<Slot>, ApiError>)
      requires Valid()
      requires forall s | s in services :: s.durationMinutes > 0
      ensures forall row | row in rows :: WellFormed(row.window)
      ensures r == SlotsOutcome(services, rows, appointments, clock, serviceId, date)
    {
      RowsWellFormed();
      if !DateQueryValid(date) {
        return Failure(ValidationError);
      }
      var service := FindService(services, serviceId);
      if service.None? {
        return Failure(Error(404, "Service not found"));
      }
      if clock.dateBeforeToday(date) {
        return Failure(Error(400, "Cannot book past dates"));
      }
      var booked := BookedFor(appointments, serviceId, date);
      var availabilities := WindowsOf(rows, serviceId);
      WindowsOfWellFormed(rows, serviceId);
      var slots := GenerateSlots(ServiceRef(service.value.id, service.value.durationMinutes), date, availabilities, booked);
      r := Success(slots);
    }
  }

  /** What `getSlots` answers: the date schema, then a missing service, then
      a date before today, and otherwise the slot engine run on the
      service's windows and its BOOKED appointments of that date. */
  function SlotsOutcome(services: seq<Service>, rows: seq<AvailabilityRow>, appointments: seq<Appointment>,
                        clock: Clock, serviceId: string, date: string): Result<seq<Slot>, ApiError>
    requires forall row | row in rows :: WellFormed(row.window)
    requires forall s | s in services :: s.durationMinutes > 0
  {
    if !DateQueryValid(date) then Failure(ValidationError)
    else match FindService(services, serviceId)
      case None => Failure(Error(404, "Service not found"))
      case Some(service) =>
        if clock.dateBeforeToday(date) then Failure(Error(400, "Cannot book past dates"))
        else
          WindowsOfWellFormed(rows, serviceId);
          Success(GeneratedSlots(ServiceRef(service.id, service.durationMinutes), date,
                                 WindowsOf(rows, serviceId), BookedFor(appointments, serviceId, date)))
  }

  /** The guards of `getSlots` in their order: a malformed date before the
      lookup, a missing service before the clock. */
  lemma GetSlotsGuards(services: seq<Service>, rows: seq<AvailabilityRow>, appointments: seq<Appointment>,
                       clock: Clock, serviceId: string, date: string)
    requires forall row | row in rows :: WellFormed(row.window)
    requires forall s | s in services :: s.durationMinutes > 0
    ensures !IsValidDate(date) ==> SlotsOutcome(services, rows, appointments, clock, serviceId, date) == Failure(ValidationError)
    ensures IsValidDate(date) && (forall s | s in services :: s.id != serviceId) ==>
      SlotsOutcome(services, rows, appointments, clock, serviceId, date) == Failure(Error(404, "Service not found"))
    ensures IsValidDate(date) && FindService(services, serviceId).Some? && clock.dateBeforeToday(date) ==>
      SlotsOutcome(services, rows, appointments, clock, serviceId, date) == Failure(Error(400, "Cannot book past dates"))
    ensures SlotsOutcome(services, rows, appointments, clock, serviceId, date).Success? ==>
      IsValidDate(date) && FindService(services, serviceId).Some? && !clock.dateBeforeToday(date)
  {
  }

  /** Every slot `getSlots` offers lies in a stored window of the service on
      the date's weekday, lasts the service's duration, is named after the
      service, the date and its start, and overlaps no BOOKED appointment of
      that service and date. */
  lemma GetSlotsOffers(services: seq<Service>, rows: seq<AvailabilityRow>, appointments: seq<Appointment>,
                       clock: Clock, serviceId: string, date: string, s: Slot)
    requires forall row | row in rows :: WellFormed(row.window)
    requires forall sv | sv in services :: sv.durationMinutes > 0
    requires SlotsOutcome(services, rows, appointments, clock, serviceId, date).Success?
    requires s in SlotsOutcome(services, rows, appointments, clock, serviceId, date).value
    ensures IsValidTime(s.startTime) && IsValidTime(s.endTime)
    ensures s.slotId == SlotId(serviceId, date, s.startTime)
    ensures ToMinutes(s.endTime) == ToMinutes(s.startTime) + FindService(services, serviceId).value.durationMinutes
    ensures exists w :: (AvailabilityRow(serviceId, w) in rows && OnDay(w, Calendar.DayOfWeek(date))
      && IsValidTime(w.startTime) && IsValidTime(w.endTime)
      && ToMinutes(w.startTime) <= ToMinutes(s.startTime) && ToMinutes(s.endTime) <= ToMinutes(w.endTime))
    ensures forall a | a in appointments && a.serviceId == serviceId && a.date == date && a.status == Booked ::
      !Overlaps(s.startTime, s.endTime, IntervalOf(a))
  {
    var service := FindService(services, serviceId).value;
    var svc := ServiceRef(service.id, service.durationMinutes);
    var ws := WindowsOf(rows, serviceId);
    WindowsOfWellFormed(rows, serviceId);
    GeneratedSlotsFit(svc, date, ws, BookedFor(appointments, serviceId, date));
    var w :| w in ws && OnDay(w, Calendar.DayOfWeek(date))
      && ToMinutes(w.startTime) <= ToMinutes(s.startTime) && ToMinutes(s.endTime) <= ToMinutes(w.endTime);
    WindowsOfMembers(rows, serviceId, w);
    BookedForOverlap(appointments, serviceId, date, s.startTime, s.endTime);
  }

  /** Cancelled appointments, and appointments of other services or dates,
      change nothing in what `getSlots` answers. */
  lemma GetSlotsIgnoresOthers(services: seq<Service>, rows: seq<AvailabilityRow>, appointments: seq<Appointment>,
                              clock: Clock, serviceId: string, date: string, a: Appointment)
    requires forall row | row in rows :: WellFormed(row.window)
    requires forall s | s in services :: s.durationMinutes > 0
    requires a.status == Cancelled || a.serviceId != serviceId || a.date != date
    ensures SlotsOutcome(services, rows, [a] + appointments, clock, serviceId, date)
      == SlotsOutcome(services, rows, appointments, clock, serviceId, date)
  {
    BookedForSkips(a, appointments, serviceId, date);
  }

  lemma BookedForSkips(a: Appointment, appointments: seq<Appointment>, serviceId: string, date: string)
    requires a.status == Cancelled || a.serviceId != serviceId || a.date != date
    ensures BookedFor([a] + appointments, serviceId, date) == BookedFor(appointments, serviceId, date)
  {
    assert ([a] + appointments)[1..] == appointments;
  }

  /** One service as `getServices` lists it. */
  datatype ServiceView = ServiceView(id: string, name: string, serviceType: ServiceType, durationMinutes: int, providerName: string)

  /** The projection of `services.map(...)`; the provider's name comes from
      the provider relation, given here as a function of the provider id. */
  function ViewOf(s: Service, providerName: string -> string): ServiceView {
    ServiceView(s.id, s.name, s.serviceType, s.durationMinutes, providerName(s.providerId))
  }

  function ViewsOf(services: seq<Service>, providerName: string -> string): (r: seq<ServiceView>)
    ensures |r| == |services|
    ensures forall i :: 0 <= i < |services| ==> r[i] == ViewOf(services[i], providerName)
  {
    if |services| == 0 then [] else [ViewOf(services[0], providerName)] + ViewsOf(services[1..], providerName)
  }

  /** The projection lists exactly the views of the services given. */
  lemma {:induction false} ViewsOfMembers(services: seq<Service>, providerName: string -> string, v: ServiceView)
    ensures v in ViewsOf(services, providerName) <==> exists s :: s in services && v == ViewOf(s, providerName)
  {
    if |services| > 0 {
      ViewsOfMembers(services[1..], providerName, v);
      assert services == [services[0]] + services[1..];
    }
  }

  /** `where: type ? { type } : undefined`: the services of the given type, or all. */
  function OfType(services: seq<Service>, t: Option<ServiceType>): seq<Service>
  {
    if |services| == 0 then []
    else (if t.None? || services[0].serviceType == t.value then [services[0]] else []) + OfType(services[1..], t)
  }

  /** The filter keeps exactly the services of the type, in order, and keeps all without a type. */
  lemma {:induction false} OfTypeMembers(services: seq<Service>, t: Option<ServiceType>)
    ensures forall s :: s in OfType(services, t) <==> s in services && (t.None? || s.serviceType == t.value)
    ensures t.None? ==> OfType(services, t) == services
  {
    if |services| > 0 {
      OfTypeMembers(services[1..], t);
      assert services == [services[0]] + services[1..];
    }
  }

  /** `getServices`: a non-empty type outside the enumeration is refused;
      otherwise the services of that type, or all services when the type is
      absent or empty, each with its provider's name. */
  function GetServices(services: seq<Service>, providerName: string -> string, typeQuery: Option<string>)
    : Result<seq<ServiceView>, ApiError>
  {
    if typeQuery.Some? && typeQuery.value != "" && ParseServiceType(typeQuery.value).None? then
      Failure(Error(400, "Invalid service type"))
    else
      var filter := if typeQuery.Some? && typeQuery.value != "" then ParseServiceType(typeQuery.value) else None;
      Success(ViewsOf(OfType(services, filter), providerName))
  }

  /** `getServices` fails exactly for a non-empty type that names no
      service type, and then with a 400. */
  lemma GetServicesRefuses(services: seq<Service>, providerName: string -> string, typeQuery: Option<string>)
    ensures GetServices(services, providerName, typeQuery).Failure? <==>
      typeQuery.Some? && typeQuery.value != "" && (forall t :: ServiceTypeName(t) != typeQuery.value)
    ensures GetServices(services, providerName, typeQuery).Failure? ==>
      GetServices(services, providerName, typeQuery).error == Error(400, "Invalid service type")
  {
    if typeQuery.Some? {
      ParseServiceTypeExactly(typeQuery.value);
    }
  }

  /** Without a type, or with the empty one, every service is listed, in order. */
  lemma GetServicesAll(services: seq<Service>, providerName: string -> string, typeQuery: Option<string>)
    requires typeQuery.None? || typeQuery == Some("")
    ensures GetServices(services, providerName, typeQuery) == Success(ViewsOf(services, providerName))
  {
    OfTypeMembers(services, None);
  }

  /** With a type of the enumeration, exactly the services whose type is
      spelled that way are listed. */
  lemma GetServicesOfType(services: seq<Service>, providerName: string -> string, typeName: string, v: ServiceView)
    requires ParseServiceType(typeName).Some?
    ensures GetServices(services, providerName, Some(typeName)).Success?
    ensures v in GetServices(services, providerName, Some(typeName)).value <==>
      exists s :: s in services && v == ViewOf(s, providerName) && ServiceTypeName(s.serviceType) == typeName
  {
    var t := ParseServiceType(typeName).value;
    assert typeName != "" by {
      ParseServiceTypeExactly(typeName);
    }
    var kept := OfType(services, Some(t));
    assert GetServices(services, providerName, Some(typeName)) == Success(ViewsOf(kept, providerName));
    OfTypeMembers(services, Some(t));
    ViewsOfMembers(kept, providerName, v);
    forall s | s in services
      ensures s.serviceType == t <==> ServiceTypeName(s.serviceType) == typeName
    {
      ParseServiceTypeExactly(ServiceTypeName(s.serviceType));
    }
  }
}
