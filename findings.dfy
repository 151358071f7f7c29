/** Two places where `validateSlotAvailability` (apps/api/src/utils/slots.ts)
    does not check what the slot generator promises: it looks at the first
    window of the weekday only, and it compares an end time that
    `addMinutes` has wrapped past midnight. Each is shown on a concrete
    input against the code as written (the second also through the
    booking handler), and a corrected check is given with the property it
    was meant to have. */
module Findings {
  import opened Wrappers
  import opened Strings
  import opened Time
  import opened Slots
  import opened Records
  import opened AppointmentController
  import opened Validators
  import Calendar

  /** The intended check: some window of the weekday, not only the first,
      holds the whole slot from its start to start + duration, counted in
      minutes without wrapping past midnight, and no appointment overlaps
      the slot whose end `addMinutes` computes. */
  predicate ValidateSlotCorrected(svc: ServiceRef, date: string, startTime: string, ws: seq<Availability>, appts: seq<Interval>)
    requires svc.durationMinutes > 0 && IsValidTime(startTime) && AllWellFormed(ws)
  {
    var s := ToMinutes(startTime);
    && (exists i :: 0 <= i < |ws| && OnDay(ws[i], Calendar.DayOfWeek(date))
          && ToMinutes(ws[i].startTime) <= s && s + svc.durationMinutes <= ToMinutes(ws[i].endTime))
    && !IsBooked(startTime, AddMinutes(startTime, svc.durationMinutes), appts)
  }

  lemma WellFormedPair(a: Availability, b: Availability)
    requires WellFormed(a) && WellFormed(b)
    ensures AllWellFormed([a]) && AllWellFormed([a, b])
  {
  }

  /** Every slot `generateSlots` offers, from whichever window of the
      weekday, passes the corrected check against the same appointments,
      and its end is what the booking flow computes. */
  lemma CorrectedAcceptsGenerated(svc: ServiceRef, date: string, ws: seq<Availability>, appts: seq<Interval>, s: Slot)
    requires svc.durationMinutes > 0 && AllWellFormed(ws)
    requires s in GeneratedSlots(svc, date, ws, appts)
    ensures IsValidTime(s.startTime)
    ensures AddMinutes(s.startTime, svc.durationMinutes) == s.endTime
    ensures ValidateSlotCorrected(svc, date, s.startTime, ws, appts)
  {
    GeneratedSlotsFit(svc, date, ws, appts);
    GeneratedEndIsAddMinutes(svc, s);
    var w :| w in ws && OnDay(w, Calendar.DayOfWeek(date))
      && ToMinutes(w.startTime) <= ToMinutes(s.startTime) && ToMinutes(s.endTime) <= ToMinutes(w.endTime);
    var i :| 0 <= i < |ws| && ws[i] == w;
  }

  /** What the corrected check guarantees about an accepted slot: its end
      does not wrap, and in minutes it overlaps no appointment with valid
      times. So two bookings accepted one after the other never overlap. */
  lemma CorrectedSound(svc: ServiceRef, date: string, startTime: string, ws: seq<Availability>, appts: seq<Interval>)
    requires svc.durationMinutes > 0 && IsValidTime(startTime) && AllWellFormed(ws)
    requires ValidateSlotCorrected(svc, date, startTime, ws, appts)
    requires forall a | a in appts :: IsValidTime(a.startTime) && IsValidTime(a.endTime)
    ensures IsValidTime(AddMinutes(startTime, svc.durationMinutes))
    ensures ToMinutes(AddMinutes(startTime, svc.durationMinutes)) == ToMinutes(startTime) + svc.durationMinutes
    ensures forall a | a in appts ::
      !(ToMinutes(startTime) < ToMinutes(a.endTime) && ToMinutes(a.startTime) < ToMinutes(startTime) + svc.durationMinutes)
  {
    var d := svc.durationMinutes;
    var endTime := AddMinutes(startTime, d);
    var i :| 0 <= i < |ws| && OnDay(ws[i], Calendar.DayOfWeek(date))
      && ToMinutes(ws[i].startTime) <= ToMinutes(startTime) && ToMinutes(startTime) + d <= ToMinutes(ws[i].endTime);
    NoWrap(startTime, d);
    forall a | a in appts
      ensures !(ToMinutes(startTime) < ToMinutes(a.endTime) && ToMinutes(a.startTime) < ToMinutes(startTime) + d)
    {
      var j :| 0 <= j < |appts| && appts[j] == a;
      assert !Overlaps(startTime, endTime, appts[j]);
      StrLessIsTimeOrder(startTime, a.endTime);
      StrLessIsTimeOrder(a.startTime, endTime);
    }
  }

  /** Where the end does not wrap, the check as written implies the
      corrected one: the correction refuses only wrapped slots and accepts
      in addition slots of later windows of the weekday. */
  lemma AsWrittenImpliesCorrected(svc: ServiceRef, date: string, startTime: string, ws: seq<Availability>, appts: seq<Interval>)
    requires svc.durationMinutes > 0 && IsValidTime(startTime) && AllWellFormed(ws)
    requires ToMinutes(startTime) + svc.durationMinutes < MinutesPerDay
    ensures IsValidTime(AddMinutes(startTime, svc.durationMinutes))
    ensures ValidateSlotAvailability(svc, date, startTime, AddMinutes(startTime, svc.durationMinutes), ws, appts)
      ==> ValidateSlotCorrected(svc, date, startTime, ws, appts)
  {
    var endTime := AddMinutes(startTime, svc.durationMinutes);
    NoWrap(startTime, svc.durationMinutes);
    ValidateExactly(svc, date, startTime, endTime, ws, appts);
  }

  /** Finding 1 in general: a slot that `generateSlots` emits from a later
      window of the weekday and that runs past the end of the first window
      of the weekday is refused by `validateSlotAvailability`, and the
      corrected check accepts it. */
  lemma LaterWindowSlotRejected(svc: ServiceRef, date: string, ws: seq<Availability>, appts: seq<Interval>, i: nat, k: nat)
    requires svc.durationMinutes > 0 && AllWellFormed(ws)
    requires i < |ws| && OnDay(ws[i], Calendar.DayOfWeek(date))
    requires StartOf(ToMinutes(ws[i].startTime), svc.durationMinutes, k) + svc.durationMinutes <= ToMinutes(ws[i].endTime)
    requires var c := Candidate(svc, date, StartOf(ToMinutes(ws[i].startTime), svc.durationMinutes, k));
      !IsBooked(c.startTime, c.endTime, appts)
    requires var f := FirstOnDay(ws, Calendar.DayOfWeek(date));
      f < |ws| && ToMinutes(ws[f].endTime) < StartOf(ToMinutes(ws[i].startTime), svc.durationMinutes, k) + svc.durationMinutes
    ensures var c := Candidate(svc, date, StartOf(ToMinutes(ws[i].startTime), svc.durationMinutes, k));
      && c in GeneratedSlots(svc, date, ws, appts)
      && IsValidTime(c.startTime) && IsValidTime(c.endTime)
      && !ValidateSlotAvailability(svc, date, c.startTime, c.endTime, ws, appts)
      && ValidateSlotCorrected(svc, date, c.startTime, ws, appts)
  {
    var d := svc.durationMinutes;
    var m := StartOf(ToMinutes(ws[i].startTime), d, k);
    var c := Candidate(svc, date, m);
    CandidateFacts(svc, date, m);
    assert ws[i] in ws;
    GeneratedComplete(svc, date, ws, appts, ws[i], k);
    CorrectedAcceptsGenerated(svc, date, ws, appts, c);
    FirstOverrunRefused(svc, date, c.startTime, c.endTime, ws, appts);
  }

  /** A pair that ends after the first window of the weekday is refused. */
  lemma FirstOverrunRefused(svc: ServiceRef, date: string, startTime: string, endTime: string,
                            ws: seq<Availability>, appts: seq<Interval>)
    requires IsValidTime(startTime) && IsValidTime(endTime) && AllWellFormed(ws)
    requires var f := FirstOnDay(ws, Calendar.DayOfWeek(date));
      f < |ws| && ToMinutes(ws[f].endTime) < ToMinutes(endTime)
    ensures !ValidateSlotAvailability(svc, date, startTime, endTime, ws, appts)
  {
  }

  /** Finding 1, as written. Two Monday windows, 09:00-10:00 and
      14:00-15:00, and a 30-minute service: on Monday 2025-03-10
      `generateSlots` offers the slot starting 14:00, and
      `validateSlotAvailability` refuses it, having compared it with the
      first window only. The corrected check accepts it. */
  lemma SecondWindowSlotRejected(svc: ServiceRef, date: string, morning: Availability, afternoon: Availability, ws: seq<Availability>)
    requires svc.durationMinutes == 30 && date == "2025-03-10"
    requires morning == Availability(1, "09:00", "10:00") && afternoon == Availability(1, "14:00", "15:00")
    requires ws == [morning, afternoon]
    ensures AllWellFormed(ws)
    ensures var s := Candidate(svc, date, ToMinutes(afternoon.startTime));
      && s.startTime == afternoon.startTime
      && s in GeneratedSlots(svc, date, ws, [])
      && IsValidTime(s.endTime)
      && !ValidateSlotAvailability(svc, date, s.startTime, s.endTime, ws, [])
      && ValidateSlotCorrected(svc, date, s.startTime, ws, [])
  {
    Calendar.MondayWeekday();
    TwoMondayWindows(morning, afternoon);
    WellFormedPair(morning, afternoon);
    var day := Calendar.DayOfWeek(date);
    var m := ToMinutes(afternoon.startTime);
    var c := Candidate(svc, date, m);
    assert ws[1] == afternoon && StartOf(m, svc.durationMinutes, 0) == m;
    NothingBookedWithout(c);
    FormatToMinutes(afternoon.startTime);
    assert FirstOnDay(ws, day) == 0 by {
      assert OnDay(ws[0], day);
    }
    LaterWindowSlotRejected(svc, date, ws, [], 1, 0);
  }

  /** The two Monday windows of finding 1, in minutes. */
  lemma TwoMondayWindows(morning: Availability, afternoon: Availability)
    requires morning == Availability(1, "09:00", "10:00") && afternoon == Availability(1, "14:00", "15:00")
    ensures WellFormed(morning) && WellFormed(afternoon)
    ensures ToMinutes(morning.endTime) == 600
    ensures ToMinutes(afternoon.startTime) == 840 && ToMinutes(afternoon.endTime) == 900
  {
  }

  /** `addMinutes` gives the time whose minute of the day is the sum, less a
      day when the sum passes midnight. */
  lemma AddMinutesGives(t: string, m: nat, e: string, tm: nat, em: nat)
    requires IsValidTime(t) && IsValidTime(e) && ToMinutes(t) == tm && ToMinutes(e) == em
    requires tm + m == em || tm + m == em + MinutesPerDay
    ensures AddMinutes(t, m) == e
  {
    WrapOnce(tm + m, em);
    AddMinutesIsFormat(t, m);
    FormatToMinutes(e);
  }

  /** Against a single window of the weekday, `validateSlotAvailability`
      accepts a pair that lies in it, in minutes, and overlaps nothing. */
  lemma SingleWindowAccepts(svc: ServiceRef, date: string, startTime: string, endTime: string,
                            w: Availability, appts: seq<Interval>)
    requires IsValidTime(startTime) && IsValidTime(endTime) && WellFormed(w)
    requires OnDay(w, Calendar.DayOfWeek(date))
    requires ToMinutes(w.startTime) <= ToMinutes(startTime) && ToMinutes(endTime) <= ToMinutes(w.endTime)
    requires !IsBooked(startTime, endTime, appts)
    ensures AllWellFormed([w])
    ensures ValidateSlotAvailability(svc, date, startTime, endTime, [w], appts)
  {
    WellFormedPair(w, w);
    assert FirstOnDay([w], Calendar.DayOfWeek(date)) == 0;
  }

  /** The string overlap test against one appointment fails when, in
      minutes, the pair starts at or after its end or ends at or before its start. */
  lemma NoOverlapWith(startTime: string, endTime: string, a: Interval)
    requires IsValidTime(startTime) && IsValidTime(endTime) && IsValidTime(a.startTime) && IsValidTime(a.endTime)
    requires ToMinutes(a.endTime) <= ToMinutes(startTime) || ToMinutes(endTime) <= ToMinutes(a.startTime)
    ensures !IsBooked(startTime, endTime, [a])
  {
    StrLessIsTimeOrder(startTime, a.endTime);
    StrLessIsTimeOrder(a.startTime, endTime);
    assert [a][0] == a;
  }

  /** Against a single window, the corrected check refuses a slot that
      would run past the window's end. */
  lemma CorrectedRefusesOverrun(svc: ServiceRef, date: string, startTime: string, w: Availability, appts: seq<Interval>)
    requires svc.durationMinutes > 0 && IsValidTime(startTime) && WellFormed(w)
    requires ToMinutes(w.endTime) < ToMinutes(startTime) + svc.durationMinutes
    ensures AllWellFormed([w])
    ensures !ValidateSlotCorrected(svc, date, startTime, [w], appts)
  {
    WellFormedPair(w, w);
  }

  /** The Monday window of finding 2, in minutes. */
  lemma LateWindowTimes(late: Availability)
    requires late == Availability(1, "22:00", "23:30")
    ensures WellFormed(late) && ToMinutes(late.startTime) == 1320 && ToMinutes(late.endTime) == 1410
  {
  }

  /** A booking time and the end `addMinutes` gives it, in minutes. */
  lemma BookingTimes(startTime: string, endTime: string, s: nat, e: nat)
    requires startTime == "23:30" && endTime == "00:30" && s == 1410 && e == 30
    ensures IsValidTime(startTime) && IsValidTime(endTime) && ToMinutes(startTime) == s && ToMinutes(endTime) == e
  {
  }

  lemma EarlierBookingTimes(first: Interval, second: Interval)
    requires first == Interval("23:00", "00:00") && second == Interval("22:30", "23:30")
    ensures IsValidTime(first.startTime) && IsValidTime(first.endTime)
    ensures IsValidTime(second.startTime) && IsValidTime(second.endTime)
    ensures ToMinutes(first.startTime) == 1380 && ToMinutes(first.endTime) == 0
    ensures ToMinutes(second.startTime) == 1350 && ToMinutes(second.endTime) == 1410
  {
  }

  /** Finding 2, as written. A Monday window 22:00-23:30 and a 60-minute
      service: a booking at 23:30 gets the end `00:30` from `addMinutes`,
      which passes the bound check although the slot ends an hour past the
      window, and passes the string overlap test against the very same
      booking already made. The corrected check refuses it. */
  lemma WrappedSlotAccepted(svc: ServiceRef, date: string, late: Availability, ws: seq<Availability>,
                            startTime: string, endTime: string)
    requires svc.durationMinutes == 60 && date == "2025-03-10"
    requires late == Availability(1, "22:00", "23:30") && ws == [late]
    requires startTime == "23:30" && endTime == "00:30"
    ensures AllWellFormed(ws) && IsValidTime(startTime) && IsValidTime(endTime)
    ensures AddMinutes(startTime, svc.durationMinutes) == endTime
    ensures ValidateSlotAvailability(svc, date, startTime, endTime, ws, [])
    ensures ValidateSlotAvailability(svc, date, startTime, endTime, ws, [Interval(startTime, endTime)])
    ensures !ValidateSlotCorrected(svc, date, startTime, ws, [])
  {
    Calendar.MondayWeekday();
    LateWindowTimes(late);
    BookingTimes(startTime, endTime, 1410, 30);
    AddMinutesGives(startTime, 60, endTime, 1410, 30);
    NoOverlapWith(startTime, endTime, Interval(startTime, endTime));
    SingleWindowAccepts(svc, date, startTime, endTime, late, []);
    SingleWindowAccepts(svc, date, startTime, endTime, late, [Interval(startTime, endTime)]);
    CorrectedRefusesOverrun(svc, date, startTime, late, []);
  }

  /** Finding 2, two different starts. With the same window and service, a
      booking 23:00 (end `00:00`) is accepted, and then a booking 22:30
      (end 23:30) is accepted beside it, though in minutes 22:30-23:30 and
      23:00-24:00 overlap; a uniqueness rule on the start time cannot catch
      this one. */
  lemma OverlappingWrappedBookings(svc: ServiceRef, date: string, late: Availability, ws: seq<Availability>,
                                   first: Interval, second: Interval)
    requires svc.durationMinutes == 60 && date == "2025-03-10"
    requires late == Availability(1, "22:00", "23:30") && ws == [late]
    requires first == Interval("23:00", "00:00") && second == Interval("22:30", "23:30")
    ensures AllWellFormed(ws)
    ensures IsValidTime(first.startTime) && IsValidTime(first.endTime)
    ensures IsValidTime(second.startTime) && IsValidTime(second.endTime)
    ensures AddMinutes(first.startTime, 60) == first.endTime && AddMinutes(second.startTime, 60) == second.endTime
    ensures ValidateSlotAvailability(svc, date, first.startTime, first.endTime, ws, [])
    ensures ValidateSlotAvailability(svc, date, second.startTime, second.endTime, ws, [first])
    ensures ToMinutes(second.startTime) < ToMinutes(first.startTime) + 60
      && ToMinutes(first.startTime) < ToMinutes(second.startTime) + 60
  {
    Calendar.MondayWeekday();
    LateWindowTimes(late);
    EarlierBookingTimes(first, second);
    AddMinutesGives(first.startTime, 60, first.endTime, 1380, 0);
    AddMinutesGives(second.startTime, 60, second.endTime, 1350, 1410);
    NoOverlapWith(second.startTime, second.endTime, first);
    SingleWindowAccepts(svc, date, first.startTime, first.endTime, late, []);
    SingleWindowAccepts(svc, date, second.startTime, second.endTime, late, [first]);
  }

  /** A slot id of a service without `_`, a valid date and a start on 00
      or 30 parses back to its parts and passes the format guards. */
  lemma WellFormedSlotId(serviceId: string, date: string, startTime: string, slotId: string)
    requires serviceId != "" && NoUnderscore(serviceId)
    requires IsValidDate(date) && IsValidSlotMinute(startTime)
    requires slotId == SlotId(serviceId, date, startTime)
    ensures ParseSlotId(slotId) == SlotKey(serviceId, date, startTime)
    ensures !MissingPiece(ParseSlotId(slotId)) && !BadDateOrTime(ParseSlotId(slotId))
  {
    SlotMinuteParts(startTime);
    DateTimeNoUnderscore(date, startTime);
    SlotIdRoundTrip(serviceId, date, startTime, "");
  }

  /** The two starts and the date of the bookings below. */
  lemma WrappedStarts(first: string, second: string, date: string)
    requires first == "23:00" && second == "22:30" && date == "2025-03-10"
    ensures IsValidSlotMinute(first) && IsValidSlotMinute(second) && IsValidDate(date)
  {
    SlotMinuteParts(first);
    SlotMinuteParts(second);
  }

  /** With the one window 22:00-23:30 stored for the service, the
      transaction of a slot the check accepts and nobody holds stores it. */
  lemma LateWindowReserve(service: Service, late: Availability, rows: seq<AvailabilityRow>, appts: seq<Appointment>,
                          userId: string, slotId: string, k: SlotKey, endTime: string)
    requires late == Availability(1, "22:00", "23:30") && rows == [AvailabilityRow(service.id, late)]
    requires k.serviceId == service.id && IsValidTime(k.startTime) && IsValidTime(endTime)
    requires AllWellFormed([late])
    requires ValidateSlotAvailability(ServiceRef(service.id, service.durationMinutes), k.date, k.startTime, endTime,
                                      [late], BookedFor(appts, service.id, k.date))
    requires !TakenSlot(appts, k)
    ensures forall row | row in rows :: WellFormed(row.window)
    ensures Reserve(service, rows, appts, userId, slotId, k, endTime)
         == Success(Appointment(userId, k.serviceId, k.date, k.startTime, endTime, slotId, Booked))
  {
    assert WindowsOf(rows, service.id) == [late];
  }

  /** A slot id that gets past every guard ends in what its transaction gives. */
  lemma GuardsPassed(services: seq<Service>, rows: seq<AvailabilityRow>, appts: seq<Appointment>, clock: Clock,
                     userId: string, slotId: string, service: Service, k: SlotKey, endTime: string, a: Appointment)
    requires forall row | row in rows :: WellFormed(row.window)
    requires ParseSlotId(slotId) == k && !MissingPiece(k) && !BadDateOrTime(k)
    requires FindService(services, k.serviceId) == Some(service)
    requires service.providerId != userId && DurationValid(service.durationMinutes) && !InPast(clock, k)
    requires AddMinutes(k.startTime, service.durationMinutes) == endTime && IsValidTime(endTime)
    requires Reserve(service, rows, appts, userId, slotId, k, endTime) == Success(a)
    ensures BookingOutcome(services, rows, appts, clock, userId, slotId) == Success(a)
  {
    BookingReachesReserve(services, rows, appts, clock, userId, slotId, service);
  }

  /** The transaction of the 23:00 booking on an empty table stores it. */
  lemma WrappedFirstReserve(service: Service, late: Availability, rows: seq<AvailabilityRow>, date: string,
                            userId: string, slotId: string, k: SlotKey)
    requires service.durationMinutes == 60
    requires late == Availability(1, "22:00", "23:30") && rows == [AvailabilityRow(service.id, late)]
    requires date == "2025-03-10" && k == SlotKey(service.id, date, "23:00")
    ensures IsValidTime(k.startTime) && IsValidTime("00:00")
    ensures AddMinutes(k.startTime, 60) == "00:00"
    ensures forall row | row in rows :: WellFormed(row.window)
    ensures Reserve(service, rows, [], userId, slotId, k, "00:00")
         == Success(Appointment(userId, service.id, date, "23:00", "00:00", slotId, Booked))
  {
    OverlappingWrappedBookings(ServiceRef(service.id, 60), date, late, [late],
                               Interval("23:00", "00:00"), Interval("22:30", "23:30"));
    assert BookedFor([], service.id, date) == [];
    LateWindowReserve(service, late, rows, [], userId, slotId, k, "00:00");
  }

  /** A table holding one BOOKED appointment of the service and date gives
      its interval to the overlap test, and does not hold another start. */
  lemma SingleBooked(first: Appointment, serviceId: string, date: string, k: SlotKey)
    requires first.serviceId == serviceId && first.date == date && first.status == Booked
    requires first.startTime != k.startTime
    ensures BookedFor([first], serviceId, date) == [IntervalOf(first)]
    ensures !TakenSlot([first], k)
  {
    assert KeyOf(first) != k;
  }

  /** The transaction of the 22:30 booking beside the 23:00 one stores it. */
  lemma WrappedSecondReserve(service: Service, late: Availability, rows: seq<AvailabilityRow>, date: string,
                             userId: string, slotId: string, k: SlotKey, first: Appointment)
    requires service.durationMinutes == 60
    requires late == Availability(1, "22:00", "23:30") && rows == [AvailabilityRow(service.id, late)]
    requires date == "2025-03-10" && k == SlotKey(service.id, date, "22:30")
    requires first.serviceId == service.id && first.date == date && first.status == Booked
    requires first.startTime == "23:00" && first.endTime == "00:00"
    ensures IsValidTime(k.startTime) && IsValidTime("23:30")
    ensures AddMinutes(k.startTime, 60) == "23:30"
    ensures forall row | row in rows :: WellFormed(row.window)
    ensures Reserve(service, rows, [first], userId, slotId, k, "23:30")
         == Success(Appointment(userId, service.id, date, "22:30", "23:30", slotId, Booked))
  {
    OverlappingWrappedBookings(ServiceRef(service.id, 60), date, late, [late],
                               Interval("23:00", "00:00"), Interval("22:30", "23:30"));
    SingleBooked(first, service.id, date, k);
    LateWindowReserve(service, late, rows, [first], userId, slotId, k, "23:30");
  }

  /** The 23:00 booking of finding 2 on an empty table is stored with the
      end `00:00` that `addMinutes` gives it. */
  lemma WrappedFirstBooks(services: seq<Service>, rows: seq<AvailabilityRow>, clock: Clock, service: Service,
                          late: Availability, date: string, userId: string, slotId: string, first: Appointment)
    requires FindService(services, service.id) == Some(service)
    requires service.id != "" && NoUnderscore(service.id) && service.durationMinutes == 60
    requires service.providerId != userId
    requires late == Availability(1, "22:00", "23:30") && rows == [AvailabilityRow(service.id, late)]
    requires date == "2025-03-10" && !clock.dateBeforeToday(date) && !clock.instantPassed(date, "23:00")
    requires slotId == SlotId(service.id, date, "23:00")
    requires first == Appointment(userId, service.id, date, "23:00", "00:00", slotId, Booked)
    ensures forall row | row in rows :: WellFormed(row.window)
    ensures BookingOutcome(services, rows, [], clock, userId, slotId) == Success(first)
  {
    var k := SlotKey(service.id, date, "23:00");
    WrappedStarts("23:00", "22:30", date);
    WellFormedSlotId(service.id, date, "23:00", slotId);
    DurationValues(60);
    WrappedFirstReserve(service, late, rows, date, userId, slotId, k);
    GuardsPassed(services, rows, [], clock, userId, slotId, service, k, "00:00", first);
  }

  /** The 22:30 booking of finding 2, against a table holding the 23:00
      one, is stored with the end 23:30. */
  lemma WrappedSecondBooks(services: seq<Service>, rows: seq<AvailabilityRow>, clock: Clock, service: Service,
                           late: Availability, date: string, userId: string, slotId: string,
                           first: Appointment, second: Appointment)
    requires FindService(services, service.id) == Some(service)
    requires service.id != "" && NoUnderscore(service.id) && service.durationMinutes == 60
    requires service.providerId != userId
    requires late == Availability(1, "22:00", "23:30") && rows == [AvailabilityRow(service.id, late)]
    requires date == "2025-03-10" && !clock.dateBeforeToday(date) && !clock.instantPassed(date, "22:30")
    requires first.serviceId == service.id && first.date == date && first.status == Booked
    requires first.startTime == "23:00" && first.endTime == "00:00"
    requires slotId == SlotId(service.id, date, "22:30")
    requires second == Appointment(userId, service.id, date, "22:30", "23:30", slotId, Booked)
    ensures forall row | row in rows :: WellFormed(row.window)
    ensures BookingOutcome(services, rows, [first], clock, userId, slotId) == Success(second)
  {
    var k := SlotKey(service.id, date, "22:30");
    WrappedStarts("23:00", "22:30", date);
    WellFormedSlotId(service.id, date, "22:30", slotId);
    DurationValues(60);
    WrappedSecondReserve(service, late, rows, date, userId, slotId, k, first);
    GuardsPassed(services, rows, [first], clock, userId, slotId, service, k, "23:30", second);
  }

  /** Finding 2 through the booking handler. With the Monday window
      22:00-23:30 and a 60-minute service, a booking at 23:00 is stored on
      an empty table, and a booking at 22:30 is then stored beside it,
      although in minutes 23:00-24:00 and 22:30-23:30 overlap. The two
      starts differ, so the uniqueness rule on the start does not catch
      it. */
  lemma OverlappingWrappedAppointments(services: seq<Service>, rows: seq<AvailabilityRow>, clock: Clock,
                                       service: Service, late: Availability, date: string,
                                       userId: string, otherId: string, firstId: string, secondId: string,
                                       first: Appointment, second: Appointment)
    requires FindService(services, service.id) == Some(service)
    requires service.id != "" && NoUnderscore(service.id) && service.durationMinutes == 60
    requires service.providerId != userId && service.providerId != otherId
    requires late == Availability(1, "22:00", "23:30") && rows == [AvailabilityRow(service.id, late)]
    requires date == "2025-03-10" && !clock.dateBeforeToday(date)
    requires !clock.instantPassed(date, "23:00") && !clock.instantPassed(date, "22:30")
    requires firstId == SlotId(service.id, date, "23:00") && secondId == SlotId(service.id, date, "22:30")
    requires first == Appointment(userId, service.id, date, "23:00", "00:00", firstId, Booked)
    requires second == Appointment(otherId, service.id, date, "22:30", "23:30", secondId, Booked)
    ensures forall row | row in rows :: WellFormed(row.window)
    ensures BookingOutcome(services, rows, [], clock, userId, firstId) == Success(first)
    ensures BookingOutcome(services, rows, [first], clock, otherId, secondId) == Success(second)
    ensures UniqueBooked([first, second])
    ensures IsValidTime(first.startTime) && IsValidTime(second.startTime)
    ensures ToMinutes(second.startTime) < ToMinutes(first.startTime) + 60
      && ToMinutes(first.startTime) < ToMinutes(second.startTime) + 60
  {
    WrappedFirstBooks(services, rows, clock, service, late, date, userId, firstId, first);
    WrappedSecondBooks(services, rows, clock, service, late, date, otherId, secondId, first, second);
    EarlierBookingTimes(Interval("23:00", "00:00"), Interval("22:30", "23:30"));
    assert KeyOf(first) != KeyOf(second);
  }
}
