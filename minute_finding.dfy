/** The availability pattern of apps/api/src/types/validators.ts admits
    window bounds on minutes 10 and 20, though its message and the booking
    rule of the appointment controller allow minutes 00 and 30 only. A
    window that starts at 09:10 then offers slots that `bookAppointment`
    refuses. With the pattern its message describes, every start a window
    offers for an accepted duration is on 00 or 30, and a slot offered
    from the first window of its weekday books. */
module MinuteFinding {
  import opened Wrappers
  import opened Strings
  import opened Time
  import opened Slots
  import opened Records
  import opened Validators
  import opened AppointmentController
  import Calendar

  /** The literal facts of the window Monday 09:10 to 10:10. */
  lemma TenPastWindow(input: AvailabilityInput)
    requires input == AvailabilityInput(1, "09:10", "10:10")
    ensures AvailabilityInputValid(input)
    ensures WellFormed(WindowOf(input)) && AllWellFormed([WindowOf(input)])
    ensures ToMinutes(input.startTime) == 550 && ToMinutes(input.endTime) == 610
    ensures !IsValidSlotMinute(input.startTime)
  {
    assert [WindowOf(input)][0] == WindowOf(input);
  }

  /** As written: a provider may store the Monday window 09:10 to 10:10;
      for a 30-minute service `generateSlots` then offers the slot starting
      09:10 on Monday 2025-03-10, and booking that slot's id is refused with
      400 "Invalid slotId time or date". */
  lemma TenPastSlotUnbookable(svc: ServiceRef, date: string, input: AvailabilityInput,
                              services: seq<Service>, rows: seq<AvailabilityRow>, appts: seq<Appointment>,
                              clock: Clock, userId: string)
    requires svc.durationMinutes == 30 && svc.id != "" && NoUnderscore(svc.id)
    requires date == "2025-03-10"
    requires input == AvailabilityInput(1, "09:10", "10:10")
    requires forall row | row in rows :: WellFormed(row.window)
    ensures AvailabilityInputValid(input)
    ensures AllWellFormed([WindowOf(input)])
    ensures var s := Candidate(svc, date, ToMinutes(input.startTime));
      && s.startTime == input.startTime
      && s in GeneratedSlots(svc, date, [WindowOf(input)], [])
      && BookingOutcome(services, rows, appts, clock, userId, s.slotId) == Failure(Error(400, "Invalid slotId time or date"))
  {
    TenPastWindow(input);
    TenPastSlotOffered(svc, date, input);
    var s := Candidate(svc, date, ToMinutes(input.startTime));
    TenPastSlotRefused(svc.id, date, s.startTime, s.slotId, services, rows, appts, clock, userId);
  }

  /** The 09:10 candidate of the window is offered on Monday 2025-03-10. */
  lemma TenPastSlotOffered(svc: ServiceRef, date: string, input: AvailabilityInput)
    requires svc.durationMinutes == 30 && date == "2025-03-10"
    requires input == AvailabilityInput(1, "09:10", "10:10")
    ensures AllWellFormed([WindowOf(input)])
    ensures var s := Candidate(svc, date, ToMinutes(input.startTime));
      && s.startTime == input.startTime
      && s.slotId == SlotId(svc.id, date, input.startTime)
      && s in GeneratedSlots(svc, date, [WindowOf(input)], [])
  {
    var w := WindowOf(input);
    TenPastWindow(input);
    Calendar.MondayWeekday();
    var m := ToMinutes(w.startTime);
    var s := Candidate(svc, date, m);
    CandidateFacts(svc, date, m);
    FormatToMinutes(w.startTime);
    assert StartOf(m, svc.durationMinutes, 0) == m;
    NothingBookedWithout(s);
    GeneratedComplete(svc, date, [w], [], w, 0);
  }

  /** The slot id of a 09:10 start is refused before any lookup. */
  lemma TenPastSlotRefused(serviceId: string, date: string, startTime: string, slotId: string,
                           services: seq<Service>, rows: seq<AvailabilityRow>, appts: seq<Appointment>,
                           clock: Clock, userId: string)
    requires serviceId != "" && NoUnderscore(serviceId) && date == "2025-03-10" && startTime == "09:10"
    requires slotId == SlotId(serviceId, date, startTime)
    requires forall row | row in rows :: WellFormed(row.window)
    ensures BookingOutcome(services, rows, appts, clock, userId, slotId) == Failure(Error(400, "Invalid slotId time or date"))
  {
    DateTimeNoUnderscore(date, startTime);
    SlotIdRoundTrip(serviceId, date, startTime, "");
    assert Minute(startTime) == 10;
    assert ParseSlotId(slotId) == SlotKey(serviceId, date, startTime);
  }

  /** `/^([01]\d|2[0-3]):([03]0)$/`: the pattern the message
      "minutes 00 or 30" describes. */
  predicate AvailabilityTimeCorrected(s: string) {
    && |s| == 5
    && (('0' <= s[0] <= '1' && IsDigit(s[1])) || (s[0] == '2' && '0' <= s[1] <= '3'))
    && s[2] == ':'
    && (s[3] == '0' || s[3] == '3')
    && s[4] == '0'
  }

  /** The corrected pattern accepts exactly the times the booking minute
      rule accepts, all of which the pattern as written accepts too. */
  lemma CorrectedTimeIsSlotMinute(s: string)
    ensures AvailabilityTimeCorrected(s) <==> IsValidSlotMinute(s)
    ensures AvailabilityTimeCorrected(s) ==> AvailabilityTimeValid(s)
  {
    if IsValidTime(s) && (Minute(s) == 0 || Minute(s) == 30) {
      assert DigitValue(s[4]) == 0;
    }
  }

  /** On a valid time, a minute of the day on the half hour is a minute part of 00 or 30. */
  lemma HalfHourMinute(t: string)
    requires IsValidTime(t)
    ensures ToMinutes(t) % 30 == 0 <==> IsValidSlotMinute(t)
  {
    var h := Hour(t);
    var m := Minute(t);
    assert ToMinutes(t) == 30 * (2 * h) + m;
  }

  /** A window walked in steps of a multiple of 30 from a half-hour start
      offers starts on the half hour only. */
  lemma {:induction false} WindowSlotsOnGrid(svc: ServiceRef, date: string, cur: nat, endMinutes: nat, appts: seq<Interval>)
    requires svc.durationMinutes > 0 && endMinutes < MinutesPerDay
    requires cur % 30 == 0 && svc.durationMinutes % 30 == 0
    ensures forall s | s in WindowSlots(svc, date, cur, endMinutes, appts) ::
      IsValidTime(s.startTime) && ToMinutes(s.startTime) % 30 == 0
    decreases endMinutes - cur
  {
    var d := svc.durationMinutes;
    if cur + d <= endMinutes {
      var next := cur + d;
      var slot := Candidate(svc, date, cur);
      var booked := IsBooked(slot.startTime, slot.endTime, appts);
      var rest := WindowSlots(svc, date, next, endMinutes, appts);
      CandidateFacts(svc, date, cur);
      WindowSlotsStep(svc, date, cur, next, endMinutes, appts, slot, booked);
      GridStep(cur, d);
      WindowSlotsOnGrid(svc, date, next, endMinutes, appts);
      forall t | t in WindowSlots(svc, date, cur, endMinutes, appts)
        ensures IsValidTime(t.startTime) && ToMinutes(t.startTime) % 30 == 0
      {
        if t !in rest {
          assert t == slot;
        }
      }
    }
  }

  lemma GridStep(a: nat, b: nat)
    requires a % 30 == 0 && b % 30 == 0
    ensures (a + b) % 30 == 0
  {
  }

  /** Windows whose starts pass the corrected pattern offer, for an
      accepted duration, only starts the booking minute rule accepts. */
  lemma {:induction false} SlotsOfOnGrid(svc: ServiceRef, date: string, ws: seq<Availability>, appts: seq<Interval>)
    requires DurationValid(svc.durationMinutes) && AllWellFormed(ws)
    requires forall w | w in ws :: AvailabilityTimeCorrected(w.startTime)
    ensures forall s | s in SlotsOf(svc, date, ws, appts) :: IsValidSlotMinute(s.startTime)
  {
    if |ws| > 0 {
      var w := ws[|ws| - 1];
      assert forall v | v in ws[..|ws| - 1] :: v in ws;
      SlotsOfOnGrid(svc, date, ws[..|ws| - 1], appts);
      CorrectedTimeIsSlotMinute(w.startTime);
      HalfHourMinute(w.startTime);
      WindowSlotsOnGrid(svc, date, ToMinutes(w.startTime), ToMinutes(w.endTime), appts);
      forall s | s in SlotsOfWindow(svc, date, w, appts)
        ensures IsValidSlotMinute(s.startTime)
      {
        HalfHourMinute(s.startTime);
      }
    }
  }

  /** Corrected: with window starts on 00 or 30, every slot `generateSlots`
      offers for an accepted duration starts on 00 or 30. */
  lemma GeneratedOnGrid(svc: ServiceRef, date: string, ws: seq<Availability>, appts: seq<Interval>)
    requires DurationValid(svc.durationMinutes) && AllWellFormed(ws)
    requires forall w | w in ws :: AvailabilityTimeCorrected(w.startTime)
    ensures forall s | s in GeneratedSlots(svc, date, ws, appts) :: IsValidSlotMinute(s.startTime)
  {
    RelevantSubset(ws, Calendar.DayOfWeek(date));
    SlotsOfOnGrid(svc, date, Relevant(ws, Calendar.DayOfWeek(date)), appts);
  }

  /** Corrected, end to end: when every stored window starts on 00 or 30, a
      slot `generateSlots` offers from the first window of its weekday, for
      a service whose id holds no `_`, books for anyone but the provider
      while its moment has not passed and no BOOKED appointment holds its
      start; the stored appointment carries the slot's own times and id. */
  lemma CorrectedFirstWindowSlotBooks(services: seq<Service>, rows: seq<AvailabilityRow>, appts: seq<Appointment>,
                                      clock: Clock, userId: string, service: Service, date: string, s: Slot)
    requires forall row | row in rows :: WellFormed(row.window) && AvailabilityTimeCorrected(row.window.startTime)
    requires FindService(services, service.id) == Some(service)
    requires service.id != "" && NoUnderscore(service.id)
    requires service.providerId != userId && DurationValid(service.durationMinutes)
    requires IsValidDate(date)
    requires FirstOnDay(WindowsOf(rows, service.id), Calendar.DayOfWeek(date)) < |WindowsOf(rows, service.id)|
    requires AllWellFormed(WindowsOf(rows, service.id))
    requires s in SlotsOfWindow(ServiceRef(service.id, service.durationMinutes), date,
                                WindowsOf(rows, service.id)[FirstOnDay(WindowsOf(rows, service.id), Calendar.DayOfWeek(date))],
                                BookedFor(appts, service.id, date))
    requires !InPast(clock, SlotKey(service.id, date, s.startTime))
    requires !TakenSlot(appts, SlotKey(service.id, date, s.startTime))
    ensures BookingOutcome(services, rows, appts, clock, userId, s.slotId)
         == Success(Appointment(userId, service.id, date, s.startTime, s.endTime, s.slotId, Booked))
  {
    var svc := ServiceRef(service.id, service.durationMinutes);
    var ws := WindowsOf(rows, service.id);
    var i := FirstOnDay(ws, Calendar.DayOfWeek(date));
    var w := ws[i];
    var booked := BookedFor(appts, service.id, date);
    WindowSlotsSound(svc, date, ToMinutes(w.startTime), ToMinutes(w.endTime), booked);
    assert w in ws;
    WindowsOfMembers(rows, service.id, w);
    assert AvailabilityRow(service.id, w) in rows;
    CorrectedTimeIsSlotMinute(w.startTime);
    HalfHourMinute(w.startTime);
    WindowSlotsOnGrid(svc, date, ToMinutes(w.startTime), ToMinutes(w.endTime), booked);
    HalfHourMinute(s.startTime);
    DateTimeNoUnderscore(date, s.startTime);
    SlotIdRoundTrip(service.id, date, s.startTime, "");
    var k := ParseSlotId(s.slotId);
    assert k == SlotKey(service.id, date, s.startTime);
    GeneratedEndIsAddMinutes(svc, s);
    FirstWindowSlotsValidate(svc, date, ws, booked, i, s);
    BookingReachesReserve(services, rows, appts, clock, userId, s.slotId, service);
  }
}
