/** The request schemas of apps/api/src/types/validators.ts as predicates:
    a request body is accepted exactly when its predicate holds. */
module Validators {
  import opened Wrappers
  import opened Strings
  import opened Time
  import opened Slots
  import opened Records

  /** `z.number().int().min(30).max(120).refine((val) => val % 30 === 0)` */
  predicate DurationValid(d: int) {
    30 <= d <= 120 && d % 30 == 0
  }

  /** The accepted durations are exactly 30, 60, 90 and 120 minutes. */
  lemma DurationValues(d: int)
    ensures DurationValid(d) <==> d in {30, 60, 90, 120}
  {
    if DurationValid(d) {
      var k := d / 30;
      assert d == 30 * k;
      assert 1 <= k <= 4;
    }
  }

  /** The body of a create-service request. */
  datatype CreateServiceInput = CreateServiceInput(name: string, serviceType: string, durationMinutes: int)

  /** `createServiceSchema`: a non-empty name, a `ServiceType` value and an accepted duration. */
  predicate CreateServiceValid(i: CreateServiceInput) {
    |i.name| >= 1 && ParseServiceType(i.serviceType).Some? && DurationValid(i.durationMinutes)
  }

  /** The body of an update-service request: each field may be absent. */
  datatype UpdateServiceInput = UpdateServiceInput(name: Option<string>, serviceType: Option<string>, durationMinutes: Option<int>)

  /** `updateServiceSchema`: every present field obeys the create rule,
      and at least one field is present. */
  predicate UpdateServiceValid(u: UpdateServiceInput) {
    && (u.name.Some? ==> |u.name.value| >= 1)
    && (u.serviceType.Some? ==> ParseServiceType(u.serviceType.value).Some?)
    && (u.durationMinutes.Some? ==> DurationValid(u.durationMinutes.value))
    && (u.name.Some? || u.serviceType.Some? || u.durationMinutes.Some?)
  }

  /** An update with no field is refused; one with all fields is accepted
      exactly when the same fields would create a service. */
  lemma UpdateServiceRule(u: UpdateServiceInput)
    ensures u == UpdateServiceInput(None, None, None) ==> !UpdateServiceValid(u)
    ensures u.name.Some? && u.serviceType.Some? && u.durationMinutes.Some? ==>
      (UpdateServiceValid(u) <==> CreateServiceValid(CreateServiceInput(u.name.value, u.serviceType.value, u.durationMinutes.value)))
    ensures UpdateServiceValid(u) && u.durationMinutes.Some? ==> u.durationMinutes.value in {30, 60, 90, 120}
  {
    if UpdateServiceValid(u) && u.durationMinutes.Some? {
      DurationValues(u.durationMinutes.value);
    }
  }

  /** `/^([01]\d|2[0-3]):([0-3]0)$/`: an hour 00..23 and a minute whose
      tens digit is 0..3 and whose units digit is 0. */
  predicate AvailabilityTimeValid(s: string) {
    && |s| == 5
    && (('0' <= s[0] <= '1' && IsDigit(s[1])) || (s[0] == '2' && '0' <= s[1] <= '3'))
    && s[2] == ':'
    && '0' <= s[3] <= '3'
    && s[4] == '0'
  }

  /** The availability pattern accepts exactly the valid `HH:MM` times
      whose minute is 00, 10, 20 or 30: more than the 00/30 its message
      announces. */
  lemma AvailabilityTimeMinutes(s: string)
    ensures AvailabilityTimeValid(s) <==> IsValidTime(s) && Minute(s) in {0, 10, 20, 30}
  {
    if IsValidTime(s) && Minute(s) in {0, 10, 20, 30} {
      assert DigitValue(s[4]) == 0 && DigitValue(s[3]) <= 3;
    }
  }

  /** `09:10` is an accepted window bound that the booking minute rule refuses. */
  lemma AvailabilityTimeAdmitsTen()
    ensures AvailabilityTimeValid("09:10") && !IsValidSlotMinute("09:10")
  {
    assert Minute("09:10") == 10;
  }

  /** `z.number().int().min(0).max(6)` */
  predicate DayOfWeekValid(d: int) {
    0 <= d <= 6
  }

  /** The body of a set-availability request. */
  datatype AvailabilityInput = AvailabilityInput(dayOfWeek: int, startTime: string, endTime: string)

  /** `setAvailabilitySchema`: a weekday, two bounds of the pattern, and
      `startTime < endTime` as strings. */
  predicate AvailabilityInputValid(a: AvailabilityInput) {
    && DayOfWeekValid(a.dayOfWeek)
    && AvailabilityTimeValid(a.startTime)
    && AvailabilityTimeValid(a.endTime)
    && StrLess(a.startTime, a.endTime)
  }

  /** The window an accepted request describes. */
  function WindowOf(a: AvailabilityInput): Availability {
    Availability(a.dayOfWeek, a.startTime, a.endTime)
  }

  /** An accepted window is well formed and starts strictly before it ends, in minutes. */
  lemma AvailabilityInputOrdered(a: AvailabilityInput)
    requires AvailabilityInputValid(a)
    ensures WellFormed(WindowOf(a))
    ensures ToMinutes(a.startTime) < ToMinutes(a.endTime)
  {
    StrLessIsTimeOrder(a.startTime, a.endTime);
  }

  /** `availabilityBatchSchema`: at least one window, each accepted. */
  predicate AvailabilityBatchValid(batch: seq<AvailabilityInput>) {
    |batch| >= 1 && forall i :: 0 <= i < |batch| ==> AvailabilityInputValid(batch[i])
  }

  /** An empty batch is refused, and a batch is accepted exactly when it is
      non-empty and its windows are. */
  lemma AvailabilityBatchRule(batch: seq<AvailabilityInput>, a: AvailabilityInput)
    ensures !AvailabilityBatchValid([])
    ensures AvailabilityBatchValid(batch) ==> forall b | b in batch :: AvailabilityInputValid(b)
    ensures (|batch| >= 1 && forall b | b in batch :: AvailabilityInputValid(b)) ==> AvailabilityBatchValid(batch)
    ensures AvailabilityBatchValid([a]) <==> AvailabilityInputValid(a)
  {
    if |batch| >= 1 && forall b | b in batch :: AvailabilityInputValid(b) {
      forall i | 0 <= i < |batch|
        ensures AvailabilityInputValid(batch[i])
      {
        assert batch[i] in batch;
      }
    }
    if AvailabilityBatchValid(batch) {
      forall b | b in batch
        ensures AvailabilityInputValid(b)
      {
        var i :| 0 <= i < |batch| && batch[i] == b;
      }
    }
    assert [a][0] == a;
  }

  /** `dateQuerySchema`: `/^\d{4}-\d{2}-\d{2}$/`, the pattern `isValidDate` uses. */
  predicate DateQueryValid(date: string) {
    IsValidDate(date)
  }

  /** The date query checks the shape only: month 13, day 45 pass. */
  lemma DateQueryShapeOnly()
    ensures DateQueryValid("2025-13-45")
    ensures !DateQueryValid("2025-3-10")
  {
  }
}
