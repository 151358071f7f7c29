/** The request schemas of the older tree, src/types/validators.ts. It has
    no update-service and no batch schema; its other schemas are built from
    the same field rules as the current ones, and the lemmas below state
    that they accept the same requests. */
module LegacyValidators {
  import opened Strings
  import opened Time
  import Records
  import Validators

  /** `createServiceSchema` of the older tree. */
  predicate CreateServiceValid(name: string, serviceType: string, durationMinutes: int) {
    |name| >= 1 && Records.ParseServiceType(serviceType).Some? && Validators.DurationValid(durationMinutes)
  }

  /** `setAvailabilitySchema` of the older tree. */
  predicate SetAvailabilityValid(dayOfWeek: int, startTime: string, endTime: string) {
    && Validators.DayOfWeekValid(dayOfWeek)
    && Validators.AvailabilityTimeValid(startTime)
    && Validators.AvailabilityTimeValid(endTime)
    && StrLess(startTime, endTime)
  }

  /** `dateQuerySchema` of the older tree. */
  predicate DateQueryValid(date: string) {
    IsValidDate(date)
  }

  /** The older create rule accepts exactly the durations 30, 60, 90 and
      120, and the same bodies as the current one. */
  lemma CreateServiceAgrees(name: string, serviceType: string, durationMinutes: int)
    ensures CreateServiceValid(name, serviceType, durationMinutes) <==>
      Validators.CreateServiceValid(Validators.CreateServiceInput(name, serviceType, durationMinutes))
    ensures CreateServiceValid(name, serviceType, durationMinutes) ==> durationMinutes in {30, 60, 90, 120}
  {
    Validators.DurationValues(durationMinutes);
  }

  /** The older window rule: weekday 0..6, minutes 00/10/20/30, start
      before end in minutes; the same bodies as the current rule. */
  lemma SetAvailabilityAgrees(dayOfWeek: int, startTime: string, endTime: string)
    ensures SetAvailabilityValid(dayOfWeek, startTime, endTime) <==>
      Validators.AvailabilityInputValid(Validators.AvailabilityInput(dayOfWeek, startTime, endTime))
    ensures SetAvailabilityValid(dayOfWeek, startTime, endTime) <==>
      && 0 <= dayOfWeek <= 6
      && IsValidTime(startTime) && Minute(startTime) in {0, 10, 20, 30}
      && IsValidTime(endTime) && Minute(endTime) in {0, 10, 20, 30}
      && ToMinutes(startTime) < ToMinutes(endTime)
  {
    Validators.AvailabilityTimeMinutes(startTime);
    Validators.AvailabilityTimeMinutes(endTime);
    if IsValidTime(startTime) && IsValidTime(endTime) {
      StrLessIsTimeOrder(startTime, endTime);
    }
  }

  /** The older date query checks the shape only, as the current one does. */
  lemma DateQueryAgrees(date: string)
    ensures DateQueryValid(date) <==> Validators.DateQueryValid(date)
    ensures DateQueryValid("2025-13-45")
  {
  }
}
